# vsgXchange GDAL reader — decision logic in Dafny

This project models the two self-contained pieces of decision logic in
vsgXchange's GDAL reader (`src/gdal/GDAL.cpp`). Everything else in that
file hands work to GDAL or to the VSG object model.

- **Driver-extension enumeration** (`GDAL::getFeatures`, module
  `GdalFeatures` in `gdal_features.dfy`). Each GDAL driver declares its
  extensions in a string such as `"tif tiff"` or `"jpg/jpeg"`. A cursor
  walks that string: it skips blanks and dots, cuts a token at the next
  blank or slash, and registers `"." + token` in the feature map with the
  capability `READ_FILENAME`. The loop is a method proved against a
  specification function `Tokens` (the tokens the cursor cuts) and
  `Register` (inserting their keys in order). Lemmas give the shape of every token
  and key, a round trip (tokenizing a joined list of plain extensions
  gives the list back), the keys contributed by the whole driver list,
  and the edge case where a '/' after a separator yields the key `"."`.
- **Read policy** (`GDAL::Implementation::read`, module `GdalRead` in
  `gdal_read.dfy`). In order, the path reader:
  - refuses the scene graph's native extensions;
  - uses a `/vsimem` path as it is and sends any other path through
    `findFile`;
  - requires exactly one detected data type;
  - keeps the bands whose colour interpretation is defined, in band order;
  - promotes three components to four (RGBA) when the hint allows it;
  - refuses more than four components;
  - fills component `c` from usable band `c`, leaving any other component
    at the default fill `(0, 0, 0, 1)`.

  The memory-block reader names the block `"/vsimem/temp" + extensionHint`
  and delegates to the path reader. The outcome is specified by the
  predicate `IsReadResult`, and a lemma proves this specification decides
  the result uniquely.

`wrappers.dfy` holds the `Option` type that stands for null pointers,
empty `ref_ptr`s and `std::string::npos`.

Everything the code gets from GDAL or VSG is an input to the model:
- each driver's raster capability and extension metadata;
- the result of `vsg::findFile`, with an empty path meaning not found;
- the lower-cased extension;
- the opened dataset, described by its detected data-type set, its bands'
  colour interpretations, its size, its projection string and whether
  `GetGeoTransform` returned `CE_None`;
- whether `createImage2D` produced an image.

Two behaviours of `GDAL.cpp` that are easy to misread:
- **Missing options in the memory-block reader.** The code dereferences
  `options` without a check (undefined behaviour when it is null), and
  with an empty hint it simply reads `"/vsimem/temp"`. The model returns
  no image when there are no options, and otherwise appends whatever hint
  is given.
- **Rejecting more than four bands.** The code applies the limit after
  promotion. Since promotion only turns 3 into 4, this is the same as
  "between one and four usable bands" (`PromotedCount` proves it).
  `Accepted` states it that way, and `Read` is proved against the code's
  own order of checks.

## Model

| member | source | states |
|---|---|---|
| `GdalFeatures.Tokens` | src/gdal/GDAL.cpp:88-108 | the tokens the scan loop cuts from a cursor position: none once the cursor is at or past the end, and never more tokens than characters remain |
| `GdalFeatures.FindFirstNotOf` | src/gdal/GDAL.cpp:91 | a found position lies at or after the cursor, inside the string, on a character outside the skip set |
| `GdalFeatures.FindFirstNotOfIsFirst` | src/gdal/GDAL.cpp:91-92 | every character between the cursor and the found position is skipped; npos means only skip characters remain |
| `GdalFeatures.FindFirstOf` | src/gdal/GDAL.cpp:94 | a found delimiter lies at or after the token start, inside the string, on a blank or slash |
| `GdalFeatures.FindFirstOfIsFirst` | src/gdal/GDAL.cpp:94-104 | no delimiter occurs before the found one; npos means none occurs up to the end |
| `GdalFeatures.InsertExtensions` | src/gdal/GDAL.cpp:85-108 | the scan loop terminates, sets `"." + t` to READ_FILENAME for every token `t`, and leaves every other key and value as it was |
| `GdalFeatures.RegisterIsOverwrite` | src/gdal/GDAL.cpp:97-106 | inserting the tokens' keys one after another, in order, leaves the same map as setting all of their keys at once: repeated tokens and their order do not matter |
| `GdalFeatures.TokensShift` | src/gdal/GDAL.cpp:91-99 | the tokens from a cursor depend only on the text from that cursor on |
| `GdalFeatures.TokenShape` | src/gdal/GDAL.cpp:91-105 | no token contains a blank or slash; a non-empty token starts with neither a blank nor a dot; an empty token requires a '/' in the scanned text |
| `GdalFeatures.TokensOfJoin` | src/gdal/GDAL.cpp:88-108 | tokenizing plain extensions joined by blanks or by slashes returns exactly those extensions, in order |
| `GdalFeatures.UsualExtensionLists` | src/gdal/GDAL.cpp:85-108 | `"tif tiff"` yields `tif`, `tiff`; `"jpg/jpeg"` yields `jpg`, `jpeg` |
| `GdalFeatures.SlashAfterBlankYieldsDot` | src/gdal/GDAL.cpp:91-99 | `"png /x"` yields `png`, an empty token and `x`, so the key `"."` is registered |
| `GdalFeatures.Contribution` | src/gdal/GDAL.cpp:80-105 | the keys one driver contributes (its extension keys when it has the raster capability and extension metadata, none otherwise); every such key is a dot, then no blank or slash, and no second dot right after the first |
| `GdalFeatures.GetFeatures` | src/gdal/GDAL.cpp:66-113 | always returns true; afterwards the map is the old map with exactly the keys of all contributing drivers set to READ_FILENAME |
| `GdalFeatures.DriverKeysExactly` | src/gdal/GDAL.cpp:77-110 | a key is registered exactly when some driver of the list contributes it |
| `GdalFeatures.SilentDriversContributeNothing` | src/gdal/GDAL.cpp:80-83 | a list made only of drivers lacking the raster capability or extension metadata registers no key |
| `GdalFeatures.SilentDriverAddsNothing` | src/gdal/GDAL.cpp:80-83 | a silent driver adds nothing wherever it stands: every registered key is contributed by some other driver of the list |
| `GdalFeatures.FeatureKeyShape` | src/gdal/GDAL.cpp:75-105 | every registered key is a dot followed by a token: no blank or slash after the dot, and no second dot right after it |
| `GdalRead.SingletonSet` | src/gdal/GDAL.cpp:141-158 | a proof step used by `Read`, a plain fact about finite sets: a one-element set holding `t` is `{t}`; it is why `*types.begin()` names the only detected type |
| `GdalRead.LastIndexOf` | src/gdal/GDAL.cpp:129 | the position of the last occurrence of a character, with no occurrence after it; none when the character does not occur (the search inside `vsg::filePath`) |
| `GdalRead.FilePath` | src/gdal/GDAL.cpp:129 | `vsg::filePath`: the prefix of the path before its last '/', empty when the path has no '/' |
| `GdalRead.ResolvePath` | src/gdal/GDAL.cpp:129 | a name that starts with `/vsimem/` and has no further '/' is used as given; any other name is replaced by what `findFile` returned |
| `GdalRead.VirtualPathExactly` | src/gdal/GDAL.cpp:129 | the test `filePath(filename) == "/vsimem"` holds exactly for names that start with `/vsimem/` and contain no further '/' |
| `GdalRead.UsableBands` | src/gdal/GDAL.cpp:160-174 | the 1-based numbers of the bands with a defined colour interpretation, in band order; never more of them than there are bands |
| `GdalRead.PromotedCount` | src/gdal/GDAL.cpp:183-193 | the count grows by one only for three components when there are no options or the options set `mapRGBtoRGBAHint`, and otherwise is unchanged; the promoted count passes the more-than-four check exactly when the usable count is at most four, and is non-zero exactly when the usable count is |
| `GdalRead.TempFilename` | src/gdal/GDAL.cpp:249-250 | `"/vsimem/temp"` followed by the hint: the directory `/vsimem`, a '/', `temp`, then the hint unchanged |
| `GdalRead.UsableBandsExactly` | src/gdal/GDAL.cpp:160-174 | usable bands are exactly the bands `1..N` with a defined colour interpretation, strictly ascending, at most N of them |
| `GdalRead.CollectRasterBands` | src/gdal/GDAL.cpp:160-174 | the push_back loop produces exactly the usable band list |
| `GdalRead.CopyRasterBands` | src/gdal/GDAL.cpp:202-205 | component `c` receives usable band `c` for `c` below the usable count; every later component is untouched |
| `GdalRead.Read` | src/gdal/GDAL.cpp:123-221 | there is an image iff the extension is not native, the path resolves, the dataset opens with exactly one data type, 1 to 4 bands are usable and the image is created; the image has that type, 1 to 4 components (4 after RGB promotion), band `c` in component `c`, the default fill elsewhere, the projection only when non-empty, and the geotransform iff GDAL gave one |
| `GdalRead.ReadMemory` | src/gdal/GDAL.cpp:247-260 | reads the block as the path `"/vsimem/temp" + extensionHint`; without options there is no image |
| `GdalRead.TempFileIsVirtual` | src/gdal/GDAL.cpp:249-255 | for a hint without '/', the temporary name lies in `/vsimem`, so the path step (source line 129) uses it unchanged and `findFile` plays no part |
| `GdalRead.ReadResultDeterministic` | src/gdal/GDAL.cpp:123-221 | the read specification decides the whole result: two results meeting it are equal |
| `GdalRead.UndefinedBandRefused` | src/gdal/GDAL.cpp:160-181 | a single band with undefined colour interpretation gives no image |
| `GdalRead.RgbPromotedToRgba` | src/gdal/GDAL.cpp:176-205 | three defined bands with default options give four components: bands 1, 2, 3, then an alpha component left at fill 1 |

## Left out

- GDAL itself is not modelled. That covers `initGDAL`, the driver manager,
  `openSharedDataSet` with its shared-handle cache, `GetRasterBand`,
  `GetColorInterpretation`, `createImage2D`, `copyRasterBandToImage`,
  `assignMetaData`, `GetProjectionRef` and `GetGeoTransform`. These are
  foreign library calls, so their answers are inputs. The model says which
  band goes into which component, not the pixel values that are copied.
- `vsgXchange::dataTypes` is not part of this model. The detected
  data-type set is an input, not derived from the bands.
- `vsg::lowerCaseFileExtension` and `vsg::findFile` are not part of this
  model. Their results are inputs.
- `vsg::filePath` is modelled as the text before the last '/'. The
  Windows backslash separator is not modelled.
- The geotransform's six floating-point values are left out. The model
  records only whether one was attached, that is, whether GDAL returned
  `CE_None`.
- Dataset metadata copied by `assignMetaData` is left out, because it
  comes from GDAL.
- The stream reader `read(std::istream&)` is left out. Its
  `dynamic_cast` and 64 KiB chunk loop are I/O plumbing.
- Registering the block as a GDAL virtual file and closing it
  (`VSIFileFromMemBuffer`, `VSIFCloseL`) is left out, because the calls go
  into GDAL. Only the temporary file name is modelled.
- Logging through `vsg::info`, the pimpl facade's constructor, destructor
  and delegating `read` overloads are left out. They hold no logic.
- Concurrency around shared dataset handles is left out. It is not
  implemented in this file.
- `READ_FILENAME` is bit 0 of `vsg::ReaderWriter::FeatureMask`. That
  header is not part of this model. Only the fact that every inserted
  value is this one constant matters here.
- `GdalRead.ReadMemory`: when `options` is null, the code has undefined
  behaviour. The model states only that there is no image in that case.
