/** The decision logic of `GDAL::Implementation::read`: which files are
    refused up front, how the path is resolved, which raster bands are
    used, how many components the image gets, and which component is
    filled from which band. Every answer of GDAL, of `vsg::findFile` and of
    `createImage2D` is an input. */
module GdalRead {

  import opened Wrappers

  /** A `GDALDataType` code. */
  type DataType = nat

  /** A band's `GDALColorInterp`; only `GCI_Undefined` matters here. */
  datatype ColorInterp = Undefined | Interpreted(code: nat)

  datatype Band = Band(colorInterp: ColorInterp)

  /** What the opened dataset answers: the data types detected across its
      bands (`vsgXchange::dataTypes`), its bands in order `1..N`, its size,
      its projection string (absent for a null pointer) and whether
      `GetGeoTransform` returned `CE_None`. */
  datatype Dataset = Dataset(
    dataTypes: set<DataType>,
    bands: seq<Band>,
    width: int,
    height: int,
    projectionRef: Option<string>,
    geoTransformOk: bool)

  /** The reader options this code consults. */
  datatype Options = Options(mapRGBtoRGBAHint: bool, extensionHint: string)

  /** A component slot of the image: copied from a (1-based) band, or left
      at the image's default fill value for that component. */
  datatype Channel = FromBand(band: nat) | Fill(value: real)

  /** The image `read` returns, described by what it decides. */
  datatype Image = Image(
    width: int,
    height: int,
    numComponents: nat,
    dataType: DataType,
    channels: seq<Channel>,
    projectionRef: Option<string>,
    hasGeoTransform: bool)

  /** Extensions of the scene graph's own formats, never handed to GDAL. */
  const NativeExtensions: set<string> := {".vsgb", ".vsgt", ".osgb", ".osgt", ".osg", ".tile"}

  /** The directory GDAL uses for its in-memory files. */
  const VirtualDirectory: string := "/vsimem"

  /** The default fill given to `createImage2D`: (0, 0, 0, 1). */
  const DefaultFill: seq<real> := [0.0, 0.0, 0.0, 1.0]

  // ---------------------------------------------------------------------
  // Path handling
  // ---------------------------------------------------------------------

  function LastIndexOf(s: string, c: char): (r: Option<nat>)
    ensures r.Some? ==> r.value < |s| && s[r.value] == c
    ensures r.Some? ==> forall j :: r.value < j < |s| ==> s[j] != c
    ensures r.None? ==> forall j :: 0 <= j < |s| ==> s[j] != c
  {
    if s == [] then None
    else if s[|s| - 1] == c then Some(|s| - 1)
    else LastIndexOf(s[..|s| - 1], c)
  }

  /** `vsg::filePath`: everything before the last '/', or nothing. */
  function FilePath(path: string): (r: string)
    ensures |r| <= |path| && r == path[..|r|]
    ensures '/' !in path ==> r == ""
    ensures '/' in path ==> |r| < |path| && path[|r|] == '/' && forall j :: |r| < j < |path| ==> path[j] != '/'
  {
    match LastIndexOf(path, '/')
    case None => ""
    case Some(i) => path[..i]
  }

  /** The path `read` goes on with: an in-memory path as it is, any other
      path as `vsg::findFile` resolved it (`found`, empty when not found). */
  function ResolvePath(filename: string, found: string): (r: string)
    ensures DirectlyInVirtualDirectory(filename) ==> r == filename
    ensures !DirectlyInVirtualDirectory(filename) ==> r == found
  {
    VirtualPathExactly(filename);
    if FilePath(filename) == VirtualDirectory then filename else found
  }

  /** A name directly inside "/vsimem": it starts with "/vsimem/" and has
      no further '/'. */
  predicate DirectlyInVirtualDirectory(f: string)
  {
    |f| >= 8 && f[..8] == "/vsimem/" && forall j :: 8 <= j < |f| ==> f[j] != '/'
  }

  /** `vsg::filePath` gives "/vsimem" exactly for names directly inside it. */
  lemma VirtualPathExactly(f: string)
    ensures FilePath(f) == VirtualDirectory <==> DirectlyInVirtualDirectory(f)
  {
    var r := FilePath(f);
    if r == VirtualDirectory {
      assert '/' in f;
      assert |r| == 7 && r == f[..7] && f[7] == '/';
      assert f[..8] == f[..7] + [f[7]];
    }
    if DirectlyInVirtualDirectory(f) {
      assert f[7] == '/';
      assert '/' in f;
      assert |r| == 7;
      assert r == f[..7] == f[..8][..7];
    }
  }

  /** The name under which a memory block is registered with GDAL. */
  function TempFilename(extensionHint: string): (r: string)
    ensures |r| == |VirtualDirectory| + 5 + |extensionHint|
    ensures r[..|VirtualDirectory|] == VirtualDirectory && r[|VirtualDirectory|] == '/'
    ensures r[|VirtualDirectory| + 1..|VirtualDirectory| + 5] == "temp"
    ensures r[|VirtualDirectory| + 5..] == extensionHint
  {
    "/vsimem/temp" + extensionHint
  }

  // ---------------------------------------------------------------------
  // Band selection
  // ---------------------------------------------------------------------

  /** The 1-based numbers of the bands whose colour interpretation is
      defined, in band order. */
  function UsableBands(bands: seq<Band>): (r: seq<nat>)
    ensures |r| <= |bands|
  {
    if bands == [] then []
    else
      var n := |bands|;
      UsableBands(bands[..n - 1]) + (if bands[n - 1].colorInterp != Undefined then [n] else [])
  }

  /** Every usable band number names a band of the dataset. */
  lemma {:induction false} UsableBandsInRange(bands: seq<Band>)
    ensures forall a :: 0 <= a < |UsableBands(bands)| ==> 1 <= UsableBands(bands)[a] <= |bands|
  {
    if bands != [] {
      UsableBandsInRange(bands[..|bands| - 1]);
    }
  }

  /** A band number is usable exactly when its band's colour
      interpretation is defined. */
  lemma {:induction false} UsableBandsMembership(bands: seq<Band>)
    ensures forall j: nat :: j in UsableBands(bands) <==> 1 <= j <= |bands| && bands[j - 1].colorInterp != Undefined
  {
    if bands != [] {
      var n := |bands|;
      var front := bands[..n - 1];
      UsableBandsMembership(front);
      assert forall j :: 0 <= j < n - 1 ==> bands[j] == front[j];
    }
  }

  /** The usable band numbers ascend strictly. */
  lemma {:induction false} UsableBandsAscending(bands: seq<Band>)
    ensures forall a, b :: 0 <= a < b < |UsableBands(bands)| ==> UsableBands(bands)[a] < UsableBands(bands)[b]
  {
    if bands != [] {
      var front := bands[..|bands| - 1];
      UsableBandsAscending(front);
      UsableBandsInRange(front);
    }
  }

  /** The usable bands are exactly the bands with a defined colour
      interpretation, each once, in ascending order. */
  lemma UsableBandsExactly(bands: seq<Band>)
    ensures |UsableBands(bands)| <= |bands|
    ensures forall j: nat :: j in UsableBands(bands) <==> 1 <= j <= |bands| && bands[j - 1].colorInterp != Undefined
    ensures forall a, b :: 0 <= a < b < |UsableBands(bands)| ==> UsableBands(bands)[a] < UsableBands(bands)[b]
  {
    UsableBandsMembership(bands);
    UsableBandsAscending(bands);
  }

  /** The `push_back` loop over bands `1..GetRasterCount()`. */
  method CollectRasterBands(bands: seq<Band>) returns (rasterBands: seq<nat>)
    ensures rasterBands == UsableBands(bands)
  {
    rasterBands := [];
    var i := 1;
    while i <= |bands|
      invariant 1 <= i <= |bands| + 1
      invariant rasterBands == UsableBands(bands[..i - 1])
    {
      var classification := bands[i - 1].colorInterp;
      assert bands[..i][..i - 1] == bands[..i - 1];
      if classification != Undefined {
        rasterBands := rasterBands + [i];
      }
      i := i + 1;
    }
    assert bands[..i - 1] == bands;
  }

  /** The copy loop: component `c` receives usable band `c`, for every `c`
      below the number of usable bands; the other slots keep their fill. */
  method CopyRasterBands(channels: array<Channel>, rasterBands: seq<nat>)
    requires |rasterBands| <= channels.Length
    modifies channels
    ensures forall c :: 0 <= c < |rasterBands| ==> channels[c] == FromBand(rasterBands[c])
    ensures forall c :: |rasterBands| <= c < channels.Length ==> channels[c] == old(channels[c])
  {
    var component := 0;
    while component < |rasterBands|
      invariant 0 <= component <= |rasterBands|
      invariant forall c :: 0 <= c < component ==> channels[c] == FromBand(rasterBands[c])
      invariant forall c :: component <= c < channels.Length ==> channels[c] == old(channels[c])
    {
      channels[component] := FromBand(rasterBands[component]);
      component := component + 1;
    }
  }

  // ---------------------------------------------------------------------
  // Specification of the outcome
  // ---------------------------------------------------------------------

  /** The component count after RGB to RGBA promotion, which happens
      without options or when the options ask for it. */
  function PromotedCount(usable: nat, options: Option<Options>): (r: nat)
    ensures usable <= r <= usable + 1
    ensures r != usable <==> usable == 3 && (options.None? || options.value.mapRGBtoRGBAHint)
    ensures r <= 4 <==> usable <= 4
    ensures r >= 1 <==> usable >= 1
  {
    var hint := options.None? || options.value.mapRGBtoRGBAHint;
    if hint && usable == 3 then 4 else usable
  }

  /** When `read` produces an image: not a native extension, a resolved
      path, an opened dataset with exactly one data type, between one and
      four usable bands, and an image that could be created. */
  ghost predicate Accepted(ext: string, resolved: string, openResult: Option<Dataset>, imageCreated: bool)
  {
    && ext !in NativeExtensions
    && resolved != ""
    && openResult.Some?
    && |openResult.value.dataTypes| == 1
    && 1 <= |UsableBands(openResult.value.bands)| <= 4
    && imageCreated
  }

  /** The image built from dataset `ds`: its single data type, its size,
      one component per usable band (a fourth, filled one after RGB
      promotion), usable band `c` in component `c`, the projection when it
      is a non-empty string, and the geotransform when GDAL gave one. */
  ghost predicate BuiltFrom(img: Image, ds: Dataset, options: Option<Options>)
  {
    var u := UsableBands(ds.bands);
    && ds.dataTypes == {img.dataType}
    && img.width == ds.width && img.height == ds.height
    && 1 <= img.numComponents <= 4
    && img.numComponents == PromotedCount(|u|, options)
    && |img.channels| == img.numComponents
    && (forall c :: 0 <= c < |u| ==> img.channels[c] == FromBand(u[c]))
    && (forall c :: |u| <= c < img.numComponents ==> img.channels[c] == Fill(DefaultFill[c]))
    && img.projectionRef == (if ds.projectionRef.Some? && ds.projectionRef.value != "" then ds.projectionRef else None)
    && img.hasGeoTransform == ds.geoTransformOk
  }

  /** `result` is what `read` returns for these answers of its helpers. */
  ghost predicate IsReadResult(result: Option<Image>, ext: string, resolved: string, options: Option<Options>,
                               openResult: Option<Dataset>, imageCreated: bool)
  {
    && (result.Some? <==> Accepted(ext, resolved, openResult, imageCreated))
    && (result.Some? ==> BuiltFrom(result.value, openResult.value, options))
  }

  lemma SingletonSet(types: set<DataType>, t: DataType)
    requires |types| == 1 && t in types
    ensures types == {t}
  {
    assert |types - {t}| == 0;
  }

  // ---------------------------------------------------------------------
  // The entry points
  // ---------------------------------------------------------------------

  /** `GDAL::Implementation::read(const vsg::Path&, options)`. `ext` is the
      lower-cased extension of `filename`, `found` what `vsg::findFile`
      returns for it, `openResult` what opening the resolved path gives, and
      `imageCreated` whether `createImage2D` returned an image. The body
      takes the code's steps in the code's order, so the promotion test is
      written out here as the code writes it; `PromotedCount` is what it
      is proved against. */
  method Read(filename: string, ext: string, found: string, options: Option<Options>,
              openResult: Option<Dataset>, imageCreated: bool)
    returns (result: Option<Image>)
    ensures IsReadResult(result, ext, ResolvePath(filename, found), options, openResult, imageCreated)
  {
    if ext == ".vsgb" || ext == ".vsgt" || ext == ".osgb" || ext == ".osgt" || ext == ".osg" || ext == ".tile" {
      return None;
    }
    var filenameToUse := ResolvePath(filename, found);
    if filenameToUse == "" {
      return None;
    }
    if openResult.None? {
      return None;
    }
    var dataset := openResult.value;
    var types := dataset.dataTypes;
    if |types| > 1 {
      return None;
    }
    if |types| == 0 {
      return None;
    }
    var dataType :| dataType in types;
    SingletonSet(types, dataType);

    var rasterBands := CollectRasterBands(dataset.bands);
    var numComponents := |rasterBands|;
    if numComponents == 0 {
      return None;
    }
    var mapRGBtoRGBAHint := options.None? || options.value.mapRGBtoRGBAHint;
    if mapRGBtoRGBAHint && numComponents == 3 {
      numComponents := 4;
    }
    if numComponents > 4 {
      return None;
    }
    if !imageCreated {
      return None;
    }

    var channels := new Channel[numComponents](c requires 0 <= c < numComponents => Fill(DefaultFill[c]));
    CopyRasterBands(channels, rasterBands);

    var projectionRef := if dataset.projectionRef.Some? && |dataset.projectionRef.value| > 0
                         then dataset.projectionRef else None;
    result := Some(Image(dataset.width, dataset.height, numComponents, dataType, channels[..],
                         projectionRef, dataset.geoTransformOk));
  }

  /** `GDAL::Implementation::read(const uint8_t*, size_t, options)`: the
      memory block is registered as `"/vsimem/temp" + extensionHint` and
      read through the path entry point. The block itself only reaches the
      model through `openResult`. Without options there is no extension hint
      and the read fails. */
  method ReadMemory(options: Option<Options>, ext: string, found: string,
                    openResult: Option<Dataset>, imageCreated: bool)
    returns (result: Option<Image>)
    ensures options.None? ==> result == None
    ensures options.Some? ==>
      IsReadResult(result, ext, ResolvePath(TempFilename(options.value.extensionHint), found), options, openResult, imageCreated)
  {
    if options.None? {
      return None;
    }
    var tempFilename := TempFilename(options.value.extensionHint);
    result := Read(tempFilename, ext, found, options, openResult, imageCreated);
  }

  // ---------------------------------------------------------------------
  // Properties
  // ---------------------------------------------------------------------

  /** With a hint free of '/', the temporary file lies directly in
      "/vsimem", so it is used as it is and `vsg::findFile` is never
      consulted. */
  lemma TempFileIsVirtual(extensionHint: string, found: string)
    requires forall k :: 0 <= k < |extensionHint| ==> extensionHint[k] != '/'
    ensures FilePath(TempFilename(extensionHint)) == VirtualDirectory
    ensures ResolvePath(TempFilename(extensionHint), found) == TempFilename(extensionHint)
  {
    var s := TempFilename(extensionHint);
    assert s[7] == '/';
    assert forall j :: 7 < j < |s| ==> s[j] != '/' by {
      forall j | 7 < j < |s|
        ensures s[j] != '/'
      {
        if j >= 12 {
          assert s[j] == extensionHint[j - 12];
        }
      }
    }
    var r := LastIndexOf(s, '/');
    assert r == Some(7);
    assert s[..7] == VirtualDirectory;
  }

  /** The outcome is fully determined: two results that both satisfy the
      specification are equal. */
  lemma ReadResultDeterministic(r1: Option<Image>, r2: Option<Image>, ext: string, resolved: string,
                                options: Option<Options>, openResult: Option<Dataset>, imageCreated: bool)
    requires IsReadResult(r1, ext, resolved, options, openResult, imageCreated)
    requires IsReadResult(r2, ext, resolved, options, openResult, imageCreated)
    ensures r1 == r2
  {
    if r1.Some? {
      var a, b := r1.value, r2.value;
      assert a.dataType == b.dataType by {
        assert a.dataType in {b.dataType};
      }
      assert a.channels == b.channels;
    }
  }

  /** A single band of undefined colour interpretation is refused. */
  lemma UndefinedBandRefused(result: Option<Image>, resolved: string, options: Option<Options>,
                             ds: Dataset, imageCreated: bool)
    requires ds.bands == [Band(Undefined)]
    requires IsReadResult(result, ".tif", resolved, options, Some(ds), imageCreated)
    ensures result == None
  {
    assert UsableBands(ds.bands) == [];
  }

  /** Three red, green and blue bands with the default options become a
      four-component image whose alpha is the fill value 1. */
  lemma RgbPromotedToRgba(result: Option<Image>, resolved: string, ds: Dataset)
    requires |ds.dataTypes| == 1 && resolved != ""
    requires ds.bands == [Band(Interpreted(3)), Band(Interpreted(4)), Band(Interpreted(5))]
    requires IsReadResult(result, ".png", resolved, None, Some(ds), true)
    ensures result.Some? && result.value.numComponents == 4
    ensures result.value.channels == [FromBand(1), FromBand(2), FromBand(3), Fill(1.0)]
  {
    var u := UsableBands(ds.bands);
    var b := ds.bands;
    assert b[..2][..1] == b[..1] && b[..1][..0] == [];
    assert UsableBands(b[..1]) == [1];
    assert UsableBands(b[..2]) == [1, 2];
    assert u == [1, 2, 3];
    var img := result.value;
    assert img.channels[3] == Fill(DefaultFill[3]);
  }
}
