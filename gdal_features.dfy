/** The driver-extension enumeration of `GDAL::getFeatures`: every raster
    driver's extension list is cut into tokens, and each token, with a dot
    in front, is registered as readable by filename. */
module GdalFeatures {

  import opened Wrappers

  /** `vsg::ReaderWriter::FeatureMask`, a bit mask of capabilities. */
  type Mask = nat

  /** `vsg::ReaderWriter::READ_FILENAME`, the only capability this reader
      registers (bit 0 of the mask). */
  const READ_FILENAME: Mask := 1

  const DotPrefix: string := "."

  /** Characters skipped before a token. */
  const SkipChars: set<char> := {' ', '.'}

  /** Characters that end a token. */
  const DelimiterChars: set<char> := {' ', '/'}

  /** A driver as the loop sees it: whether it has the raster capability
      and its extension metadata, absent when the driver declares none. */
  datatype Driver = Driver(hasRaster: bool, extensions: Option<string>)

  /** The `Features` record whose extension map the enumeration updates. */
  class Features {
    var extensionFeatureMap: map<string, Mask>
  }

  // ---------------------------------------------------------------------
  // std::string search primitives (npos is None)
  // ---------------------------------------------------------------------

  /** `s.find_first_not_of(chars, pos)`. */
  function FindFirstNotOf(s: string, chars: set<char>, pos: nat): (r: Option<nat>)
    decreases |s| - pos
    ensures r.Some? ==> pos <= r.value < |s| && s[r.value] !in chars
  {
    if pos >= |s| then None
    else if s[pos] !in chars then Some(pos)
    else FindFirstNotOf(s, chars, pos + 1)
  }

  /** `s.find_first_of(chars, pos)`. */
  function FindFirstOf(s: string, chars: set<char>, pos: nat): (r: Option<nat>)
    decreases |s| - pos
    ensures r.Some? ==> pos <= r.value < |s| && s[r.value] in chars
  {
    if pos >= |s| then None
    else if s[pos] in chars then Some(pos)
    else FindFirstOf(s, chars, pos + 1)
  }

  /** `FindFirstNotOf` finds the first position at or after `pos` whose
      character is not in `chars`, and reports `None` exactly when there is
      none. */
  lemma {:induction false} FindFirstNotOfIsFirst(s: string, chars: set<char>, pos: nat)
    decreases |s| - pos
    ensures FindFirstNotOf(s, chars, pos).Some? ==>
      forall j :: pos <= j < FindFirstNotOf(s, chars, pos).value ==> s[j] in chars
    ensures FindFirstNotOf(s, chars, pos).None? ==> forall j :: pos <= j < |s| ==> s[j] in chars
  {
    if pos < |s| && s[pos] in chars {
      FindFirstNotOfIsFirst(s, chars, pos + 1);
    }
  }

  /** `FindFirstOf` finds the first position at or after `pos` whose
      character is in `chars`, and reports `None` exactly when there is
      none. */
  lemma {:induction false} FindFirstOfIsFirst(s: string, chars: set<char>, pos: nat)
    decreases |s| - pos
    ensures FindFirstOf(s, chars, pos).Some? ==>
      forall j :: pos <= j < FindFirstOf(s, chars, pos).value ==> s[j] !in chars
    ensures FindFirstOf(s, chars, pos).None? ==> forall j :: pos <= j < |s| ==> s[j] !in chars
  {
    if pos < |s| && s[pos] !in chars {
      FindFirstOfIsFirst(s, chars, pos + 1);
    }
  }

  // ---------------------------------------------------------------------
  // Specification of the tokenizer
  // ---------------------------------------------------------------------

  /** The tokens the scanning loop cuts from `s` when its cursor stands at
      `pos`: skip the characters of `SkipChars`, then take everything up to
      the next character of `DelimiterChars` (or to the end), and go on
      just past that delimiter. */
  function Tokens(s: string, pos: nat): (r: seq<string>)
    decreases |s| - pos
    ensures pos >= |s| ==> r == []
    ensures pos < |s| ==> |r| <= |s| - pos
  {
    match FindFirstNotOf(s, SkipChars, pos)
    case None => []
    case Some(start) =>
      match FindFirstOf(s, DelimiterChars, start)
      case None => [s[start..]]
      case Some(d) => [s[start..d]] + Tokens(s, d + 1)
  }

  /** The map keys one extension string contributes. */
  function ExtensionKeys(s: string): set<string>
  {
    KeysOf(Tokens(s, 0))
  }

  /** The keys of a token sequence: each token with a dot in front. */
  function KeysOf(tokens: seq<string>): set<string>
  {
    set t | t in tokens :: DotPrefix + t
  }

  /** The keys a driver contributes: none unless it has both the raster
      capability and extension metadata. Every key it contributes is a dot
      followed by a token. */
  function Contribution(d: Driver): (r: set<string>)
    ensures forall k :: k in r ==> KeyShaped(k)
  {
    if d.hasRaster && d.extensions.Some? then
      ExtensionKeysShaped(d.extensions.value);
      ExtensionKeys(d.extensions.value)
    else {}
  }

  /** The shape of a registered key: a dot, then no blank or slash, and no
      second dot right after the first. */
  predicate KeyShaped(k: string)
  {
    && |k| >= 1 && k[0] == '.'
    && (forall j :: 1 <= j < |k| ==> k[j] != ' ' && k[j] != '/')
    && (|k| > 1 ==> k[1] != '.')
  }

  /** The keys the whole driver list contributes, driver by driver. */
  function DriverKeys(drivers: seq<Driver>): set<string>
  {
    if drivers == [] then {}
    else DriverKeys(drivers[..|drivers| - 1]) + Contribution(drivers[|drivers| - 1])
  }

  /** `after` is `before` with every key of `keys` set to `READ_FILENAME`
      and nothing else changed. */
  ghost predicate UpdatedWith(after: map<string, Mask>, before: map<string, Mask>, keys: set<string>)
  {
    && (forall k :: k in after <==> k in before || k in keys)
    && (forall k :: k in keys ==> k in after && after[k] == READ_FILENAME)
    && (forall k :: k in before && k !in keys ==> k in after && after[k] == before[k])
  }

  /** What registering `tokens` one after another does to the map `m`:
      each token's key, in order, is set to `READ_FILENAME`. */
  function Register(m: map<string, Mask>, tokens: seq<string>): map<string, Mask>
    decreases |tokens|
  {
    if tokens == [] then m
    else Register(m[DotPrefix + tokens[0] := READ_FILENAME], tokens[1..])
  }

  /** `before` with every key of `keys` set to `READ_FILENAME`. */
  function Overwrite(before: map<string, Mask>, keys: set<string>): map<string, Mask>
  {
    before + map k | k in keys :: READ_FILENAME
  }

  lemma OverwriteIsUpdate(before: map<string, Mask>, keys: set<string>)
    ensures UpdatedWith(Overwrite(before, keys), before, keys)
  {
  }

  lemma KeysOfCons(t: string, rest: seq<string>)
    ensures KeysOf([t] + rest) == {DotPrefix + t} + KeysOf(rest)
  {
    assert forall u :: u in [t] + rest <==> u == t || u in rest;
  }

  lemma OverwriteCons(m: map<string, Mask>, k: string, keys: set<string>)
    ensures Overwrite(m[k := READ_FILENAME], keys) == Overwrite(m, {k} + keys)
  {
  }

  /** The tokens when the next one ends at a delimiter `d`. */
  lemma TokensCut(s: string, pos: nat, start: nat, d: nat)
    requires FindFirstNotOf(s, SkipChars, pos) == Some(start)
    requires FindFirstOf(s, DelimiterChars, start) == Some(d)
    ensures Tokens(s, pos) == [s[start..d]] + Tokens(s, d + 1)
  {
  }

  /** No tokens once only skip characters remain. */
  lemma TokensEnd(s: string, pos: nat)
    requires FindFirstNotOf(s, SkipChars, pos) == None
    ensures Tokens(s, pos) == []
  {
  }

  /** The last token, when no delimiter follows it. */
  lemma TokensLast(s: string, pos: nat, start: nat)
    requires FindFirstNotOf(s, SkipChars, pos) == Some(start)
    requires FindFirstOf(s, DelimiterChars, start) == None
    ensures Tokens(s, pos) == [s[start..]]
  {
  }

  lemma RegisterCons(m: map<string, Mask>, t: string, rest: seq<string>)
    ensures Register(m, [t] + rest) == Register(m[DotPrefix + t := READ_FILENAME], rest)
  {
    assert ([t] + rest)[0] == t;
    assert ([t] + rest)[1..] == rest;
  }

  /** Registering one token's key, then the keys of the rest, registers
      the keys of the whole token list. */
  lemma OverwriteTokenThenRest(m: map<string, Mask>, t: string, rest: seq<string>)
    ensures Overwrite(m[DotPrefix + t := READ_FILENAME], KeysOf(rest)) == Overwrite(m, KeysOf([t] + rest))
  {
    KeysOfCons(t, rest);
    OverwriteCons(m, DotPrefix + t, KeysOf(rest));
  }

  /** Registering the tokens one by one sets exactly their keys, whatever
      the order and however often a token repeats. */
  lemma {:induction false} RegisterIsOverwrite(m: map<string, Mask>, tokens: seq<string>)
    decreases |tokens|
    ensures Register(m, tokens) == Overwrite(m, KeysOf(tokens))
  {
    if tokens == [] {
      assert KeysOf([]) == {};
    } else {
      var t, rest := tokens[0], tokens[1..];
      assert tokens == [t] + rest;
      RegisterIsOverwrite(m[DotPrefix + t := READ_FILENAME], rest);
      OverwriteTokenThenRest(m, t, rest);
    }
  }

  // ---------------------------------------------------------------------
  // Properties of the tokens
  // ---------------------------------------------------------------------

  /** Every token is free of delimiters; a non-empty token starts with
      neither a blank nor a dot; an empty token (and so the key ".") only
      arises from a '/' met where a token should start. */
  lemma {:induction false} TokenShape(s: string, pos: nat, t: string)
    requires t in Tokens(s, pos)
    decreases |s| - pos
    ensures forall k :: 0 <= k < |t| ==> t[k] != ' ' && t[k] != '/'
    ensures |t| > 0 ==> t[0] != ' ' && t[0] != '.'
    ensures |t| == 0 ==> exists i :: pos <= i < |s| && s[i] == '/'
  {
    var first := FindFirstNotOf(s, SkipChars, pos);
    if first.None? {
      TokensEnd(s, pos);
    } else {
      var start := first.value;
      var delimiter := FindFirstOf(s, DelimiterChars, start);
      if delimiter.None? {
        TokensLast(s, pos, start);
        CutTokenShape(s, pos, start, |s|);
      } else {
        var d := delimiter.value;
        TokensCut(s, pos, start, d);
        if t == s[start..d] {
          CutTokenShape(s, pos, start, d);
        } else {
          TokenShape(s, d + 1, t);
        }
      }
    }
  }

  /** The shape of the token cut from `start` up to `d`, where `d` is the
      next delimiter or the end of the string. */
  lemma CutTokenShape(s: string, pos: nat, start: nat, d: nat)
    requires FindFirstNotOf(s, SkipChars, pos) == Some(start)
    requires FindFirstOf(s, DelimiterChars, start) == (if d == |s| then None else Some(d))
    ensures start <= d <= |s|
    ensures forall k :: 0 <= k < |s[start..d]| ==> s[start..d][k] != ' ' && s[start..d][k] != '/'
    ensures |s[start..d]| > 0 ==> s[start] != ' ' && s[start] != '.'
    ensures |s[start..d]| == 0 ==> pos <= start < |s| && s[start] == '/'
  {
    FindFirstOfIsFirst(s, DelimiterChars, start);
  }

  /** An extension as a driver normally declares it: non-empty, no leading
      dot, no blank or slash inside. */
  predicate PlainExtension(w: string)
  {
    |w| > 0 && w[0] != '.' && forall k :: 0 <= k < |w| ==> w[k] != ' ' && w[k] != '/'
  }

  /** The extension list written with one separator between extensions. */
  function Join(ws: seq<string>, sep: char): string
  {
    if |ws| == 0 then ""
    else if |ws| == 1 then ws[0]
    else ws[0] + [sep] + Join(ws[1..], sep)
  }

  function ShiftBy(r: Option<nat>, n: nat): Option<nat>
  {
    match r
    case None => None
    case Some(i) => Some(i + n)
  }

  lemma {:induction false} FindFirstNotOfShift(p: string, q: string, chars: set<char>, k: nat)
    decreases |q| - k
    ensures FindFirstNotOf(p + q, chars, |p| + k) == ShiftBy(FindFirstNotOf(q, chars, k), |p|)
  {
    if k < |q| {
      assert (p + q)[|p| + k] == q[k];
      FindFirstNotOfShift(p, q, chars, k + 1);
    }
  }

  lemma {:induction false} FindFirstOfShift(p: string, q: string, chars: set<char>, k: nat)
    decreases |q| - k
    ensures FindFirstOf(p + q, chars, |p| + k) == ShiftBy(FindFirstOf(q, chars, k), |p|)
  {
    if k < |q| {
      assert (p + q)[|p| + k] == q[k];
      FindFirstOfShift(p, q, chars, k + 1);
    }
  }

  lemma ShiftEnd(p: string, q: string, k: nat)
    requires FindFirstNotOf(q, SkipChars, k) == None
    ensures Tokens(p + q, |p| + k) == Tokens(q, k)
  {
    FindFirstNotOfShift(p, q, SkipChars, k);
    TokensEnd(q, k);
    TokensEnd(p + q, |p| + k);
  }

  lemma ShiftLast(p: string, q: string, k: nat, start: nat)
    requires FindFirstNotOf(q, SkipChars, k) == Some(start)
    requires FindFirstOf(q, DelimiterChars, start) == None
    ensures Tokens(p + q, |p| + k) == Tokens(q, k)
  {
    var s := p + q;
    FindFirstNotOfShift(p, q, SkipChars, k);
    FindFirstOfShift(p, q, DelimiterChars, start);
    TokensLast(q, k, start);
    TokensLast(s, |p| + k, |p| + start);
    assert s[|p| + start..] == q[start..];
  }

  lemma ShiftCut(p: string, q: string, k: nat, start: nat, d: nat)
    requires FindFirstNotOf(q, SkipChars, k) == Some(start)
    requires FindFirstOf(q, DelimiterChars, start) == Some(d)
    requires Tokens(p + q, |p| + (d + 1)) == Tokens(q, d + 1)
    ensures Tokens(p + q, |p| + k) == Tokens(q, k)
  {
    var s := p + q;
    FindFirstNotOfShift(p, q, SkipChars, k);
    FindFirstOfShift(p, q, DelimiterChars, start);
    TokensCut(q, k, start, d);
    TokensCut(s, |p| + k, |p| + start, |p| + d);
    assert s[|p| + start..|p| + d] == q[start..d];
    assert |p| + d + 1 == |p| + (d + 1);
  }

  /** The tokenizer never looks behind its cursor. */
  lemma {:induction false} TokensShift(p: string, q: string, k: nat)
    decreases |q| - k
    ensures Tokens(p + q, |p| + k) == Tokens(q, k)
  {
    var first := FindFirstNotOf(q, SkipChars, k);
    if first.None? {
      ShiftEnd(p, q, k);
    } else {
      var start := first.value;
      var delimiter := FindFirstOf(q, DelimiterChars, start);
      if delimiter.None? {
        ShiftLast(p, q, k, start);
      } else {
        TokensShift(p, q, delimiter.value + 1);
        ShiftCut(p, q, k, start, delimiter.value);
      }
    }
  }

  lemma {:induction false} FindFirstOfAt(s: string, chars: set<char>, pos: nat, e: nat)
    requires pos <= e < |s| && s[e] in chars
    requires forall j :: pos <= j < e ==> s[j] !in chars
    decreases e - pos
    ensures FindFirstOf(s, chars, pos) == Some(e)
  {
    if pos < e {
      FindFirstOfAt(s, chars, pos + 1, e);
    }
  }

  lemma {:induction false} FindFirstOfAbsent(s: string, chars: set<char>, pos: nat)
    requires forall j :: pos <= j < |s| ==> s[j] !in chars
    decreases |s| - pos
    ensures FindFirstOf(s, chars, pos) == None
  {
    if pos < |s| {
      FindFirstOfAbsent(s, chars, pos + 1);
    }
  }

  /** A plain extension followed by a separator is one token, and the
      scan goes on just after the separator. */
  lemma FirstTokenOfJoin(w: string, sep: char, rest: string)
    requires sep == ' ' || sep == '/'
    requires PlainExtension(w)
    ensures Tokens(w + [sep] + rest, 0) == [w] + Tokens(w + [sep] + rest, |w| + 1)
  {
    var s := w + [sep] + rest;
    assert s[0] == w[0];
    assert FindFirstNotOf(s, SkipChars, 0) == Some(0);
    assert forall j :: 0 <= j < |w| ==> s[j] == w[j];
    FindFirstOfAt(s, DelimiterChars, 0, |w|);
    TokensCut(s, 0, 0, |w|);
    assert s[0..|w|] == w;
  }

  /** A lone plain extension is one token. */
  lemma SingleToken(w: string)
    requires PlainExtension(w)
    ensures Tokens(w, 0) == [w]
  {
    FindFirstOfAbsent(w, DelimiterChars, 0);
    TokensLast(w, 0, 0);
    assert w[0..] == w;
  }

  /** One more plain extension in front of a separator adds one token in
      front. */
  lemma JoinStep(w: string, sep: char, rest: string, ws: seq<string>)
    requires sep == ' ' || sep == '/'
    requires PlainExtension(w)
    requires Tokens(rest, 0) == ws
    ensures Tokens(w + [sep] + rest, 0) == [w] + ws
  {
    FirstTokenOfJoin(w, sep, rest);
    TokensShift(w + [sep], rest, 0);
  }

  lemma JoinCons(ws: seq<string>, sep: char)
    requires sep == ' ' || sep == '/'
    requires |ws| > 1 && PlainExtension(ws[0])
    requires Tokens(Join(ws[1..], sep), 0) == ws[1..]
    ensures Tokens(Join(ws, sep), 0) == ws
  {
    JoinStep(ws[0], sep, Join(ws[1..], sep), ws[1..]);
    assert Join(ws, sep) == ws[0] + [sep] + Join(ws[1..], sep);
    assert ws == [ws[0]] + ws[1..];
  }

  lemma AllPlainTail(ws: seq<string>)
    requires |ws| > 0
    requires forall i :: 0 <= i < |ws| ==> PlainExtension(ws[i])
    ensures PlainExtension(ws[0])
    ensures forall i :: 0 <= i < |ws[1..]| ==> PlainExtension(ws[1..][i])
  {
    assert forall i :: 0 <= i < |ws[1..]| ==> ws[1..][i] == ws[i + 1];
  }

  /** Tokenizing a list of plain extensions joined by blanks or slashes
      gives back exactly that list. */
  lemma {:induction false} TokensOfJoin(ws: seq<string>, sep: char)
    requires sep == ' ' || sep == '/'
    requires forall i :: 0 <= i < |ws| ==> PlainExtension(ws[i])
    ensures Tokens(Join(ws, sep), 0) == ws
  {
    if |ws| == 0 {
      TokensEnd("", 0);
    } else if |ws| == 1 {
      AllPlainTail(ws);
      SingleToken(ws[0]);
    } else {
      AllPlainTail(ws);
      TokensOfJoin(ws[1..], sep);
      JoinCons(ws, sep);
    }
  }

  /** Every key in `DriverKeys` comes from some driver of the list. */
  lemma {:induction false} DriverKeysSound(drivers: seq<Driver>, k: string)
    requires k in DriverKeys(drivers)
    ensures exists i :: 0 <= i < |drivers| && k in Contribution(drivers[i])
  {
    var n := |drivers| - 1;
    var front := drivers[..n];
    if k in DriverKeys(front) {
      DriverKeysSound(front, k);
      var i :| 0 <= i < |front| && k in Contribution(front[i]);
      assert drivers[i] == front[i];
    } else {
      assert k in Contribution(drivers[n]);
    }
  }

  /** Every key a driver of the list contributes is in `DriverKeys`. */
  lemma {:induction false} DriverKeysComplete(drivers: seq<Driver>, i: nat, k: string)
    requires i < |drivers| && k in Contribution(drivers[i])
    ensures k in DriverKeys(drivers)
  {
    var n := |drivers| - 1;
    if i < n {
      var front := drivers[..n];
      assert front[i] == drivers[i];
      DriverKeysComplete(front, i, k);
    }
  }

  /** Membership in `DriverKeys`: a key is there exactly when some driver
      of the list contributes it. */
  lemma DriverKeysExactly(drivers: seq<Driver>, k: string)
    ensures k in DriverKeys(drivers) <==> exists i :: 0 <= i < |drivers| && k in Contribution(drivers[i])
  {
    if k in DriverKeys(drivers) {
      DriverKeysSound(drivers, k);
    }
    if exists i :: 0 <= i < |drivers| && k in Contribution(drivers[i]) {
      var i :| 0 <= i < |drivers| && k in Contribution(drivers[i]);
      DriverKeysComplete(drivers, i, k);
    }
  }

  /** The shape of a key made from a token. */
  lemma TokenKeyShape(s: string, t: string)
    requires t in Tokens(s, 0)
    ensures |DotPrefix + t| >= 1 && (DotPrefix + t)[0] == '.'
    ensures forall j :: 1 <= j < |DotPrefix + t| ==> (DotPrefix + t)[j] != ' ' && (DotPrefix + t)[j] != '/'
    ensures |DotPrefix + t| > 1 ==> (DotPrefix + t)[1] != '.'
  {
    TokenShape(s, 0, t);
    assert forall j :: 1 <= j < |DotPrefix + t| ==> (DotPrefix + t)[j] == t[j - 1];
  }

  /** Every key an extension string yields has the shape of a key. */
  lemma ExtensionKeysShaped(s: string)
    ensures forall k :: k in ExtensionKeys(s) ==> KeyShaped(k)
  {
    forall k | k in ExtensionKeys(s)
      ensures KeyShaped(k)
    {
      var t :| t in Tokens(s, 0) && k == DotPrefix + t;
      TokenKeyShape(s, t);
    }
  }

  /** Every key the enumeration registers is a dot followed by a token:
      no blank or slash after the dot, and, when there is more than the
      dot, neither a blank nor a second dot right after it. */
  lemma FeatureKeyShape(drivers: seq<Driver>, k: string)
    requires k in DriverKeys(drivers)
    ensures |k| >= 1 && k[0] == '.'
    ensures forall j :: 1 <= j < |k| ==> k[j] != ' ' && k[j] != '/'
    ensures |k| > 1 ==> k[1] != '.'
  {
    DriverKeysSound(drivers, k);
    var i :| 0 <= i < |drivers| && k in Contribution(drivers[i]);
    assert KeyShaped(k);
  }

  /** A list made only of drivers without the raster capability or
      without extension metadata registers nothing. */
  lemma {:induction false} SilentDriversContributeNothing(drivers: seq<Driver>)
    requires forall i :: 0 <= i < |drivers| ==> !drivers[i].hasRaster || drivers[i].extensions.None?
    ensures DriverKeys(drivers) == {}
  {
    if drivers != [] {
      SilentDriversContributeNothing(drivers[..|drivers| - 1]);
    }
  }

  /** A silent driver adds nothing wherever it stands: any key in the
      list's keys is contributed by some other driver. */
  lemma SilentDriverAddsNothing(drivers: seq<Driver>, i: nat, k: string)
    requires i < |drivers| && (!drivers[i].hasRaster || drivers[i].extensions.None?)
    requires k in DriverKeys(drivers)
    ensures exists j :: 0 <= j < |drivers| && j != i && k in Contribution(drivers[j])
  {
    DriverKeysSound(drivers, k);
  }

  /** The usual declarations: blank- and slash-separated lists. */
  lemma UsualExtensionLists()
    ensures Tokens("tif tiff", 0) == ["tif", "tiff"]
    ensures Tokens("jpg/jpeg", 0) == ["jpg", "jpeg"]
  {
    TokensOfJoin(["tif", "tiff"], ' ');
    assert Join(["tif", "tiff"], ' ') == "tif tiff";
    TokensOfJoin(["jpg", "jpeg"], '/');
    assert Join(["jpg", "jpeg"], '/') == "jpg/jpeg";
  }

  /** A '/' right after a blank yields an empty token, and so the key ".". */
  lemma SlashAfterBlankYieldsDot()
    ensures Tokens("png /x", 0) == ["png", "", "x"]
    ensures "." in ExtensionKeys("png /x")
  {
    var s := "png /x";
    FindFirstOfAt(s, DelimiterChars, 0, 3);
    TokensCut(s, 0, 0, 3);
    FindFirstOfAt(s, DelimiterChars, 4, 4);
    TokensCut(s, 4, 4, 4);
    FindFirstOfAbsent(s, DelimiterChars, 5);
    TokensLast(s, 5, 5);
    assert s[5..] == "x";
    assert s[0..3] == "png";
    assert s[4..4] == "";
    assert DotPrefix + "" == ".";
  }

  // ---------------------------------------------------------------------
  // The operations
  // ---------------------------------------------------------------------

  /** The `for(;;)` loop over one driver's extension string: it registers
      `"." + token` for every token of `extensions`, and leaves every other
      key of the map as it was. The cursor `start` strictly grows on every
      iteration that does not break, which is the termination measure. */
  method InsertExtensions(extensions: string, before: map<string, Mask>)
    returns (after: map<string, Mask>)
    ensures UpdatedWith(after, before, ExtensionKeys(extensions))
  {
    after := before;
    var start: nat := 0;
    while true
      invariant start <= |extensions|
      invariant Register(after, Tokens(extensions, start)) == Register(before, Tokens(extensions, 0))
      decreases |extensions| - start
    {
      var first := FindFirstNotOf(extensions, SkipChars, start);
      if first.None? {
        TokensEnd(extensions, start);
        break;
      }
      ghost var pos := start;
      start := first.value;
      var delimiter := FindFirstOf(extensions, DelimiterChars, start);
      if delimiter.Some? {
        var ext := extensions[start..delimiter.value];
        TokensCut(extensions, pos, start, delimiter.value);
        RegisterCons(after, ext, Tokens(extensions, delimiter.value + 1));
        after := after[DotPrefix + ext := READ_FILENAME];
        start := delimiter.value + 1;
        if start == |extensions| {
          TokensEnd(extensions, start);
          break;
        }
      } else {
        var ext := extensions[start..];
        TokensLast(extensions, pos, start);
        RegisterCons(after, ext, []);
        assert [ext] + [] == [ext];
        after := after[DotPrefix + ext := READ_FILENAME];
        break;
      }
    }
    RegisterIsOverwrite(before, Tokens(extensions, 0));
    OverwriteIsUpdate(before, ExtensionKeys(extensions));
  }

  /** `GDAL::getFeatures`: walks the driver list and registers the
      extensions of every raster driver that declares some. It always
      reports success. */
  method GetFeatures(drivers: seq<Driver>, features: Features) returns (ok: bool)
    modifies features
    ensures ok
    ensures UpdatedWith(features.extensionFeatureMap, old(features.extensionFeatureMap), DriverKeys(drivers))
  {
    var i := 0;
    while i < |drivers|
      invariant i <= |drivers|
      invariant UpdatedWith(features.extensionFeatureMap, old(features.extensionFeatureMap), DriverKeys(drivers[..i]))
    {
      var driver := drivers[i];
      assert drivers[..i + 1][..i] == drivers[..i];
      if driver.hasRaster && driver.extensions.Some? {
        features.extensionFeatureMap := InsertExtensions(driver.extensions.value, features.extensionFeatureMap);
      }
      i := i + 1;
    }
    assert drivers[..i] == drivers;
    ok := true;
  }
}
