/**
 * gov.nasa.worldwind.util.DataConfigurationUtils: reading data set
 * parameters out of an attribute-value list, choosing an image format by
 * preference, and filling a parameter list from a level set without
 * overwriting what it already holds.
 */
module DataConfigurations {
  import opened JavaLang

  /** The AVKey names the helpers read and write. */
  datatype Key =
    | DatasetName | DataCacheName | DisplayName | LayerNames | Service | ExpiryTime | FormatSuffix
    | NumLevels | NumEmptyLevels | InactiveLevels | SectorKey | SectorResolutionLimits
    | TileOrigin | TileWidth | TileHeight | LevelZeroTileDelta

  /**
   * A value held in a parameter list: a string, a number, or any other
   * object, given by its identity and the text its toString returns.
   */
  datatype Value = Text(s: string) | Number(n: int) | Boxed(obj: nat, text: string)

  /** The decimal digits of n, as Integer.toString writes a non-negative int. */
  function Decimal(n: nat): (r: string)
    decreases n
    ensures |r| > 0 && ',' !in r
  {
    var d := (48 + n % 10) as char;
    if n < 10 then [d] else Decimal(n / 10) + [d]
  }

  /** What toString returns for a value; a negative number gets a minus sign. */
  function ToText(v: Value): string {
    match v
    case Text(s) => s
    case Number(n) => if n < 0 then "-" + Decimal(-n) else Decimal(n)
    case Boxed(_, text) => text
  }

  /** getStringValue on a list holding values: the text of the value under k, or null. */
  function StringValueOf(values: map<Key, Value>, k: Key): Option<string> {
    if k in values then Some(ToText(values[k])) else None
  }

  /** A string that is neither null nor empty. */
  predicate HasText(s: Option<string>) {
    s.Some? && |s.value| > 0
  }

  /** An attribute-value list (AVListImpl): values under keys, changed in place. */
  class AVList {
    var values: map<Key, Value>

    constructor ()
      ensures values == map[]
    {
      values := map[];
    }

    function GetStringValue(k: Key): Option<string>
      reads this
    {
      StringValueOf(values, k)
    }

    /** Stores c under k when k counts as absent and there is a value to store. */
    method SetIfAbsent(k: Key, c: Option<Value>)
      modifies this
      ensures values == Fill(old(values), k, c)
    {
      if Absent(values, k) {
        if c.Some? {
          values := values[k := c.value];
        }
      }
    }
  }

  /** The file separator of the Android platform. */
  const Separator: char := '/'

  /** The name the configuration file is given: the data set name, else the display name, else a default. */
  function ConfigName(values: map<Key, Value>): (name: string)
    ensures |name| > 0
    ensures HasText(StringValueOf(values, DatasetName)) ==> name == StringValueOf(values, DatasetName).value
    ensures !HasText(StringValueOf(values, DatasetName)) && HasText(StringValueOf(values, DisplayName)) ==>
              name == StringValueOf(values, DisplayName).value
    ensures !HasText(StringValueOf(values, DatasetName)) && !HasText(StringValueOf(values, DisplayName)) ==>
              name == "DataConfiguration"
  {
    if HasText(StringValueOf(values, DatasetName)) then StringValueOf(values, DatasetName).value
    else if HasText(StringValueOf(values, DisplayName)) then StringValueOf(values, DisplayName).value
    else "DataConfiguration"
  }

  /**
   * getDataConfigFilename: the cache path, the separator, the sanitised
   * configuration name and the suffix; null when there is no cache path. A
   * null list is rejected. The sanitising WWIO.replaceIllegalFileNameCharacters
   * is a parameter.
   */
  method GetDataConfigFilename(params: AVList?, suffix: Option<string>, sanitize: string -> string)
    returns (r: Outcome<Option<string>>)
    ensures params == null ==> r == Throw(IllegalArgument)
    ensures params != null && !HasText(params.GetStringValue(DataCacheName)) ==> r == Return(None)
    ensures params != null && HasText(params.GetStringValue(DataCacheName)) ==>
              r.Return? && r.value.Some? &&
              r.value.value == params.GetStringValue(DataCacheName).value + [Separator]
                               + sanitize(ConfigName(params.values)) + (if suffix.Some? then suffix.value else "")
  {
    if params == null {
      return Throw(IllegalArgument);
    }
    var path := params.GetStringValue(DataCacheName);
    if path.None? || |path.value| == 0 {
      return Return(None);
    }
    var filename := params.GetStringValue(DatasetName);
    if filename.None? || |filename.value| == 0 {
      filename := params.GetStringValue(DisplayName);
    }
    if filename.None? || |filename.value| == 0 {
      filename := Some("DataConfiguration");
    }
    var name := sanitize(filename.value);
    return Return(Some(path.value + [Separator] + name + (if suffix.Some? then suffix.value else "")));
  }

  /** s cut at every comma, empty pieces included: one more piece than s has commas. */
  function Pieces(s: string): (r: seq<string>)
    decreases |s|
    ensures |r| >= 1
  {
    if |s| == 0 then [""]
    else
      var p := Pieces(s[1..]);
      if s[0] == ',' then [""] + p else [[s[0]] + p[0]] + p[1..]
  }

  /** xs without its trailing empty strings. */
  function TrimTrailingEmpty(xs: seq<string>): (r: seq<string>)
    decreases |xs|
    ensures |r| <= |xs| && r == xs[..|r|]
    ensures |r| > 0 ==> r[|r| - 1] != ""
    ensures forall i :: |r| <= i < |xs| ==> xs[i] == ""
  {
    if |xs| == 0 then []
    else if xs[|xs| - 1] == "" then TrimTrailingEmpty(xs[..|xs| - 1])
    else xs
  }

  /** String.split(","): the pieces of s between commas, trailing empty pieces dropped. */
  function Split(s: string): seq<string> {
    TrimTrailingEmpty(Pieces(s))
  }

  /** The strings of xs joined with commas between them. */
  function Join(xs: seq<string>): string
    decreases |xs|
  {
    if |xs| == 0 then ""
    else if |xs| == 1 then xs[0]
    else xs[0] + "," + Join(xs[1..])
  }

  /** A string without a comma is a single piece. */
  lemma {:induction false} PiecesOfPiece(a: string)
    requires ',' !in a
    ensures Pieces(a) == [a]
    decreases |a|
  {
    if |a| > 0 {
      PiecesOfPiece(a[1..]);
      assert [a[0]] + a[1..] == a;
    }
  }

  /** A comma-free piece followed by a comma is the first piece. */
  lemma {:induction false} PiecesOfJoined(a: string, rest: string)
    requires ',' !in a
    ensures Pieces(a + "," + rest) == [a] + Pieces(rest)
    decreases |a|
  {
    var s := a + "," + rest;
    if |a| == 0 {
      assert s[1..] == rest;
    } else {
      assert s[1..] == a[1..] + "," + rest;
      PiecesOfJoined(a[1..], rest);
      assert [a[0]] + a[1..] == a;
    }
  }

  /** Cutting comma-joined comma-free strings at the commas gives them back. */
  lemma {:induction false} PiecesOfJoin(xs: seq<string>)
    requires |xs| > 0
    requires forall i :: 0 <= i < |xs| ==> ',' !in xs[i]
    ensures Pieces(Join(xs)) == xs
    decreases |xs|
  {
    if |xs| == 1 {
      PiecesOfPiece(xs[0]);
    } else {
      PiecesOfJoin(xs[1..]);
      PiecesOfJoined(xs[0], Join(xs[1..]));
    }
  }

  /** split(",") undoes joining with commas when no part holds a comma and the last is not empty. */
  lemma SplitJoin(xs: seq<string>)
    requires |xs| > 0 && xs[|xs| - 1] != ""
    requires forall i :: 0 <= i < |xs| ==> ',' !in xs[i]
    ensures Split(Join(xs)) == xs
  {
    PiecesOfJoin(xs);
  }

  /**
   * getOGCLayerNames: the layer names, split at commas; null when the list
   * has no layer names or they are empty. A null list is rejected.
   */
  method GetOGCLayerNames(params: AVList?) returns (r: Outcome<Option<seq<string>>>)
    ensures params == null ==> r == Throw(IllegalArgument)
    ensures params != null && !HasText(params.GetStringValue(LayerNames)) ==> r == Return(None)
    ensures params != null && HasText(params.GetStringValue(LayerNames)) ==>
              r == Return(Some(Split(params.GetStringValue(LayerNames).value)))
  {
    if params == null {
      return Throw(IllegalArgument);
    }
    var s := params.GetStringValue(LayerNames);
    if s.None? || |s.value| == 0 {
      return Return(None);
    }
    return Return(Some(Split(s.value)));
  }

  /** The names joined with commas are what getOGCLayerNames gives back, when no name holds a comma. */
  lemma LayerNamesRoundTrip(names: seq<string>)
    requires |names| > 0 && names[|names| - 1] != ""
    requires forall i :: 0 <= i < |names| ==> ',' !in names[i]
    ensures HasText(StringValueOf(map[LayerNames := Text(Join(names))], LayerNames))
    ensures Split(ToText(Text(Join(names)))) == names
  {
    SplitJoin(names);
    if |names| > 1 {
      assert Join(names) == names[0] + "," + Join(names[1..]);
    }
  }

  /** ASCII lower case, as equalsIgnoreCase compares letters. */
  function Lower(c: char): char {
    if 'A' <= c <= 'Z' then (c as int + 32) as char else c
  }

  /** String.equalsIgnoreCase on ASCII text. */
  predicate EqualsIgnoreCase(a: string, b: string) {
    |a| == |b| && forall i :: 0 <= i < |a| ==> Lower(a[i]) == Lower(b[i])
  }

  /** The index of the first format at or after j equal to p, ignoring case. */
  function FirstMatch(formats: seq<string>, p: string, j: nat): (r: Option<nat>)
    requires j <= |formats|
    decreases |formats| - j
    ensures r.Some? ==> j <= r.value < |formats| && EqualsIgnoreCase(formats[r.value], p)
    ensures r.Some? ==> forall k :: j <= k < r.value ==> !EqualsIgnoreCase(formats[k], p)
    ensures r.None? <==> forall k :: j <= k < |formats| ==> !EqualsIgnoreCase(formats[k], p)
  {
    if j == |formats| then None
    else if EqualsIgnoreCase(formats[j], p) then Some(j)
    else FirstMatch(formats, p, j + 1)
  }

  /**
   * The index of the format matching the earliest preference at or after i
   * that any format matches, the first such format; None when none does.
   */
  function PreferredMatch(formats: seq<string>, prefs: seq<string>, i: nat): (r: Option<nat>)
    requires i <= |prefs|
    decreases |prefs| - i
    ensures r.Some? ==> r.value < |formats|
  {
    if i == |prefs| then None
    else if FirstMatch(formats, prefs[i], 0).Some? then FirstMatch(formats, prefs[i], 0)
    else PreferredMatch(formats, prefs, i + 1)
  }

  /**
   * No match exactly when no format matches any preference from i on; a
   * match is the first format matching some preference that every earlier
   * preference fails to match.
   */
  lemma {:induction false} PreferredMatchIsEarliest(formats: seq<string>, prefs: seq<string>, i: nat)
    requires i <= |prefs|
    ensures var r := PreferredMatch(formats, prefs, i);
            r.None? <==> forall k, j :: i <= k < |prefs| && 0 <= j < |formats| ==> !EqualsIgnoreCase(formats[j], prefs[k])
    ensures var r := PreferredMatch(formats, prefs, i);
            r.Some? ==>
              exists k :: i <= k < |prefs| && FirstMatch(formats, prefs[k], 0) == r &&
                (forall k' :: i <= k' < k ==> FirstMatch(formats, prefs[k'], 0).None?)
    decreases |prefs| - i
  {
    if i < |prefs| {
      PreferredMatchIsEarliest(formats, prefs, i + 1);
      if FirstMatch(formats, prefs[i], 0).None? {
        var r := PreferredMatch(formats, prefs, i + 1);
        if r.Some? {
          var k :| i + 1 <= k < |prefs| && FirstMatch(formats, prefs[k], 0) == r &&
                   (forall k' :: i + 1 <= k' < k ==> FirstMatch(formats, prefs[k'], 0).None?);
          assert forall k' :: i <= k' < k ==> FirstMatch(formats, prefs[k'], 0).None?;
        }
      }
    }
  }

  /**
   * chooseImageFormat: null when there are no formats; the first format when
   * there are no preferences or none matches; otherwise the first format
   * matching, ignoring case, the earliest preference any format matches.
   */
  method ChooseImageFormat(formats: Option<seq<string>>, prefs: Option<seq<string>>) returns (r: Option<string>)
    ensures formats.None? || |formats.value| == 0 <==> r.None?
    ensures formats.Some? && |formats.value| > 0 && (prefs.None? || |prefs.value| == 0) ==>
              r == Some(formats.value[0])
    ensures formats.Some? && |formats.value| > 0 && prefs.Some? && |prefs.value| > 0 ==>
              var m := PreferredMatch(formats.value, prefs.value, 0);
              r == Some(if m.Some? then formats.value[m.value] else formats.value[0])
  {
    if formats.None? || |formats.value| == 0 {
      return None;
    }
    var fs := formats.value;
    if prefs.None? || |prefs.value| == 0 {
      return Some(fs[0]);
    }
    var ps := prefs.value;
    var i := 0;
    while i < |ps|
      invariant 0 <= i <= |ps|
      invariant PreferredMatch(fs, ps, i) == PreferredMatch(fs, ps, 0)
    {
      var j := 0;
      while j < |fs|
        invariant 0 <= j <= |fs|
        invariant FirstMatch(fs, ps[i], j) == FirstMatch(fs, ps[i], 0)
      {
        if EqualsIgnoreCase(fs[j], ps[i]) {
          return Some(fs[j]);
        }
        j := j + 1;
      }
      i := i + 1;
    }
    return Some(fs[0]);
  }

  /** Whether a level's tiles are all empty and whether it is active; and its own parameters. */
  datatype Level = Level(
    dataset: Option<string>, cacheName: Option<string>, service: Option<string>, expiryTime: int,
    formatSuffix: Option<string>, tileWidth: int, tileHeight: int, isEmpty: bool, isActive: bool)

  /**
   * A level set: its levels, and its sector, sector resolution limits (with
   * how many there are), tile origin and level-zero tile delta, each possibly
   * null.
   */
  datatype LevelSet = LevelSet(
    levels: seq<Level>, sector: Option<Value>, sectorLevelLimits: Option<Value>, numSectorLevelLimits: nat,
    tileOrigin: Option<Value>, levelZeroTileDelta: Option<Value>)

  /** The number of levels, from the first, whose tiles are all empty. */
  function EmptyPrefix(levels: seq<Level>, i: nat): (n: nat)
    requires i <= |levels|
    decreases |levels| - i
    ensures i <= n <= |levels|
    ensures forall k :: i <= k < n ==> levels[k].isEmpty
    ensures n < |levels| ==> !levels[n].isEmpty
  {
    if i == |levels| || !levels[i].isEmpty then i else EmptyPrefix(levels, i + 1)
  }

  /** getNumEmptyLevels: the length of the longest run of empty levels at the start. */
  method GetNumEmptyLevels(levelSet: LevelSet) returns (n: int)
    ensures 0 <= n <= |levelSet.levels| && n == EmptyPrefix(levelSet.levels, 0)
    ensures forall k :: 0 <= k < n ==> levelSet.levels[k].isEmpty
    ensures n < |levelSet.levels| ==> !levelSet.levels[n].isEmpty
  {
    var i := 0;
    while i < |levelSet.levels|
      invariant 0 <= i <= |levelSet.levels|
      invariant EmptyPrefix(levelSet.levels, i) == EmptyPrefix(levelSet.levels, 0)
    {
      if !levelSet.levels[i].isEmpty {
        break;
      }
      i := i + 1;
    }
    return i;
  }

  /** The indices below n of the levels that are not active, ascending. */
  function InactiveBelow(levels: seq<Level>, n: nat): (r: seq<nat>)
    requires n <= |levels|
    decreases n
    ensures forall k :: 0 <= k < |r| ==> r[k] < n && !levels[r[k]].isActive
  {
    if n == 0 then [] else InactiveBelow(levels, n - 1) + (if levels[n - 1].isActive then [] else [n - 1])
  }

  /** The indices are ascending. */
  lemma {:induction false} InactiveBelowAscending(levels: seq<Level>, n: nat)
    requires n <= |levels|
    ensures forall k, k' :: 0 <= k < k' < |InactiveBelow(levels, n)| ==> InactiveBelow(levels, n)[k] < InactiveBelow(levels, n)[k']
    decreases n
  {
    if n > 0 {
      InactiveBelowAscending(levels, n - 1);
      var r' := InactiveBelow(levels, n - 1);
      if !levels[n - 1].isActive {
        var r := r' + [n - 1];
        assert InactiveBelow(levels, n) == r;
        forall k, k' | 0 <= k < k' < |r| ensures r[k] < r[k'] {
          assert r[k] == r'[k] && r'[k] < n - 1;
          if k' < |r'| {
            assert r[k'] == r'[k'];
          }
        }
      } else {
        assert InactiveBelow(levels, n) == r';
      }
    }
  }

  /** Every inactive level below n is among the indices. */
  lemma {:induction false} InactiveBelowComplete(levels: seq<Level>, n: nat)
    requires n <= |levels|
    ensures forall i :: 0 <= i < n && !levels[i].isActive ==> i in InactiveBelow(levels, n)
    decreases n
  {
    if n > 0 {
      InactiveBelowComplete(levels, n - 1);
      var r' := InactiveBelow(levels, n - 1);
      if !levels[n - 1].isActive {
        assert InactiveBelow(levels, n) == r' + [n - 1];
      } else {
        assert InactiveBelow(levels, n) == r';
      }
    }
  }

  /** The decimal texts of the numbers of xs. */
  function Decimals(xs: seq<nat>): (r: seq<string>)
    ensures |r| == |xs|
  {
    if |xs| == 0 then [] else Decimals(xs[..|xs| - 1]) + [Decimal(xs[|xs| - 1])]
  }

  /** What getInactiveLevels's builder holds after the first n levels. */
  function Built(levels: seq<Level>, n: nat): string
    requires n <= |levels|
    decreases n
  {
    if n == 0 then ""
    else
      var t := Built(levels, n - 1);
      if levels[n - 1].isActive then t else (if |t| > 0 then t + "," else t) + Decimal(n - 1)
  }

  /** The comma-separated inactive level indices, or null when every level is active. */
  function InactiveText(levels: seq<Level>): Option<string> {
    var t := Built(levels, |levels|);
    if |t| > 0 then Some(t) else None
  }

  /** Cutting at a comma cuts the text on either side of it on its own. */
  lemma {:induction false} PiecesAround(a: string, b: string)
    ensures Pieces(a + "," + b) == Pieces(a) + Pieces(b)
    decreases |a|
  {
    var s := a + "," + b;
    if |a| == 0 {
      assert s[1..] == b;
    } else {
      assert s[1..] == a[1..] + "," + b;
      PiecesAround(a[1..], b);
    }
  }

  /** The builder's text is empty exactly when no level so far is inactive, and cuts into their indices. */
  lemma {:induction false} BuiltPieces(levels: seq<Level>, n: nat)
    requires n <= |levels|
    ensures |Built(levels, n)| > 0 <==> |InactiveBelow(levels, n)| > 0
    ensures |InactiveBelow(levels, n)| > 0 ==> Pieces(Built(levels, n)) == Decimals(InactiveBelow(levels, n))
    decreases n
  {
    if n > 0 {
      BuiltPieces(levels, n - 1);
      var t, ns, d := Built(levels, n - 1), InactiveBelow(levels, n - 1), Decimal(n - 1);
      if !levels[n - 1].isActive {
        assert InactiveBelow(levels, n) == ns + [n - 1];
        assert (ns + [n - 1])[..|ns|] == ns;
        assert Decimals(InactiveBelow(levels, n)) == Decimals(ns) + [d];
        PiecesOfPiece(d);
        if |t| > 0 {
          assert Built(levels, n) == t + "," + d;
          PiecesAround(t, d);
          assert Pieces(Built(levels, n)) == Pieces(t) + [d];
        } else {
          assert Built(levels, n) == d;
          assert ns == [] && Decimals(ns) + [d] == [d];
        }
      } else {
        assert Built(levels, n) == t;
        assert InactiveBelow(levels, n) == ns + [] == ns;
      }
    } else {
      assert Built(levels, n) == "";
    }
  }

  /** getInactiveLevels: the inactive level indices, ascending, in decimal with commas between. */
  method GetInactiveLevels(levelSet: LevelSet) returns (r: Option<string>)
    ensures r == InactiveText(levelSet.levels)
  {
    var levels := levelSet.levels;
    var sb := "";
    var i := 0;
    while i < |levels|
      invariant 0 <= i <= |levels|
      invariant sb == Built(levels, i)
    {
      if !levels[i].isActive {
        if |sb| > 0 {
          sb := sb + ",";
        }
        sb := sb + Decimal(i);
      }
      i := i + 1;
    }
    return if |sb| > 0 then Some(sb) else None;
  }

  /** The inactive levels' string, split at its commas, gives each inactive index in decimal, ascending. */
  lemma InactiveLevelsRoundTrip(levels: seq<Level>)
    ensures InactiveText(levels).None? <==> forall i :: 0 <= i < |levels| ==> levels[i].isActive
    ensures InactiveText(levels).Some? ==>
              Split(InactiveText(levels).value) == Decimals(InactiveBelow(levels, |levels|))
    ensures var r := InactiveBelow(levels, |levels|);
            forall k, k' :: 0 <= k < k' < |r| ==> r[k] < r[k']
  {
    var ns := InactiveBelow(levels, |levels|);
    BuiltPieces(levels, |levels|);
    InactiveBelowComplete(levels, |levels|);
    InactiveBelowAscending(levels, |levels|);
    if |ns| > 0 {
      var ds := Decimals(ns);
      assert ds == Decimals(ns[..|ns| - 1]) + [Decimal(ns[|ns| - 1])];
      assert ds[|ds| - 1] != "";
      assert TrimTrailingEmpty(ds) == ds;
    } else {
      assert forall i :: 0 <= i < |levels| ==> levels[i].isActive;
    }
  }

  /** The keys getLevelSetConfigParams reads with getStringValue: for them an empty string counts as absent. */
  predicate Textual(k: Key) {
    k.DatasetName? || k.DataCacheName? || k.Service? || k.FormatSuffix? || k.InactiveLevels?
  }

  /** Whether getLevelSetConfigParams fills k: k is missing, or, for a textual key, its text is empty. */
  predicate Absent(values: map<Key, Value>, k: Key) {
    if Textual(k) then !HasText(StringValueOf(values, k)) else k !in values
  }

  /** A string the level set offers, when it is neither null nor empty. */
  function TextCandidate(s: Option<string>): (c: Option<Value>)
    ensures c.Some? <==> HasText(s)
    ensures c.Some? ==> c == Some(Text(s.value))
  {
    if HasText(s) then Some(Text(s.value)) else None
  }

  /** The value getLevelSetConfigParams would store under k, taken from the level set and its first level. */
  function Candidate(levelSet: LevelSet, k: Key): Option<Value>
    requires |levelSet.levels| > 0
  {
    var first := levelSet.levels[0];
    match k
    case DatasetName => TextCandidate(first.dataset)
    case DataCacheName => TextCandidate(first.cacheName)
    case Service => TextCandidate(first.service)
    case ExpiryTime => if first.expiryTime > 0 then Some(Number(first.expiryTime)) else None
    case FormatSuffix => TextCandidate(first.formatSuffix)
    case NumLevels => Some(Number(|levelSet.levels|))
    case NumEmptyLevels => Some(Number(EmptyPrefix(levelSet.levels, 0)))
    case InactiveLevels => TextCandidate(InactiveText(levelSet.levels))
    case SectorKey => levelSet.sector
    case SectorResolutionLimits => if levelSet.numSectorLevelLimits > 0 then levelSet.sectorLevelLimits else None
    case TileOrigin => levelSet.tileOrigin
    case TileWidth => Some(Number(first.tileWidth))
    case TileHeight => Some(Number(first.tileHeight))
    case LevelZeroTileDelta => levelSet.levelZeroTileDelta
    case DisplayName => None
    case LayerNames => None
  }

  /** One fill-if-absent step. */
  function Fill(values: map<Key, Value>, k: Key, c: Option<Value>): map<Key, Value> {
    if Absent(values, k) && c.Some? then values[k := c.value] else values
  }

  /** The fill steps for the names of the data, its cache and its service, and the expiry time. */
  function FillNames(levelSet: LevelSet, values: map<Key, Value>): map<Key, Value>
    requires |levelSet.levels| > 0
  {
    var first := levelSet.levels[0];
    var v1 := Fill(values, DatasetName, TextCandidate(first.dataset));
    var v2 := Fill(v1, DataCacheName, TextCandidate(first.cacheName));
    var v3 := Fill(v2, Service, TextCandidate(first.service));
    Fill(v3, ExpiryTime, if first.expiryTime > 0 then Some(Number(first.expiryTime)) else None)
  }

  /** The fill steps for the format suffix and the level counts. */
  function FillLevelCounts(levelSet: LevelSet, values: map<Key, Value>): map<Key, Value>
    requires |levelSet.levels| > 0
  {
    var first := levelSet.levels[0];
    var v1 := Fill(values, FormatSuffix, TextCandidate(first.formatSuffix));
    var v2 := Fill(v1, NumLevels, Some(Number(|levelSet.levels|)));
    Fill(v2, NumEmptyLevels, Some(Number(EmptyPrefix(levelSet.levels, 0))))
  }

  /** The fill steps for the inactive levels, the sector and its resolution limits, and the tile origin. */
  function FillLevelLimits(levelSet: LevelSet, values: map<Key, Value>): map<Key, Value> {
    var v1 := Fill(values, InactiveLevels, TextCandidate(InactiveText(levelSet.levels)));
    var v2 := Fill(v1, SectorKey, levelSet.sector);
    var v3 := Fill(v2, SectorResolutionLimits, if levelSet.numSectorLevelLimits > 0 then levelSet.sectorLevelLimits else None);
    Fill(v3, TileOrigin, levelSet.tileOrigin)
  }

  /** The fill steps for the tile size and the level-zero tile delta. */
  function FillTileSize(levelSet: LevelSet, values: map<Key, Value>): map<Key, Value>
    requires |levelSet.levels| > 0
  {
    var first := levelSet.levels[0];
    var v1 := Fill(values, TileWidth, Some(Number(first.tileWidth)));
    var v2 := Fill(v1, TileHeight, Some(Number(first.tileHeight)));
    Fill(v2, LevelZeroTileDelta, levelSet.levelZeroTileDelta)
  }

  /** The parameters after getLevelSetConfigParams fills them from levelSet, key by key in its order. */
  function LevelSetConfig(levelSet: LevelSet, values: map<Key, Value>): map<Key, Value>
    requires |levelSet.levels| > 0
  {
    FillTileSize(levelSet, FillLevelLimits(levelSet, FillLevelCounts(levelSet, FillNames(levelSet, values))))
  }

  /**
   * Whether getLevelSetConfigParams reads the first level before it reaches
   * the tile size: one of the keys filled from the first level is absent.
   */
  predicate ReadsFirstLevel(values: map<Key, Value>) {
    Absent(values, DatasetName) || Absent(values, DataCacheName) || Absent(values, Service)
    || Absent(values, ExpiryTime) || Absent(values, FormatSuffix)
  }

  /**
   * The parameters getLevelSetConfigParams has filled from a level set
   * without levels when it reaches the tile size: the level counts and the
   * level set's own keys, none of which needs a first level.
   */
  function NoLevelsConfig(levelSet: LevelSet, values: map<Key, Value>): (r: map<Key, Value>)
    requires |levelSet.levels| == 0
    ensures Absent(r, TileWidth) == Absent(values, TileWidth) && Absent(r, TileHeight) == Absent(values, TileHeight)
  {
    var v1 := Fill(values, NumLevels, Some(Number(|levelSet.levels|)));
    var v2 := Fill(v1, NumEmptyLevels, Some(Number(EmptyPrefix(levelSet.levels, 0))));
    FillLevelLimits(levelSet, v2)
  }

  /**
   * getLevelSetConfigParams on a level set without levels, whose first level
   * is null: the first absent key filled from it throws NullPointerException.
   */
  method FillWithoutLevels(ls: LevelSet, p: AVList) returns (r: Outcome<AVList>)
    requires |ls.levels| == 0
    modifies p
    ensures ReadsFirstLevel(old(p.values)) ==> r == Throw(NullPointer) && unchanged(p)
    ensures !ReadsFirstLevel(old(p.values)) ==>
              var v := NoLevelsConfig(ls, old(p.values));
              if Absent(old(p.values), TileWidth) || Absent(old(p.values), TileHeight) then
                r == Throw(NullPointer) && p.values == v
              else
                r == Return(p) && p.values == Fill(v, LevelZeroTileDelta, ls.levelZeroTileDelta)
  {
    if ReadsFirstLevel(p.values) {
      return Throw(NullPointer);
    }
    var numEmpty := GetNumEmptyLevels(ls);
    var inactive := GetInactiveLevels(ls);
    var srs := if ls.numSectorLevelLimits > 0 then ls.sectorLevelLimits else None;
    p.SetIfAbsent(NumLevels, Some(Number(|ls.levels|)));
    p.SetIfAbsent(NumEmptyLevels, Some(Number(numEmpty)));
    p.SetIfAbsent(InactiveLevels, TextCandidate(inactive));
    p.SetIfAbsent(SectorKey, ls.sector);
    p.SetIfAbsent(SectorResolutionLimits, srs);
    p.SetIfAbsent(TileOrigin, ls.tileOrigin);
    if Absent(p.values, TileWidth) || Absent(p.values, TileHeight) {
      return Throw(NullPointer);
    }
    p.SetIfAbsent(LevelZeroTileDelta, ls.levelZeroTileDelta);
    return Return(p);
  }

  /**
   * getLevelSetConfigParams: fills params (a new list when it is null) from
   * the level set and returns it. A null level set is rejected. A set with no
   * levels has a null first level: reading it, which happens for the first
   * of its keys that is absent, throws NullPointerException, after the
   * level counts and the level set's own keys have been filled when that key
   * is a tile size.
   */
  method GetLevelSetConfigParams(levelSet: Option<LevelSet>, params: AVList?) returns (r: Outcome<AVList>)
    modifies params
    ensures levelSet.None? ==> r == Throw(IllegalArgument) && (params == null || unchanged(params))
    ensures levelSet.Some? && |levelSet.value.levels| == 0 && params == null ==> r == Throw(NullPointer)
    ensures levelSet.Some? && |levelSet.value.levels| == 0 && params != null && ReadsFirstLevel(old(params.values)) ==>
              r == Throw(NullPointer) && unchanged(params)
    ensures levelSet.Some? && |levelSet.value.levels| == 0 && params != null && !ReadsFirstLevel(old(params.values)) ==>
              var v := NoLevelsConfig(levelSet.value, old(params.values));
              if Absent(old(params.values), TileWidth) || Absent(old(params.values), TileHeight) then
                r == Throw(NullPointer) && params.values == v
              else
                r.Return? && r.value == params && params.values == Fill(v, LevelZeroTileDelta, levelSet.value.levelZeroTileDelta)
    ensures levelSet.Some? && |levelSet.value.levels| > 0 ==>
              r.Return? && (if params == null then fresh(r.value) && r.value.values == LevelSetConfig(levelSet.value, map[])
                           else r.value == params && params.values == LevelSetConfig(levelSet.value, old(params.values)))
  {
    if levelSet.None? {
      return Throw(IllegalArgument);
    }
    var p := params;
    if p == null {
      p := new AVList();
    }
    var ls := levelSet.value;
    if |ls.levels| == 0 {
      r := FillWithoutLevels(ls, p);
      return;
    }
    var first := ls.levels[0];
    var numEmpty := GetNumEmptyLevels(ls);
    var inactive := GetInactiveLevels(ls);
    var expiry := if first.expiryTime > 0 then Some(Number(first.expiryTime)) else None;
    var srs := if ls.numSectorLevelLimits > 0 then ls.sectorLevelLimits else None;
    p.SetIfAbsent(DatasetName, TextCandidate(first.dataset));
    p.SetIfAbsent(DataCacheName, TextCandidate(first.cacheName));
    p.SetIfAbsent(Service, TextCandidate(first.service));
    p.SetIfAbsent(ExpiryTime, expiry);
    p.SetIfAbsent(FormatSuffix, TextCandidate(first.formatSuffix));
    p.SetIfAbsent(NumLevels, Some(Number(|ls.levels|)));
    p.SetIfAbsent(NumEmptyLevels, Some(Number(numEmpty)));
    p.SetIfAbsent(InactiveLevels, TextCandidate(inactive));
    p.SetIfAbsent(SectorKey, ls.sector);
    p.SetIfAbsent(SectorResolutionLimits, srs);
    p.SetIfAbsent(TileOrigin, ls.tileOrigin);
    p.SetIfAbsent(TileWidth, Some(Number(first.tileWidth)));
    p.SetIfAbsent(TileHeight, Some(Number(first.tileHeight)));
    p.SetIfAbsent(LevelZeroTileDelta, ls.levelZeroTileDelta);
    return Return(p);
  }

  /** What filling values into r did to key k, offered candidate c: k was set to c when absent, and kept otherwise. */
  predicate FilledAt(values: map<Key, Value>, r: map<Key, Value>, k: Key, c: Option<Value>) {
    (k in r <==> k in values || (Absent(values, k) && c.Some?))
    && (Absent(values, k) && c.Some? ==> k in r && r[k] == c.value)
    && (!(Absent(values, k) && c.Some?) && k in values ==> k in r && r[k] == values[k])
  }

  /** One fill step changes only its own key, and that only when absent. */
  lemma FillAt(values: map<Key, Value>, k0: Key, c: Option<Value>, k: Key)
    ensures FilledAt(values, Fill(values, k0, c), k, if k == k0 then c else None)
    ensures k != k0 ==> Absent(Fill(values, k0, c), k) == Absent(values, k)
  {
  }

  /** FillNames fills its own keys, offered their candidates, and keeps every other key. */
  lemma {:induction false} FillNamesAt(levelSet: LevelSet, values: map<Key, Value>, k: Key)
    requires |levelSet.levels| > 0
    ensures FilledAt(values, FillNames(levelSet, values), k, if k in {DatasetName, DataCacheName, Service, ExpiryTime} then Candidate(levelSet, k) else None)
  {
    var first := levelSet.levels[0];
    var v1 := Fill(values, DatasetName, TextCandidate(first.dataset));
    FillAt(values, DatasetName, TextCandidate(first.dataset), k);
    var v2 := Fill(v1, DataCacheName, TextCandidate(first.cacheName));
    FillAt(v1, DataCacheName, TextCandidate(first.cacheName), k);
    var v3 := Fill(v2, Service, TextCandidate(first.service));
    FillAt(v2, Service, TextCandidate(first.service), k);
    var v4 := Fill(v3, ExpiryTime, if first.expiryTime > 0 then Some(Number(first.expiryTime)) else None);
    FillAt(v3, ExpiryTime, if first.expiryTime > 0 then Some(Number(first.expiryTime)) else None, k);
  }

  /** FillLevelCounts fills its own keys, offered their candidates, and keeps every other key. */
  lemma {:induction false} FillLevelCountsAt(levelSet: LevelSet, values: map<Key, Value>, k: Key)
    requires |levelSet.levels| > 0
    ensures FilledAt(values, FillLevelCounts(levelSet, values), k, if k in {FormatSuffix, NumLevels, NumEmptyLevels} then Candidate(levelSet, k) else None)
  {
    var first := levelSet.levels[0];
    var v1 := Fill(values, FormatSuffix, TextCandidate(first.formatSuffix));
    FillAt(values, FormatSuffix, TextCandidate(first.formatSuffix), k);
    var v2 := Fill(v1, NumLevels, Some(Number(|levelSet.levels|)));
    FillAt(v1, NumLevels, Some(Number(|levelSet.levels|)), k);
    var v3 := Fill(v2, NumEmptyLevels, Some(Number(EmptyPrefix(levelSet.levels, 0))));
    FillAt(v2, NumEmptyLevels, Some(Number(EmptyPrefix(levelSet.levels, 0))), k);
  }

  /** FillLevelLimits fills its own keys, offered their candidates, and keeps every other key. */
  lemma {:induction false} FillLevelLimitsAt(levelSet: LevelSet, values: map<Key, Value>, k: Key)
    requires |levelSet.levels| > 0
    ensures FilledAt(values, FillLevelLimits(levelSet, values), k, if k in {InactiveLevels, SectorKey, SectorResolutionLimits, TileOrigin} then Candidate(levelSet, k) else None)
  {
    var first := levelSet.levels[0];
    var v1 := Fill(values, InactiveLevels, TextCandidate(InactiveText(levelSet.levels)));
    FillAt(values, InactiveLevels, TextCandidate(InactiveText(levelSet.levels)), k);
    var v2 := Fill(v1, SectorKey, levelSet.sector);
    FillAt(v1, SectorKey, levelSet.sector, k);
    var v3 := Fill(v2, SectorResolutionLimits, if levelSet.numSectorLevelLimits > 0 then levelSet.sectorLevelLimits else None);
    FillAt(v2, SectorResolutionLimits, if levelSet.numSectorLevelLimits > 0 then levelSet.sectorLevelLimits else None, k);
    var v4 := Fill(v3, TileOrigin, levelSet.tileOrigin);
    FillAt(v3, TileOrigin, levelSet.tileOrigin, k);
  }

  /** FillTileSize fills its own keys, offered their candidates, and keeps every other key. */
  lemma {:induction false} FillTileSizeAt(levelSet: LevelSet, values: map<Key, Value>, k: Key)
    requires |levelSet.levels| > 0
    ensures FilledAt(values, FillTileSize(levelSet, values), k, if k in {TileWidth, TileHeight, LevelZeroTileDelta} then Candidate(levelSet, k) else None)
  {
    var first := levelSet.levels[0];
    var v1 := Fill(values, TileWidth, Some(Number(first.tileWidth)));
    FillAt(values, TileWidth, Some(Number(first.tileWidth)), k);
    var v2 := Fill(v1, TileHeight, Some(Number(first.tileHeight)));
    FillAt(v1, TileHeight, Some(Number(first.tileHeight)), k);
    var v3 := Fill(v2, LevelZeroTileDelta, levelSet.levelZeroTileDelta);
    FillAt(v2, LevelZeroTileDelta, levelSet.levelZeroTileDelta, k);
  }

  /** The value a key ends up with: the level set's candidate when the key was absent and there is one, else what was there. */
  lemma LevelSetConfigAt(levelSet: LevelSet, values: map<Key, Value>, k: Key)
    requires |levelSet.levels| > 0
    ensures FilledAt(values, LevelSetConfig(levelSet, values), k, Candidate(levelSet, k))
  {
    var v1 := FillNames(levelSet, values);
    var v2 := FillLevelCounts(levelSet, v1);
    var v3 := FillLevelLimits(levelSet, v2);
    FillNamesAt(levelSet, values, k);
    FillLevelCountsAt(levelSet, v1, k);
    FillLevelLimitsAt(levelSet, v2, k);
    FillTileSizeAt(levelSet, v3, k);
  }

  /** A key the level set offers a value for is no longer absent once that value is stored. */
  lemma CandidatePresent(levelSet: LevelSet, values: map<Key, Value>, k: Key)
    requires |levelSet.levels| > 0 && Candidate(levelSet, k).Some?
    requires k in values && values[k] == Candidate(levelSet, k).value
    ensures !Absent(values, k)
  {
    if Textual(k) {
      var first := levelSet.levels[0];
      assert Candidate(levelSet, k) == TextCandidate(
        match k
        case DatasetName => first.dataset
        case DataCacheName => first.cacheName
        case Service => first.service
        case FormatSuffix => first.formatSuffix
        case _ => InactiveText(levelSet.levels));
    }
  }

  /** Filling never overwrites a value already present: only absent keys change. */
  lemma LevelSetConfigKeepsPresent(levelSet: LevelSet, values: map<Key, Value>)
    requires |levelSet.levels| > 0
    ensures var r := LevelSetConfig(levelSet, values);
            values.Keys <= r.Keys
            && forall k :: k in values && !Absent(values, k) ==> r[k] == values[k]
  {
    forall k | k in values
      ensures k in LevelSetConfig(levelSet, values)
      ensures !Absent(values, k) ==> LevelSetConfig(levelSet, values)[k] == values[k]
    {
      LevelSetConfigAt(levelSet, values, k);
    }
  }

  /** A key filled twice with the same candidate, where the first fill left it present, is as after the first. */
  lemma FilledTwice(values: map<Key, Value>, r: map<Key, Value>, r': map<Key, Value>, k: Key, c: Option<Value>)
    requires FilledAt(values, r, k, c) && FilledAt(r, r', k, c)
    requires Absent(values, k) && c.Some? ==> !Absent(r, k)
    ensures k in r' <==> k in r
    ensures k in r ==> r'[k] == r[k]
  {
    if !(Absent(values, k) && c.Some?) && k in values {
      assert StringValueOf(r, k) == StringValueOf(values, k);
    }
  }

  /** r is what filling values from levelSet gives, key by key. */
  predicate FilledFrom(levelSet: LevelSet, values: map<Key, Value>, r: map<Key, Value>)
    requires |levelSet.levels| > 0
  {
    forall k :: FilledAt(values, r, k, Candidate(levelSet, k))
  }

  /** LevelSetConfig fills every key from the level set. */
  lemma LevelSetConfigFilled(levelSet: LevelSet, values: map<Key, Value>)
    requires |levelSet.levels| > 0
    ensures FilledFrom(levelSet, values, LevelSetConfig(levelSet, values))
  {
    forall k {
      LevelSetConfigAt(levelSet, values, k);
    }
  }

  /** Filling from the same level set twice gives what filling once gave. */
  lemma FilledFromTwice(levelSet: LevelSet, values: map<Key, Value>, r: map<Key, Value>, r': map<Key, Value>)
    requires |levelSet.levels| > 0
    requires FilledFrom(levelSet, values, r) && FilledFrom(levelSet, r, r')
    ensures r' == r
  {
    forall k
      ensures k in r' <==> k in r
      ensures k in r ==> r'[k] == r[k]
    {
      var c := Candidate(levelSet, k);
      assert FilledAt(values, r, k, c) && FilledAt(r, r', k, c);
      if Absent(values, k) && c.Some? {
        CandidatePresent(levelSet, r, k);
      }
      FilledTwice(values, r, r', k, c);
    }
  }

  /** Filling a second time from the same level set changes nothing. */
  lemma LevelSetConfigIdempotent(levelSet: LevelSet, values: map<Key, Value>)
    requires |levelSet.levels| > 0
    ensures LevelSetConfig(levelSet, LevelSetConfig(levelSet, values)) == LevelSetConfig(levelSet, values)
  {
    var r := LevelSetConfig(levelSet, values);
    LevelSetConfigFilled(levelSet, values);
    LevelSetConfigFilled(levelSet, r);
    FilledFromTwice(levelSet, values, r, LevelSetConfig(levelSet, r));
  }
}
