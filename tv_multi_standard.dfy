/**
 * tv_multi_standard_validation.py: every country the customer's country
 * maps assign to a TV system of the chosen standard (DVB, ATSC, ISDB, ...)
 * must appear in the standard's own list `country/<STANDARD>.ini`.
 *
 * model.ini names the tvSysMap file (`tvSysMap = ...` in its [COUNTRY]
 * section, or on any line that mentions it); the tvSysMap's
 * `<CountryTvSysMapXML>` entries name the country maps, whose
 * COUNTRY_TVCONFIG_MAP blocks pair a COUNTRY_NAME with a TV_SYSTEM.
 *
 * The XML reader is an oracle: for a text it gives the elements of
 * `ET.fromstring(text).iter()` in document order, or None when the parse
 * raises, and the matches of the two regular expressions the script falls
 * back on.
 */
module TvMultiStandard {
  import opened Wrappers
  import opened Text
  import opened Ini
  import opened Files
  import opened Paths
  import opened Scan
  import opened Dedup
  import opened Order
  import Resolvers

  // ---------------------------------------------------------------- names

  /** `_norm_country_name`: trimmed, upper-cased, each blank turned into '_'. */
  function NormCountryName(s: string): (r: string)
    ensures |r| == |Strip(s)|
    ensures IsUpperCase(r) && ' ' !in r
  {
    ReplaceChar(Upper(Strip(s)), ' ', '_')
  }

  /** Upper-casing turns no character into a blank and no blank into something else. */
  lemma UpperCharBlank(c: char)
    ensures UpperChar(c) in Whitespace <==> c in Whitespace
  {
  }

  /** A normalised name is its own normalisation. */
  lemma NormCountryNameIdempotent(s: string)
    ensures NormCountryName(NormCountryName(s)) == NormCountryName(s)
  {
    var r := NormCountryName(s);
    NormCountryNameEnds(s);
    StripSetFixed(r, Whitespace);
    UpperFixed(r);
    ReplaceCharAbsent(r, ' ', '_');
  }

  /** A normalised name neither starts nor ends with a blank. */
  lemma NormCountryNameEnds(s: string)
    ensures var r := NormCountryName(s); r == [] || (r[0] !in Whitespace && r[|r| - 1] !in Whitespace)
  {
    var t := Strip(s);
    if t != [] {
      UpperCharBlank(t[0]);
      UpperCharBlank(t[|t| - 1]);
    }
  }

  // ---------------------------------------------------------------- paths

  /** The characters `strip('"\';) ')` removes. */
  const RefJunk: set<char> := {'"', '\'', ';', ')', ' '}

  /** The reference `_resolve_from_root` places: trimmed, then rid of quotes, ';', ')' and spaces at both ends. */
  function TrimRef(given: string): (t: string)
    ensures t == [] || (t[0] !in RefJunk && t[|t| - 1] !in RefJunk)
  {
    var s := Strip(given);
    StripSet(s, RefJunk)
  }

  /**
   * `_resolve_from_root(root, given)` for the resolved `root`: an empty
   * reference is the root itself, any other is placed under the root.
   */
  function ResolveFromRoot(root: string, given: string): (r: string)
  {
    var t := TrimRef(given);
    if t == "" then root else Resolvers.UnderRoot(root, t)
  }

  /** A reference of only quotes, ';', ')' and spaces resolves to the root. */
  lemma ResolveEmptyIsRoot(root: string, given: string)
    requires AllIn(given, RefJunk)
    ensures ResolveFromRoot(root, given) == root
  {
    var s := Strip(given);
    StripSetAllIn(given, Whitespace, RefJunk);
    LStripSetEmpty(s, RefJunk);
    assert TrimRef(given) == "";
  }

  /**
   * Every reference without "..", absolute or not, `/tvconfigs/` or not,
   * lands inside the (absolute) root; a `/tvconfigs/` one must not carry a
   * second slash after the prefix.
   */
  lemma ResolveFromRootWithin(root: string, given: string)
    requires Resolvers.AbsRoot(root) && root == NormPath(root)
    requires var t := TrimRef(given);
      (StartsWith(t, Resolvers.TvconfigsPrefix) ==>
        !StartsWith(t[|Resolvers.TvconfigsPrefix|..], "/") && NoDotDot(t[|Resolvers.TvconfigsPrefix|..])) &&
      (!StartsWith(t, Resolvers.TvconfigsPrefix) ==> NoDotDot(LStripSet(t, Resolvers.Slashes)))
    ensures Within(ResolveFromRoot(root, given), root)
  {
    var t := TrimRef(given);
    if t != "" {
      Resolvers.UnderRootWithin(root, t);
    }
  }

  /** The list file a standard is checked against: `/tvconfigs/country/{standard}.ini` placed under the root. */
  function CountryPathFor(root: string, standard: string): string
  {
    ResolveFromRoot(root, Resolvers.TvconfigsPrefix + CountryFile(standard))
  }

  function CountryFile(standard: string): string
  {
    "country/" + standard + ".ini"
  }

  /** The forced list path is the standard's file in the root's country directory. */
  lemma ForcedCountryPath(root: string, standard: string)
    ensures CountryPathFor(root, standard) == NormPath(Join(root, CountryFile(standard)))
  {
    var rel := CountryFile(standard);
    assert rel[|rel| - 1] == 'i';
    TrimRefPrefixed(rel);
    Resolvers.UnderRootPrefixed(root, rel);
  }

  /** A `/tvconfigs/` reference ending in a letter is left as it is by the trimming. */
  lemma TrimRefPrefixed(rel: string)
    requires rel != [] && rel[|rel| - 1] !in Whitespace && rel[|rel| - 1] !in RefJunk
    ensures TrimRef(Resolvers.TvconfigsPrefix + rel) == Resolvers.TvconfigsPrefix + rel
  {
    var p := Resolvers.TvconfigsPrefix + rel;
    assert p[0] == '/' && p[|p| - 1] == rel[|rel| - 1];
    StripSetFixed(p, Whitespace);
    StripSetFixed(p, RefJunk);
  }

  // ---------------------------------------------------------------- _PATH_VALUE_RE

  /** The class `[^";\n]` excludes. */
  const PathStops: set<char> := {'"', ';', '\n'}
  const NewLine: set<char> := {'\n'}

  /**
   * `=\s*("?)([^";\n]+)\1` tried with its '=' at `e`, and the stripped
   * group 2 when it matches there.  With the blanks after '=' up to `k`,
   * the pattern first takes a quote at `k` and needs the run after it to end
   * at a closing quote, then takes no quote and needs a run at `k`; failing
   * both, it gives back a blank of `\s*`, which starts a run of blanks the
   * empty `\1` closes: the group is blank as long as one of the blanks it
   * gave back is not a newline.
   */
  function PathValueAt(line: string, e: nat): (r: Option<string>)
  {
    if e < |line| && line[e] == '=' then PathValueAfter(line, e + 1, SkipSet(line, e + 1, Whitespace))
    else None
  }

  /** The rest of the match once `\s*` has taken the blanks `line[a..k]`. */
  function PathValueAfter(line: string, a: nat, k: nat): (r: Option<string>)
    requires a <= k <= |line|
  {
    var quoted := k < |line| && line[k] == '"';
    var b := if quoted then k + 1 else k;
    var z := SkipOut(line, b, PathStops);
    if b < z && (!quoted || (z < |line| && line[z] == '"')) then Some(Strip(line[b..z]))
    else if !AllIn(line[a..k], NewLine) then Some("")
    else None
  }

  function PathFinder(line: string): nat -> Option<string>
  {
    (e: nat) => PathValueAt(line, e)
  }

  /** `_extract_ini_path(line)`: `_PATH_VALUE_RE.search` at the first '=' where it matches. */
  function ExtractIniPath(line: string): (r: Option<string>)
    ensures r.Some? <==> exists e :: 0 <= e < |line| && PathValueAt(line, e).Some?
    ensures r.Some? ==> '=' in line
  {
    var f := PathFinder(line);
    var r := SearchFrom(|line|, 0, f);
    assert forall e :: 0 <= e <= |line| ==> f(e) == PathValueAt(line, e);
    r
  }

  /** A search that can match only at `e` matches there. */
  lemma ExtractAt(line: string, e: nat)
    requires e < |line| && PathValueAt(line, e).Some?
    requires forall p :: 0 <= p < e ==> line[p] != '='
    ensures ExtractIniPath(line) == PathValueAt(line, e)
  {
    var f := PathFinder(line);
    assert f(e).Some?;
    var p := SearchIndex(|line|, 0, f);
    assert forall q :: 0 <= q < e ==> f(q).None?;
    SearchIndexIs(|line|, 0, e, f);
  }

  /** The pieces of a match at `e`: blanks `line[a..k]`, an opening quote when `quoted`, a run, and what ends it. */
  lemma ExtractPieces(line: string, e: nat, k: nat, z: nat, quoted: bool)
    requires e < k <= |line| && line[e] == '='
    requires forall p :: 0 <= p < e ==> line[p] != '='
    requires AllIn(line[e + 1..k], Whitespace)
    requires k < |line| && (quoted <==> line[k] == '"') && line[k] !in Whitespace
    requires var b := if quoted then k + 1 else k;
      b < z <= |line| && NoneIn(line[b..z], PathStops) && (z < |line| ==> line[z] in PathStops) &&
      (quoted ==> z < |line| && line[z] == '"')
    ensures ExtractIniPath(line) == Some(Strip(line[if quoted then k + 1 else k..z]))
  {
    SkipSetOver(line, e + 1, k, Whitespace);
    PathValueAfterRun(line, e + 1, k, z, quoted);
    ExtractAt(line, e);
  }

  /** A run `line[b..z]` ended as the pattern needs it is the value. */
  lemma PathValueAfterRun(line: string, a: nat, k: nat, z: nat, quoted: bool)
    requires a <= k < |line| && (quoted <==> line[k] == '"')
    requires var b := if quoted then k + 1 else k;
      b < z <= |line| && NoneIn(line[b..z], PathStops) && (z < |line| ==> line[z] in PathStops) &&
      (quoted ==> z < |line| && line[z] == '"')
    ensures PathValueAfter(line, a, k) == Some(Strip(line[if quoted then k + 1 else k..z]))
  {
    var b := if quoted then k + 1 else k;
    assert forall j :: b <= j < z ==> line[j] == line[b..z][j - b];
    SkipOutAt(line, b, z, PathStops);
  }

  /** `key = "value"`: the value between the quotes, stripped. */
  lemma ExtractQuoted(key: string, w: string, v: string, tail: string)
    requires '=' !in key && IsBlank(w) && v != [] && NoneIn(v, PathStops)
    ensures ExtractIniPath(key + "=" + w + "\"" + v + "\"" + tail) == Some(Strip(v))
  {
    var rest := "\"" + v + "\"" + tail;
    var line := key + "=" + w + rest;
    assert key + "=" + w + "\"" + v + "\"" + tail == line;
    var k := |key| + 1 + |w|;
    AssignLayout(key, w, rest, Whitespace);
    assert line[k..][1..1 + |v|] == v && line[k..][1 + |v|] == '"';
    assert line[k + 1..k + 1 + |v|] == line[k..][1..1 + |v|];
    ExtractQuotedAt(line, |key|, k, v);
  }

  /** The quoted value at `k`, after the first '=' at `e` and blanks. */
  lemma ExtractQuotedAt(line: string, e: nat, k: nat, v: string)
    requires e < k && k + 1 + |v| < |line| && line[e] == '='
    requires forall p :: 0 <= p < e ==> line[p] != '='
    requires AllIn(line[e + 1..k], Whitespace)
    requires line[k] == '"' && line[k + 1..k + 1 + |v|] == v && line[k + 1 + |v|] == '"'
    requires v != [] && NoneIn(v, PathStops)
    ensures ExtractIniPath(line) == Some(Strip(v))
  {
    ExtractPieces(line, e, k, k + 1 + |v|, true);
  }

  /** `key = value ; comment`: the bare value up to the comment, stripped. */
  lemma ExtractBare(key: string, w: string, v: string, tail: string)
    requires '=' !in key && IsBlank(w) && v != [] && v[0] !in Whitespace && v[0] != '"' && NoneIn(v, PathStops)
    requires tail == [] || tail[0] in PathStops
    ensures ExtractIniPath(key + "=" + w + v + tail) == Some(Strip(v))
  {
    var rest := v + tail;
    var line := key + "=" + w + rest;
    assert key + "=" + w + v + tail == line;
    var k := |key| + 1 + |w|;
    AssignLayout(key, w, rest, Whitespace);
    assert line[k..][..|v|] == v && (tail != [] ==> line[k..][|v|] == tail[0]);
    assert line[k..k + |v|] == line[k..][..|v|];
    ExtractPieces(line, |key|, k, k + |v|, false);
  }

  /** Where the pieces of `key=` + blanks + rest lie in the line. */
  lemma AssignLayout(key: string, w: string, rest: string, blanks: set<char>)
    requires '=' !in key && AllIn(w, blanks)
    ensures var line := key + "=" + w + rest; var e := |key|; var k := e + 1 + |w|;
      |line| == k + |rest| && line[e] == '=' && (forall p :: 0 <= p < e ==> line[p] != '=') &&
      AllIn(line[e + 1..k], blanks) && line[k..] == rest
  {
    var line := key + "=" + w + rest;
    var e := |key|;
    assert forall p :: 0 <= p < e ==> line[p] == key[p];
    assert line[e + 1..e + 1 + |w|] == w;
    assert line[e + 1 + |w|..] == rest;
  }

  // ---------------------------------------------------------------- _find_tv_sys_map_and_country_path

  const CountrySection: string := "COUNTRY"
  const TvSysMapKey: string := "tvsysmap"
  const CountryPathKey: string := "country_path"

  /** `p if p`: what `_extract_ini_path` finds, when it is not empty. */
  function NonEmptyPath(line: string): (r: Option<string>)
    ensures r.Some? ==> r.value != "" && ExtractIniPath(line) == r
    ensures r.None? ==> ExtractIniPath(line).None? || ExtractIniPath(line) == Some("")
  {
    match ExtractIniPath(line)
    case None => None
    case Some(p) => if p != "" then Some(p) else None
  }

  /** A stripped line the loop skips: empty, or a '#' or ';' comment. */
  predicate Skipped(line: string)
  {
    line == "" || StartsWith(line, "#") || StartsWith(line, ";")
  }

  /** A stripped line that names a section: `[` ... `]`. */
  predicate Bracketed(line: string)
  {
    StartsWith(line, "[") && EndsWith(line, "]")
  }

  /**
   * What a line is to the loop: skipped, a section header with its
   * upper-cased name, or an entry with the path it gives each key, should
   * it be read inside [COUNTRY] (a line starting with tvsysmap is not
   * also read for country_path).
   */
  datatype LineKind = Ignored | Header(name: string) | Entry(tvSysMap: Option<string>, countryPath: Option<string>)

  function Kind(raw: string): (k: LineKind)
    ensures k.Entry? ==> !(k.tvSysMap.Some? && k.countryPath.Some?)
  {
    var line := Strip(raw);
    if Skipped(line) then Ignored
    else if Bracketed(line) then Header(Upper(Strip(Slice(line, 1, |line| - 1))))
    else
      var low := Lower(line);
      if StartsWith(low, TvSysMapKey) then Entry(NonEmptyPath(line), None)
      else if StartsWith(low, CountryPathKey) then Entry(None, NonEmptyPath(line))
      else Entry(None, None)
  }

  function Kinds(lines: seq<string>): seq<LineKind>
  {
    MapSeq(lines, Kind)
  }

  /** The loop's variables: the current section, upper-cased, and the two values found so far. */
  datatype Located = Located(sect: Option<string>, tvSysMap: Option<string>, countryPath: Option<string>)

  /** One pass of the `for raw in text.splitlines()` loop: a header sets the section, a [COUNTRY] entry overwrites what it gives. */
  function Step(s: Located, k: LineKind): Located
  {
    match k
    case Ignored => s
    case Header(n) => s.(sect := Some(n))
    case Entry(tv, cp) =>
      if s.sect == Some(CountrySection) then
        Located(s.sect, if tv.Some? then tv else s.tvSysMap, if cp.Some? then cp else s.countryPath)
      else s
  }

  /** The loop's variables after a run of lines. */
  function Scanned(ks: seq<LineKind>): Located
    decreases |ks|
  {
    if |ks| == 0 then Located(None, None, None)
    else Step(Scanned(ks[..|ks| - 1]), ks[|ks| - 1])
  }

  /** The section a line is read in: the one the lines before it leave. */
  function SectionAt(ks: seq<LineKind>, j: nat): Option<string>
    requires j <= |ks|
  {
    Scanned(ks[..j]).sect
  }

  /** The value a line declares for `key` when read in section `sect`: only [COUNTRY] entries declare. */
  function Declared(sect: Option<string>, k: LineKind, key: string): Option<string>
  {
    if sect == Some(CountrySection) && k.Entry? then (if key == TvSysMapKey then k.tvSysMap else k.countryPath)
    else None
  }

  /** The value found for `key`: tvSysMap or COUNTRY_PATH. */
  function Found(s: Located, key: string): Option<string>
  {
    if key == TvSysMapKey then s.tvSysMap else s.countryPath
  }

  /** Inside [COUNTRY] the last declaring line wins: its value is the one found. */
  lemma {:induction false} LastDeclarationWins(ks: seq<LineKind>, key: string, j: nat)
    requires j < |ks| && Declared(SectionAt(ks, j), ks[j], key).Some?
    requires forall k :: j < k < |ks| ==> Declared(SectionAt(ks, k), ks[k], key).None?
    ensures Found(Scanned(ks), key) == Declared(SectionAt(ks, j), ks[j], key)
    decreases |ks|
  {
    var n := |ks| - 1;
    var pre := ks[..n];
    if j < n {
      forall k | j < k < |pre| ensures Declared(SectionAt(pre, k), pre[k], key).None? {
        assert pre[..k] == ks[..k];
      }
      assert pre[..j] == ks[..j];
      LastDeclarationWins(pre, key, j);
    }
  }

  /** Without a declaring line in [COUNTRY], nothing is found for the key. */
  lemma {:induction false} NoDeclarationNone(ks: seq<LineKind>, key: string)
    requires forall k :: 0 <= k < |ks| ==> Declared(SectionAt(ks, k), ks[k], key).None?
    ensures Found(Scanned(ks), key).None?
    decreases |ks|
  {
    if |ks| > 0 {
      var n := |ks| - 1;
      var pre := ks[..n];
      forall k | 0 <= k < |pre| ensures Declared(SectionAt(pre, k), pre[k], key).None? {
        assert pre[..k] == ks[..k];
      }
      NoDeclarationNone(pre, key);
    }
  }

  /** The fallback test on a raw line, comments included: it mentions tvsysmap in any case and carries a path. */
  function FallbackLine(raw: string): Option<string>
  {
    if Contains(Lower(raw), TvSysMapKey) then NonEmptyPath(raw) else None
  }

  /** `_find_tv_sys_map_and_country_path`: the [COUNTRY] values, the tvSysMap falling back on the first raw line that mentions it. */
  function TvSysMapAndCountryPath(lines: seq<string>): (r: (Option<string>, Option<string>))
    ensures r.1 == Scanned(Kinds(lines)).countryPath
    ensures Scanned(Kinds(lines)).tvSysMap.Some? ==> r.0 == Scanned(Kinds(lines)).tvSysMap
    ensures Scanned(Kinds(lines)).tvSysMap.None? ==> r.0 == First(lines, FallbackLine)
  {
    var s := Scanned(Kinds(lines));
    (if s.tvSysMap.Some? then s.tvSysMap else First(lines, FallbackLine), s.countryPath)
  }

  /** A commented-out line is no entry, but the fallback still finds the path on it. */
  lemma CommentedDeclarationFound(raw: string, p: string)
    requires StartsWith(Strip(raw), "#") && Contains(Lower(raw), TvSysMapKey) && NonEmptyPath(raw) == Some(p)
    ensures Kind(raw) == Ignored
    ensures TvSysMapAndCountryPath([raw]).0 == Some(p)
  {
    var ks := Kinds([raw]);
    assert ks[..0] == [];
    assert Scanned(ks) == Step(Located(None, None, None), Ignored);
    FirstAt([raw], 0, FallbackLine);
  }

  /** The section loop over lines, each classified by `kind`. */
  method ScanLines(lines: seq<string>, kind: string -> LineKind) returns (s: Located)
    ensures s == Scanned(MapSeq(lines, kind))
  {
    ghost var ks := MapSeq(lines, kind);
    s := Located(None, None, None);
    var i := 0;
    while i < |lines|
      invariant 0 <= i <= |lines|
      invariant s == Scanned(ks[..i])
    {
      assert ks[..i + 1][..i] == ks[..i];
      var k := kind(lines[i]);
      match k {
        case Ignored =>
        case Header(n) => s := s.(sect := Some(n));
        case Entry(tv, cp) =>
          if s.sect == Some(CountrySection) {
            if tv.Some? {
              s := s.(tvSysMap := tv);
            }
            if cp.Some? {
              s := s.(countryPath := cp);
            }
          }
      }
      i := i + 1;
    }
    assert ks[..|lines|] == ks;
  }

  /** `_find_tv_sys_map_and_country_path` on model.ini's lines: the section loop, then the fallback loop. */
  method FindTvSysMapAndCountryPath(lines: seq<string>) returns (tvSysMap: Option<string>, countryPath: Option<string>)
    ensures (tvSysMap, countryPath) == TvSysMapAndCountryPath(lines)
  {
    var s := ScanLines(lines, Kind);
    tvSysMap := s.tvSysMap;
    countryPath := s.countryPath;
    if tvSysMap.None? {
      tvSysMap := FindFirst(lines, FallbackLine);
    }
  }

  // ---------------------------------------------------------------- the XML files

  /** A child element: its tag and `ch.text or ""`. */
  datatype Child = Child(tag: string, text: string)

  /** An element of `rt.iter()`: its tag, `el.text or ""`, and its children in order. */
  datatype Element = Element(tag: string, text: string, children: seq<Child>)

  /**
   * The XML reader on a text: the elements `ET.fromstring(txt).iter()`
   * visits, or None when the parse raises; group 1 of each
   * `<\s*CountryTvSysMapXML\s*>(.*?)</\s*CountryTvSysMapXML\s*>` match; and,
   * for each `COUNTRY_TVCONFIG_MAP` match of the same shape, group 1 of the
   * first COUNTRY_NAME and TV_SYSTEM match inside it ("" when there is none).
   */
  datatype XmlReader = XmlReader(
    tree: string -> Option<seq<Element>>,
    mapMatches: string -> seq<string>,
    blockMatches: string -> seq<(string, string)>)

  /** `tag.split('}')[-1]`: the tag without its namespace. */
  function LocalName(tag: string): (r: string)
    ensures '}' !in r
  {
    var parts := Split(tag, '}');
    parts[|parts| - 1]
  }

  /** `_read_text(p)`: the file's text, or "" when it cannot be read. */
  function ReadText(fs: FileSystem, p: string): (t: string)
    ensures !Exists(fs, p) ==> t == ""
  {
    match Read(fs, p)
    case None => ""
    case Some(t) => t
  }

  /** A `<CountryTvSysMapXML>` element with a non-blank text, resolved. */
  function MapEntry(root: string): Element -> Option<string>
  {
    (el: Element) =>
      if Lower(LocalName(el.tag)) == "countrytvsysmapxml" && Strip(el.text) != "" then Some(ResolveFromRoot(root, Strip(el.text)))
      else None
  }

  /** A regex match with a non-blank group, resolved. */
  function MatchEntry(root: string): string -> Option<string>
  {
    (m: string) => if Strip(m) != "" then Some(ResolveFromRoot(root, Strip(m))) else None
  }

  /** The `xmls` list of `_resolve_country_tv_map_xmls` before deduplication: from the tree, or from the regex when the parse raises. */
  function MapRefs(txt: string, root: string, xml: XmlReader): seq<string>
  {
    if Strip(txt) == "" then []
    else
      match xml.tree(txt)
      case Some(els) => Collect(els, MapEntry(root))
      case None => Collect(xml.mapMatches(txt), MatchEntry(root))
  }

  /**
   * `_resolve_country_tv_map_xmls(tvsysmap_path, root)`: each resolved
   * entry once, at its first occurrence, in the order of first occurrences.
   */
  function CountryXmls(fs: FileSystem, tvSysMap: string, root: string, xml: XmlReader): (u: seq<string>)
    ensures NoDup(u)
    ensures forall p :: p in u <==> p in MapRefs(ReadText(fs, tvSysMap), root, xml)
    ensures var refs := MapRefs(ReadText(fs, tvSysMap), root, xml);
      forall i, j :: 0 <= i < j < |u| ==> IndexOf(refs, u[i]) < IndexOf(refs, u[j])
  {
    var refs := MapRefs(ReadText(fs, tvSysMap), root, xml);
    UniqueFirstOrder(refs);
    Unique(refs)
  }

  /** The steps of `_resolve_country_tv_map_xmls`: collect the entries, then the `seen`/`uniq` loop. */
  method ResolveCountryTvMapXmls(fs: FileSystem, tvSysMap: string, root: string, xml: XmlReader) returns (uniq: seq<string>)
    ensures uniq == CountryXmls(fs, tvSysMap, root, xml)
  {
    var txt := ReadText(fs, tvSysMap);
    if Strip(txt) == "" {
      return [];
    }
    var xmls: seq<string>;
    match xml.tree(txt) {
      case Some(els) => xmls := AppendCollected([], els, MapEntry(root));
      case None => xmls := AppendCollected([], xml.mapMatches(txt), MatchEntry(root));
    }
    assert xmls == MapRefs(txt, root, xml);
    uniq := Deduplicate(xmls);
  }

  // ---------------------------------------------------------------- _parse_country_tv_pairs

  const BlockTag: string := "COUNTRY_TVCONFIG_MAP"
  const CountryTag: string := "COUNTRY_NAME"
  const SystemTag: string := "TV_SYSTEM"

  /** A (country, TV system, file) triple of `_parse_country_tv_pairs`. */
  datatype Pair = Pair(country: string, system: string, source: string)

  /** The stripped text of the last child named `name` (upper-cased, without namespace), "" when there is none. */
  function ChildText(cs: seq<Child>, name: string): (t: string)
    ensures Strip(t) == t
    decreases |cs|
  {
    if |cs| == 0 then ""
    else if Upper(LocalName(cs[|cs| - 1].tag)) == name then
      StripSetIdempotent(cs[|cs| - 1].text, Whitespace);
      Strip(cs[|cs| - 1].text)
    else ChildText(cs[..|cs| - 1], name)
  }

  /** A later child of the same name overrides an earlier one: the last one gives the text. */
  lemma {:induction false} ChildTextLast(cs: seq<Child>, name: string, j: nat)
    requires j < |cs| && Upper(LocalName(cs[j].tag)) == name
    requires forall k :: j < k < |cs| ==> Upper(LocalName(cs[k].tag)) != name
    ensures ChildText(cs, name) == Strip(cs[j].text)
    decreases |cs|
  {
    if j < |cs| - 1 {
      ChildTextLast(cs[..|cs| - 1], name, j);
    }
  }

  /** The triple a block gives: none when its country is empty; the country normalised, the system trimmed and upper-cased. */
  function MakePair(country: string, system: string, source: string): (p: Option<Pair>)
    ensures p.Some? <==> country != ""
    ensures p.Some? ==> p.value.country == NormCountryName(country) && p.value.system == Upper(Strip(system))
  {
    if country != "" then Some(Pair(NormCountryName(country), Upper(Strip(system)), source)) else None
  }

  function TreePair(source: string): Element -> Option<Pair>
  {
    (el: Element) =>
      if Upper(LocalName(el.tag)) == BlockTag then MakePair(ChildText(el.children, CountryTag), ChildText(el.children, SystemTag), source)
      else None
  }

  function MatchPair(source: string): ((string, string)) -> Option<Pair>
  {
    (m: (string, string)) => MakePair(Strip(m.0), Strip(m.1), source)
  }

  /** `_parse_country_tv_pairs(path)`: from the tree, or from the regex when the parse raises. */
  function PairsOf(fs: FileSystem, path: string, xml: XmlReader): seq<Pair>
  {
    var txt := ReadText(fs, path);
    if Strip(txt) == "" then []
    else
      match xml.tree(txt)
      case Some(els) => Collect(els, TreePair(path))
      case None => Collect(xml.blockMatches(txt), MatchPair(path))
  }

  /** Normalised country names only ever have a single form. */
  predicate Normalised(p: Pair)
  {
    p.country != "" && NormCountryName(p.country) == p.country && IsUpperCase(p.system)
  }

  lemma MakePairNormalised(country: string, system: string, source: string)
    requires country != "" && Strip(country) == country
    ensures MakePair(country, system, source).Some? && Normalised(MakePair(country, system, source).value)
  {
    NormCountryNameIdempotent(country);
    UpperIsUpper(Strip(system));
  }

  /** The pair of one block, when it makes one, is normalised. */
  lemma TreePairNormalised(el: Element, path: string)
    requires TreePair(path)(el).Some?
    ensures Normalised(TreePair(path)(el).value)
  {
    var c := ChildText(el.children, CountryTag);
    var t := ChildText(el.children, SystemTag);
    assert Upper(LocalName(el.tag)) == BlockTag;
    assert TreePair(path)(el) == MakePair(c, t, path);
    MakePairNormalised(c, t, path);
  }

  /** The pairs of the tree's blocks are normalised. */
  lemma TreePairsNormalised(els: seq<Element>, path: string)
    ensures forall i :: 0 <= i < |Collect(els, TreePair(path))| ==> Normalised(Collect(els, TreePair(path))[i])
  {
    forall i | 0 <= i < |els| && TreePair(path)(els[i]).Some?
      ensures Normalised(TreePair(path)(els[i]).value)
    {
      TreePairNormalised(els[i], path);
    }
    CollectEvery(els, TreePair(path), (q: Pair) => Normalised(q));
  }

  /** The pairs of the regular-expression matches are normalised. */
  lemma MatchPairsNormalised(ms: seq<(string, string)>, path: string)
    ensures forall i :: 0 <= i < |Collect(ms, MatchPair(path))| ==> Normalised(Collect(ms, MatchPair(path))[i])
  {
    forall i | 0 <= i < |ms| && MatchPair(path)(ms[i]).Some?
      ensures Normalised(MatchPair(path)(ms[i]).value)
    {
      StripSetIdempotent(ms[i].0, Whitespace);
      MakePairNormalised(Strip(ms[i].0), Strip(ms[i].1), path);
    }
    CollectEvery(ms, MatchPair(path), (q: Pair) => Normalised(q));
  }

  /** Every pair has a non-empty, normalised country and an upper-case system. */
  lemma PairsNormalised(fs: FileSystem, path: string, xml: XmlReader)
    ensures forall i :: 0 <= i < |PairsOf(fs, path, xml)| ==> Normalised(PairsOf(fs, path, xml)[i])
  {
    var txt := ReadText(fs, path);
    if Strip(txt) != "" {
      match xml.tree(txt)
      case Some(els) => TreePairsNormalised(els, path);
      case None => MatchPairsNormalised(xml.blockMatches(txt), path);
    }
  }

  /** The children loop of `_parse_country_tv_pairs` on one block. */
  method BlockPair(el: Element, source: string) returns (p: Option<Pair>)
    requires Upper(LocalName(el.tag)) == BlockTag
    ensures p == TreePair(source)(el)
  {
    var country := "";
    var system := "";
    var i := 0;
    while i < |el.children|
      invariant 0 <= i <= |el.children|
      invariant country == ChildText(el.children[..i], CountryTag)
      invariant system == ChildText(el.children[..i], SystemTag)
    {
      var ch := el.children[i];
      assert el.children[..i + 1][..i] == el.children[..i];
      var tag := Upper(LocalName(ch.tag));
      if tag == CountryTag {
        country := Strip(ch.text);
      } else if tag == SystemTag {
        system := Strip(ch.text);
      }
      i := i + 1;
    }
    assert el.children[..i] == el.children;
    p := MakePair(country, system, source);
  }

  /** `_parse_country_tv_pairs(path)`: the block loop over the tree, or the match loop. */
  method ParseCountryTvPairs(fs: FileSystem, path: string, xml: XmlReader) returns (out: seq<Pair>)
    ensures out == PairsOf(fs, path, xml)
  {
    var txt := ReadText(fs, path);
    if Strip(txt) == "" {
      return [];
    }
    match xml.tree(txt) {
      case Some(els) =>
        out := TreePairs(els, path);
      case None =>
        out := AppendCollected([], xml.blockMatches(txt), MatchPair(path));
    }
  }

  /** One element more: the collected pairs grow by the pair `p` that element gives, if any. */
  lemma TreeStep(els: seq<Element>, i: nat, path: string, p: Option<Pair>)
    requires i < |els|
    requires Upper(LocalName(els[i].tag)) != BlockTag ==> p == None
    requires Upper(LocalName(els[i].tag)) == BlockTag ==> p == TreePair(path)(els[i])
    ensures Collect(els[..i + 1], TreePair(path)) == Collect(els[..i], TreePair(path)) + (if p.Some? then [p.value] else [])
  {
    assert p == TreePair(path)(els[i]);
    CollectSnoc(els, i, TreePair(path));
  }

  /** The loop over the tree's elements: each block element with both fields gives its pair. */
  method TreePairs(els: seq<Element>, path: string) returns (out: seq<Pair>)
    ensures out == Collect(els, TreePair(path))
  {
    out := [];
    var i := 0;
    while i < |els|
      invariant 0 <= i <= |els|
      invariant out == Collect(els[..i], TreePair(path))
    {
      var p: Option<Pair> := None;
      if Upper(LocalName(els[i].tag)) == BlockTag {
        p := BlockPair(els[i], path);
      }
      TreeStep(els, i, path, p);
      if p.Some? {
        out := out + [p.value];
      }
      i := i + 1;
    }
    assert els[..|els|] == els;
  }

  // ---------------------------------------------------------------- _parse_country_list

  /** The characters `re.split(r'[;#]', line, maxsplit=1)` cuts at. */
  const CommentStarts: set<char> := {';', '#'}

  /** The separators of `re.split(r'[,\n;]+', txt2)`. */
  const ListSeps: set<char> := {',', '\n', ';'}

  /** A line up to its first ';' or '#'. */
  function CutComment(line: string): (r: string)
    ensures NoneIn(r, CommentStarts) && StartsWith(line, r)
  {
    line[..SetIndex(line, CommentStarts)]
  }

  /** Whatever follows the first ';' or '#' of a line is dropped. */
  lemma CutCommentAt(p: string, c: char, q: string)
    requires NoneIn(p, CommentStarts) && c in CommentStarts
    ensures CutComment(p + [c] + q) == p
  {
    var line := p + [c] + q;
    var k := SetIndex(line, CommentStarts);
    assert line[|p|] == c;
    assert k == |p| by {
      assert forall j :: 0 <= j < |p| ==> line[j] == p[j];
    }
    assert line[..|p|] == p;
  }

  /** The tokens of the comment-free text: the lines rejoined with "\n" and split on runs of separators. */
  function ListTokens(txt: string): seq<string>
  {
    SplitRuns(JoinWith(MapSeq(SplitLines(txt), CutComment), "\n"), ListSeps)
  }

  /** The name one token contributes: none when it is blank, else the normalised text after its first '=' if it has one. */
  function TokenCountry(tok: string): (r: Option<string>)
    ensures r.None? <==> Strip(tok) == ""
    ensures r.Some? ==> NormCountryName(r.value) == r.value
  {
    var t := Strip(tok);
    if t == "" then None
    else
      var v := if '=' in t then Strip(SplitOnce(t, '=').1) else t;
      NormCountryNameIdempotent(v);
      Some(NormCountryName(v))
  }

  /** A `key=name` token gives the normalised name, however blank it is. */
  lemma KeyedToken(tok: string, key: string, name: string)
    requires Strip(tok) == key + "=" + name && '=' !in key
    ensures TokenCountry(tok) == Some(NormCountryName(name))
  {
    var t := Strip(tok);
    assert t[|key|] == '=';
    var k := CharIndex(t, '=');
    CharIndexAt(t, '=', |key|);
    assert t[k + 1..] == name;
    StripSetIdempotent(name, Whitespace);
  }

  /** `_parse_country_list(country_file)` on the file's text: the names of its tokens. */
  function ListedCountries(txt: string): (out: set<string>)
    ensures txt == "" ==> out == {}
  {
    if txt == "" then {} else Gathered(ListTokens(txt), TokenCountry)
  }

  /** A name is listed exactly when some token gives it; every listed name is in normal form. */
  lemma ListedMembers(txt: string, x: string)
    ensures x in ListedCountries(txt) <==> txt != "" && exists tok :: tok in ListTokens(txt) && TokenCountry(tok) == Some(x)
    ensures x in ListedCountries(txt) ==> NormCountryName(x) == x
  {
    if txt != "" {
      GatheredIff(ListTokens(txt), TokenCountry, x);
      if x in ListedCountries(txt) {
        var tok :| tok in ListTokens(txt) && TokenCountry(tok) == Some(x);
      }
    }
  }

  /** The comment loop of `_parse_country_list`. */
  method CutComments(lines: seq<string>) returns (noComments: seq<string>)
    ensures noComments == MapSeq(lines, CutComment)
  {
    noComments := [];
    var i := 0;
    while i < |lines|
      invariant 0 <= i <= |lines|
      invariant |noComments| == i && forall k :: 0 <= k < i ==> noComments[k] == CutComment(lines[k])
    {
      var line := lines[i][..SetIndex(lines[i], CommentStarts)];
      noComments := noComments + [line];
      i := i + 1;
    }
  }

  /** `_parse_country_list(country_file)`. */
  method ParseCountryList(fs: FileSystem, countryFile: string) returns (out: set<string>)
    ensures out == ListedCountries(ReadText(fs, countryFile))
  {
    var txt := ReadText(fs, countryFile);
    if txt == "" {
      return {};
    }
    var noComments := CutComments(SplitLines(txt));
    out := Gather(SplitRuns(JoinWith(noComments, "\n"), ListSeps), TokenCountry);
  }

  // ---------------------------------------------------------------- _auto_locate_tvsysmap

  const CfgsName: string := "tvSysMapCfgs.xml"

  /** The fixed places tried first, in order. */
  function AutoCandidates(root: string): seq<string>
  {
    [Join(Join(root, "TvSysMap"), CfgsName), Join(Join(root, "tvSysMap"), CfgsName), Join(root, "TvSysMapCfgs.xml")]
  }

  /** A candidate that exists, resolved. */
  function ExistingFile(fs: FileSystem): string -> Option<string>
  {
    (c: string) => if Exists(fs, c) then Some(NormPath(c)) else None
  }

  /** A glob hit, given relative to the root, at most four components deep, resolved. */
  function ShallowHit(root: string): string -> Option<string>
  {
    (rel: string) => if |Split(rel, '/')| <= 4 then Some(NormPath(Join(root, rel))) else None
  }

  /**
   * `_auto_locate_tvsysmap(root)`, with `found` the hits of
   * the recursive `root.glob` for tvSysMapCfgs.xml, relative to the root and in the
   * glob's order.
   */
  function AutoLocate(fs: FileSystem, root: string, found: seq<string>): (r: Option<string>)
    ensures First(AutoCandidates(root), ExistingFile(fs)).Some? ==> r == First(AutoCandidates(root), ExistingFile(fs))
    ensures First(AutoCandidates(root), ExistingFile(fs)).None? ==> r == First(found, ShallowHit(root))
  {
    var c := First(AutoCandidates(root), ExistingFile(fs));
    if c.Some? then c else First(found, ShallowHit(root))
  }

  /** The usual place wins over every other. */
  lemma AutoLocateUsual(fs: FileSystem, root: string, found: seq<string>)
    requires Exists(fs, Join(Join(root, "TvSysMap"), CfgsName))
    ensures AutoLocate(fs, root, found) == Some(NormPath(Join(Join(root, "TvSysMap"), CfgsName)))
  {
    FirstAt(AutoCandidates(root), 0, ExistingFile(fs));
  }

  /** With none of the fixed places present, the first shallow glob hit is taken, and only a shallow one. */
  lemma AutoLocateShallow(fs: FileSystem, root: string, found: seq<string>)
    requires forall c :: c in AutoCandidates(root) ==> !Exists(fs, c)
    ensures AutoLocate(fs, root, found).Some? <==> exists i :: 0 <= i < |found| && |Split(found[i], '/')| <= 4
  {
    NoFixedPlace(fs, root);
    ShallowHits(root, found);
  }

  /** With none of the fixed places present, none of them is taken. */
  lemma NoFixedPlace(fs: FileSystem, root: string)
    requires forall c :: c in AutoCandidates(root) ==> !Exists(fs, c)
    ensures First(AutoCandidates(root), ExistingFile(fs)).None?
  {
    var cs := AutoCandidates(root);
    forall i | 0 <= i < |cs|
      ensures ExistingFile(fs)(cs[i]).None?
    {
      assert cs[i] in cs;
    }
  }

  /** Some glob hit is taken exactly when one of them is at most four components deep. */
  lemma ShallowHits(root: string, found: seq<string>)
    ensures First(found, ShallowHit(root)).Some? <==> exists i :: 0 <= i < |found| && |Split(found[i], '/')| <= 4
  {
    assert forall i :: 0 <= i < |found| ==> (ShallowHit(root)(found[i]).Some? <==> |Split(found[i], '/')| <= 4);
  }

  /** The loops of `_auto_locate_tvsysmap`: the fixed places in order, then the glob hits. */
  method AutoLocateTvSysMap(fs: FileSystem, root: string, found: seq<string>) returns (r: Option<string>)
    ensures r == AutoLocate(fs, root, found)
  {
    r := FindFirst(AutoCandidates(root), ExistingFile(fs));
    if r.None? {
      r := FindFirst(found, ShallowHit(root));
    }
  }

  // ---------------------------------------------------------------- run_tv_standard_check

  /** `(standard or "DVB").strip().upper()`. */
  function StandardOf(arg: string): (s: string)
    ensures IsUpperCase(s)
  {
    var t := if arg == "" then "DVB" else arg;
    UpperIsUpper(Strip(t));
    Upper(Strip(t))
  }

  /** No standard given means DVB. */
  lemma StandardDefault()
    ensures StandardOf("") == "DVB"
  {
    var t := "DVB";
    assert t[0] == 'D' && t[|t| - 1] == 'B';
    LStripSetFixed(t, Whitespace);
    RStripSetFixed(t, Whitespace);
  }

  /**
   * The TvSysMap file and how it was found: the model.ini reference placed
   * under the root, or else the auto-located file.
   */
  function TvSysMapChoice(fs: FileSystem, modelLines: seq<string>, root: string, found: seq<string>): (r: (Option<string>, string))
    ensures TvSysMapAndCountryPath(modelLines).0.Some? ==>
      r == (Some(ResolveFromRoot(root, TvSysMapAndCountryPath(modelLines).0.value)),
            "(from model.ini) " + ResolveFromRoot(root, TvSysMapAndCountryPath(modelLines).0.value))
    ensures TvSysMapAndCountryPath(modelLines).0.None? ==> r.0 == AutoLocate(fs, root, found)
    ensures TvSysMapAndCountryPath(modelLines).0.None? ==>
      r.1 == (if r.0.Some? then "(auto) " + r.0.value else "(auto) NOT FOUND")
  {
    var rel := TvSysMapAndCountryPath(modelLines).0;
    if rel.None? then
      var a := AutoLocate(fs, root, found);
      (a, if a.Some? then "(auto) " + a.value else "(auto) NOT FOUND")
    else
      var t := ResolveFromRoot(root, rel.value);
      (Some(t), "(from model.ini) " + t)
  }

  /** The returned dictionary, without the model.ini path. */
  datatype Report = Report(
    passed: bool, tvSysMap: string, countryXmls: seq<string>, countryPath: string,
    customerAll: seq<string>, customerTarget: seq<string>, allowed: seq<string>, missing: seq<string>,
    details: seq<string>, standard: string)

  /** An early return: a failure with empty country lists and the one error line. */
  function Failure(tvSysMap: string, xmls: seq<string>, countryPath: string, message: string, standard: string): (r: Report)
    ensures !r.passed && r.missing == [] && r.details == [message]
  {
    Report(false, tvSysMap, xmls, countryPath, [], [], [], [], [message], standard)
  }

  function NoTvSysMapMessage(info: string): string
  {
    "[ERROR] 無法取得 TvSysMap 檔案，請確認根目錄存在 TvSysMap/tvSysMapCfgs.xml。嘗試來源：" + info
  }

  function NoListMessage(standard: string, countryPath: string): string
  {
    "[ERROR] 找不到 " + standard + " 名單檔: " + countryPath
  }

  function NoXmlsMessage(tvSysMap: string): string
  {
    "[ERROR] " + Basename(tvSysMap) + ": 沒有 <CountryTvSysMapXML> 指向的檔案"
  }

  function MissingXmlMessage(p: string): string
  {
    "[ERROR] 缺少 countryTvSysMap.xml 檔: " + p
  }

  /** The closing line: a pass, or the missing countries joined with ", ". */
  function Verdict(missing: seq<string>): string
  {
    if missing == [] then "✔ 檢查通過" else "✖ 檢查失敗：以下國家缺漏: " + JoinWith(missing, ", ")
  }

  /** A referenced country XML that does not exist. */
  function MissingFile(fs: FileSystem): string -> Option<string>
  {
    (p: string) => if Exists(fs, p) then None else Some(p)
  }

  function PairsFn(fs: FileSystem, xml: XmlReader): string -> seq<Pair>
  {
    (p: string) => PairsOf(fs, p, xml)
  }

  /** All pairs of the country XML files, file by file. */
  function AllPairs(fs: FileSystem, xmls: seq<string>, xml: XmlReader): seq<Pair>
  {
    Concat(xmls, PairsFn(fs, xml))
  }

  /** `{c for (c, _s, _p) in pairs}`. */
  function AllCountries(pairs: seq<Pair>): set<string>
  {
    set p | p in pairs :: p.country
  }

  /** `{c for (c, s, _p) in pairs if s.startswith(standard)}`. */
  function TargetCountries(pairs: seq<Pair>, standard: string): set<string>
  {
    set p | p in pairs && StartsWith(p.system, standard) :: p.country
  }

  /** `sorted(xs)` of a set of strings: strictly ascending, with exactly its members. */
  predicate SortedAs(s: seq<string>, xs: set<string>)
  {
    StrictlySorted(StringLess, s) && (forall x :: x in s ==> x in xs) && (forall x :: x in xs ==> x in s)
  }

  /** The report of the comparison: the sorted sets, and a pass exactly when nothing is missing. */
  predicate Compared(r: Report, tvSysMap: string, xmls: seq<string>, countryPath: string, standard: string,
                     pairs: seq<Pair>, listed: set<string>)
  {
    r.tvSysMap == tvSysMap && r.countryXmls == xmls && r.countryPath == countryPath && r.standard == standard &&
    SortedAs(r.customerAll, AllCountries(pairs)) &&
    SortedAs(r.customerTarget, TargetCountries(pairs, standard)) &&
    SortedAs(r.allowed, listed) &&
    SortedAs(r.missing, TargetCountries(pairs, standard) - listed) &&
    r.passed == (r.missing == []) && r.details == [Verdict(r.missing)]
  }

  /** A comparison passes exactly when every country set up for the standard is in the list; those are among all the countries set up. */
  lemma ComparedPasses(r: Report, tvSysMap: string, xmls: seq<string>, countryPath: string, standard: string,
                       pairs: seq<Pair>, listed: set<string>)
    requires Compared(r, tvSysMap, xmls, countryPath, standard, pairs, listed)
    ensures r.passed <==> TargetCountries(pairs, standard) <= listed
    ensures forall x :: x in r.customerTarget ==> x in r.customerAll
  {
    if r.missing != [] {
      assert r.missing[0] in TargetCountries(pairs, standard) - listed;
    } else {
      forall x | x in TargetCountries(pairs, standard)
        ensures x in listed
      {
        assert x in listed || x in r.missing;
      }
    }
  }

  /** The comparison of `run_tv_standard_check` once every file is there. */
  method Compare(tvSysMap: string, xmls: seq<string>, countryPath: string, standard: string,
                 pairs: seq<Pair>, listed: set<string>) returns (r: Report)
    ensures Compared(r, tvSysMap, xmls, countryPath, standard, pairs, listed)
  {
    StringLessStrictTotal();
    var customerAll := SortSet(StringLess, AllCountries(pairs));
    var customerTarget := SortSet(StringLess, TargetCountries(pairs, standard));
    var allowed := SortSet(StringLess, listed);
    var missing := SortSet(StringLess, TargetCountries(pairs, standard) - listed);
    r := Report(missing == [], tvSysMap, xmls, countryPath, customerAll, customerTarget, allowed, missing,
                [Verdict(missing)], standard);
  }

  /**
   * The loop over the country XML files: extend the list with what `f`
   * makes of each file, returning at the first one `stop` reports.
   */
  method ExtendUntil<U>(xs: seq<string>, stop: string -> Option<string>, f: string -> seq<U>) returns (hit: Option<string>, out: seq<U>)
    ensures hit == First(xs, stop)
    ensures hit.None? ==> out == Concat(xs, f)
  {
    out := [];
    var i := 0;
    while i < |xs|
      invariant 0 <= i <= |xs|
      invariant out == Concat(xs[..i], f)
      invariant forall j :: 0 <= j < i ==> stop(xs[j]).None?
    {
      var gone := stop(xs[i]);
      if gone.Some? {
        FirstAt(xs, i, stop);
        return gone, out;
      }
      ConcatSnoc(xs, i, f);
      out := out + f(xs[i]);
      i := i + 1;
    }
    assert xs[..|xs|] == xs;
    hit := None;
  }

  /**
   * The report once the TvSysMap file and the country list exist: a failure
   * when the TvSysMap names no country XML or one of them is missing, else
   * the comparison of the pairs read from all of them with the list.
   */
  ghost predicate CountryFilesReport(fs: FileSystem, root: string, standard: string, countryPath: string, tvSysMap: string, xml: XmlReader, r: Report)
  {
    var xmls := CountryXmls(fs, tvSysMap, root, xml);
    (xmls == [] ==> r == Failure(tvSysMap, [], countryPath, NoXmlsMessage(tvSysMap), standard)) &&
    (xmls != [] && First(xmls, MissingFile(fs)).Some? ==>
      r == Failure(tvSysMap, xmls, countryPath, MissingXmlMessage(First(xmls, MissingFile(fs)).value), standard)) &&
    (xmls != [] && First(xmls, MissingFile(fs)).None? ==>
      Compared(r, tvSysMap, xmls, countryPath, standard, AllPairs(fs, xmls, xml), ListedCountries(ReadText(fs, countryPath))))
  }

  /** The stages after the TvSysMap file and the list file are known to exist. */
  method CheckCountryFiles(fs: FileSystem, root: string, standard: string, countryPath: string, tvSysMap: string, xml: XmlReader)
    returns (r: Report)
    ensures CountryFilesReport(fs, root, standard, countryPath, tvSysMap, xml, r)
  {
    var xmls := ResolveCountryTvMapXmls(fs, tvSysMap, root, xml);
    if xmls == [] {
      return Failure(tvSysMap, [], countryPath, NoXmlsMessage(tvSysMap), standard);
    }
    var missing, pairs := ExtendUntil(xmls, MissingFile(fs), PairsFn(fs, xml));
    if missing.Some? {
      return Failure(tvSysMap, xmls, countryPath, MissingXmlMessage(missing.value), standard);
    }
    var listed := ParseCountryList(fs, countryPath);
    r := Compare(tvSysMap, xmls, countryPath, standard, pairs, listed);
  }

  /** The TvSysMap file the check uses and how it was found: named in model.ini, else auto-located. */
  method ChooseTvSysMap(fs: FileSystem, modelLines: seq<string>, root: string, found: seq<string>)
    returns (tv: Option<string>, info: string)
    ensures (tv, info) == TvSysMapChoice(fs, modelLines, root, found)
  {
    var rel, _ := FindTvSysMapAndCountryPath(modelLines);
    if rel.None? {
      tv := AutoLocateTvSysMap(fs, root, found);
      info := if tv.Some? then "(auto) " + tv.value else "(auto) NOT FOUND";
    } else {
      tv := Some(ResolveFromRoot(root, rel.value));
      info := "(from model.ini) " + tv.value;
    }
  }

  /**
   * `run_tv_standard_check(model_ini, root, standard)` for the resolved
   * root, with `found` the glob hits of the auto-location and `xml` the XML
   * reader: the first stage that fails gives an early failure; otherwise
   * the comparison decides.
   */
  method RunTvStandardCheck(fs: FileSystem, modelIni: string, root: string, standard: string, found: seq<string>, xml: XmlReader)
    returns (r: Report)
    ensures var std := StandardOf(standard);
      var (tv, info) := TvSysMapChoice(fs, SplitLines(ReadText(fs, modelIni)), root, found);
      StagesReport(fs, root, std, tv, info, xml, r)
  {
    var std := Upper(Strip(if standard == "" then "DVB" else standard));
    var tv, info := ChooseTvSysMap(fs, SplitLines(ReadText(fs, modelIni)), root, found);
    r := CheckStages(fs, root, std, tv, info, xml);
  }

  /**
   * The stages after the TvSysMap choice: no usable TvSysMap, then no country
   * list for the standard, fail early; otherwise the comparison decides.
   */
  ghost predicate StagesReport(fs: FileSystem, root: string, std: string, tv: Option<string>, info: string, xml: XmlReader, r: Report)
  {
    var cp := CountryPathFor(root, std);
    && ((tv.None? || !Exists(fs, tv.value)) ==>
         r == Failure(if tv.Some? then tv.value else "", [], cp, NoTvSysMapMessage(info), std))
    && (tv.Some? && Exists(fs, tv.value) && !Exists(fs, cp) ==>
         r == Failure(tv.value, [], cp, NoListMessage(std, cp), std))
    && (tv.Some? && Exists(fs, tv.value) && Exists(fs, cp) ==>
         CountryFilesReport(fs, root, std, cp, tv.value, xml, r))
  }

  /** The early failures and the final comparison, for a chosen TvSysMap. */
  method CheckStages(fs: FileSystem, root: string, std: string, tv: Option<string>, info: string, xml: XmlReader)
    returns (r: Report)
    ensures StagesReport(fs, root, std, tv, info, xml, r)
  {
    var countryPath := CountryPathFor(root, std);
    if tv.None? || !Exists(fs, tv.value) {
      return Failure(if tv.Some? then tv.value else "", [], countryPath, NoTvSysMapMessage(info), std);
    }
    if !Exists(fs, countryPath) {
      return Failure(tv.value, [], countryPath, NoListMessage(std, countryPath), std);
    }
    r := CheckCountryFiles(fs, root, std, countryPath, tv.value, xml);
  }

}
