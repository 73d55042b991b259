/**
 * check_logo_path.py: the files model.ini names under PowerLogoPath and
 * BrandLogoPath must both exist under the project root.
 */
module Logo {
  import opened Wrappers
  import opened Text
  import opened Paths
  import opened Files
  import opened Ini
  import opened Search
  import opened Scan

  const PowerKey: string := "PowerLogoPath"
  const BrandKey: string := "BrandLogoPath"

  // ---------------------------------------------------------------- extract_ini_path

  /*
   * Both patterns of `extract_ini_path` are searched with `re.MULTILINE` over
   * the whole file, not line by line: `^` marks where a match may start, and
   * each pattern below is applied to the text from such a line start to the
   * end of the file.  Its blanks and its value run may therefore cross line
   * ends.
   */

  /** `\s*KEY\s*=\s*"([^"]+)"` at the start of `t`, case-blind: the quoted text, trimmed. */
  function QuotedDecl(t: string, key: string): (r: Option<string>)
    ensures r.Some? ==> '"' !in r.value
  {
    match KeyEqRest(LStrip(t), key, true)
    case None => None
    case Some(b) =>
      match QuotedAt(b, false)
      case None => None
      case Some(g) => NotInStrip(g, '"'); Some(Strip(g))
  }

  const BareStop: set<char> := Whitespace + {'#', ';'}

  /** `\s*KEY\s*=\s*([^\s#;]+)` at the start of `t`, case-blind: the run up to a blank, '#' or ';', when it is not empty. */
  function BareDecl(t: string, key: string): (r: Option<string>)
    ensures r.Some? ==> r.value != [] && NoneIn(r.value, BareStop)
  {
    match KeyEqRest(LStrip(t), key, true)
    case None => None
    case Some(b) =>
      var k := SetIndex(b, BareStop);
      if k > 0 then Some(b[..k]) else None
  }

  /**
   * `extract_ini_path`: the quoted pattern from the first line start where it
   * matches; only when it matches nowhere, the bare pattern from the first line
   * start where that one matches.
   */
  function ExtractIniPath(content: string, key: string): (r: Option<string>)
    ensures r.Some? <==> exists p: nat :: LineStart(content, p) && (QuotedDecl(content[p..], key).Some? || BareDecl(content[p..], key).Some?)
    ensures (exists p: nat :: LineStart(content, p) && QuotedDecl(content[p..], key).Some?) ==>
      exists p: nat :: FirstLineMatch(content, t => QuotedDecl(t, key), p) && r == QuotedDecl(content[p..], key)
    ensures (forall p: nat :: LineStart(content, p) ==> QuotedDecl(content[p..], key).None?) ==>
      r.None? || exists p: nat :: FirstLineMatch(content, t => BareDecl(t, key), p) && r == BareDecl(content[p..], key)
    ensures r.Some? ==> '"' !in r.value || NoneIn(r.value, BareStop)
  {
    match LineSearch(content, t => QuotedDecl(t, key))
    case Some(v) => Some(v)
    case None => LineSearch(content, t => BareDecl(t, key))
  }

  /**
   * A declaration at the head of the text is found whatever follows: the
   * blanks `b` after '=' may hold line ends, and so may the quoted value `v`,
   * which runs to the next '"' even on a later line.
   */
  lemma QuotedDeclaredAtStart(key: string, b: string, v: string, rest: string)
    requires key != [] && !IsSpace(key[0]) && IsBlank(b)
    requires '"' !in v && v != []
    ensures ExtractIniPath(key + "=" + b + "\"" + v + "\"" + rest, key) == Some(Strip(v))
  {
    var content := key + "=" + b + "\"" + v + "\"" + rest;
    var tail := "\"" + v + "\"" + rest;
    assert content == key + "=" + (b + tail);
    LeadingNotBlank(content, key);
    KeyEqRestPadded(key, b + tail);
    LStripPadded(b, tail);
    QuotedAtLead(v, rest, false);
    assert content[0..] == content;
    LineSearchAt(content, t => QuotedDecl(t, key), 0);
  }

  /** `KEY=` followed by any text leaves that text, left-stripped. */
  lemma KeyEqRestPadded(key: string, x: string)
    requires key != []
    ensures KeyEqRest(key + "=" + x, key, true) == Some(LStrip(x))
  {
    var t := key + "=" + x;
    assert t[..|key|] == key;
    assert KeyPrefix(t, key, true);
    assert t[|key|..] == "=" + x;
    AfterEqAtStart(x);
  }

  /** An unquoted declaration is passed over for a quoted one on a later line. */
  lemma QuotedBeatsEarlierBare(key: string, w: string, v: string)
    requires key != [] && !IsSpace(key[0]) && w != [] && w[0] != '"' && !IsSpace(w[0]) && '\n' !in key + w
    requires '"' !in v && v != []
    ensures ExtractIniPath((key + "=" + w) + "\n" + (key + "=\"" + v + "\""), key) == Some(Strip(v))
  {
    var first := key + "=" + w;
    var second := key + "=\"" + v + "\"";
    var content := first + "\n" + second;
    var p := |first| + 1;
    SecondLineStart(key, w, second);
    assert content[0..] == content;
    assert content == key + "=" + (w + ("\n" + second));
    BareLineNotQuoted(key, w + ("\n" + second));
    QuotedLine(key, v);
    assert FirstLineMatch(content, t => QuotedDecl(t, key), p);
    LineSearchAt(content, t => QuotedDecl(t, key), p);
  }

  /** After a first line without '\n', the next line start is the second line. */
  lemma SecondLineStart(key: string, w: string, second: string)
    requires '\n' !in key + w
    ensures var first := key + "=" + w; var content := first + "\n" + second;
      content[|first| + 1..] == second && LineStart(content, |first| + 1) &&
      forall q: nat :: 0 < q <= |first| ==> !LineStart(content, q)
  {
    var first := key + "=" + w;
    var content := first + "\n" + second;
    forall q: nat | 0 < q <= |first|
      ensures !LineStart(content, q)
    {
      assert content[q - 1] == first[q - 1];
      assert first[q - 1] in key + w || first[q - 1] == '=';
    }
  }

  lemma BareLineNotQuoted(key: string, w: string)
    requires key != [] && !IsSpace(key[0]) && w != [] && w[0] != '"' && !IsSpace(w[0])
    ensures QuotedDecl(key + "=" + w, key).None?
  {
    KeyEqRestDeclared(key, w, true);
    LeadingNotBlank(key + "=" + w, key);
  }

  lemma QuotedLine(key: string, v: string)
    requires key != [] && !IsSpace(key[0]) && '"' !in v && v != []
    ensures QuotedDecl(key + "=\"" + v + "\"", key) == Some(Strip(v))
  {
    var q := "\"" + v + "\"";
    var second := key + "=" + q;
    assert key + "=\"" + v + "\"" == second;
    LeadingNotBlank(second, key);
    KeyEqRestDeclared(key, q, true);
    QuotedAtQuoted(v, false);
  }

  lemma LeadingNotBlank(line: string, key: string)
    requires key != [] && StartsWith(line, key) && !IsSpace(key[0])
    ensures LStrip(line) == line
  {
    assert line[0] == key[0];
    LStripSetFixed(line, Whitespace);
  }

  // ---------------------------------------------------------------- mapping

  /** `s.strip().strip('"').strip("'")`. */
  function Unquoted(p: string): string
  {
    StripSet(StripSet(Strip(p), {'"'}), {'\''})
  }

  /** ... and then `.replace('\\', '/')`. */
  function Cleaned(p: string): (s: string)
    ensures '\\' !in s
  {
    ReplaceChar(Unquoted(p), '\\', '/')
  }

  const MntPrefix: string := "/mnt/vendor/tvconfigs/"
  const RootPrefix: string := "/tvconfigs/"
  const RelPrefix: string := "tvconfigs/"

  /**
   * The prefix rules of `_map_to_tvconfigs_rel` on the cleaned path: the text
   * after the first of the three tvconfigs anchors that begins it, else the
   * path without its leading '/' characters.  Each anchor is exactly what
   * precedes the result.
   */
  function MapCleaned(s: string): (r: string)
    ensures '\\' !in s ==> '\\' !in r
    ensures StartsWith(s, MntPrefix) ==> s == MntPrefix + r
    ensures !StartsWith(s, MntPrefix) && StartsWith(s, RootPrefix) ==> s == RootPrefix + r
    ensures !StartsWith(s, MntPrefix) && !StartsWith(s, RootPrefix) && StartsWith(s, RelPrefix) ==> s == RelPrefix + r
    ensures !StartsWith(s, MntPrefix) && !StartsWith(s, RootPrefix) && !StartsWith(s, RelPrefix) ==>
      r == LStripSet(s, {'/'}) && (r == [] || r[0] != '/')
  {
    var k :=
      if StartsWith(s, MntPrefix) then |MntPrefix|
      else if StartsWith(s, RootPrefix) then |RootPrefix|
      else if StartsWith(s, RelPrefix) then |RelPrefix|
      else |s| - |LStripSet(s, {'/'})|;
    assert s == s[..k] + s[k..];
    NotInDrop(s, k, '\\');
    s[k..]
  }

  lemma NotInDrop(s: string, k: nat, c: char)
    requires k <= |s|
    ensures c !in s ==> c !in s[k..]
  {
    assert forall i :: 0 <= i < |s[k..]| ==> s[k..][i] == s[k + i];
  }

  /** `_map_to_tvconfigs_rel`: no path for a missing or empty value, else the rules above on the cleaned value. */
  function MapToTvconfigsRel(iniPath: Option<string>): (r: Option<string>)
    ensures iniPath.None? || iniPath.value == "" <==> r.None?
    ensures r.Some? ==> '\\' !in r.value && r.value == MapCleaned(Cleaned(iniPath.value))
  {
    if iniPath.None? || iniPath.value == "" then None
    else Some(MapCleaned(Cleaned(iniPath.value)))
  }

  datatype Resolved = Resolved(abs: string, rel: string)

  /** `resolve_tvconfigs_path`: `(root / rel).resolve()` with the relative display path; none when rel is empty. */
  function ResolveTvconfigsPath(root: string, iniPath: Option<string>): (r: Option<Resolved>)
    ensures r.None? <==> MapToTvconfigsRel(iniPath).None? || MapToTvconfigsRel(iniPath).value == ""
    ensures r.Some? ==> r.value.rel == MapToTvconfigsRel(iniPath).value && r.value.abs == NormPath(Join(root, r.value.rel))
  {
    match MapToTvconfigsRel(iniPath)
    case None => None
    case Some(rel) => if rel == "" then None else Some(Resolved(NormPath(Join(root, rel)), rel))
  }

  /** `check_exists`: a resolved path naming a file. */
  predicate CheckExists(fs: FileSystem, p: Option<Resolved>)
  {
    p.Some? && Exists(fs, p.value.abs)
  }

  /** The verdict of `main`: PASS iff both logo paths resolve to files that exist. */
  function CheckLogo(fs: FileSystem, root: string, content: string): (passed: bool)
    ensures passed ==> ExtractIniPath(content, PowerKey).Some? && ExtractIniPath(content, BrandKey).Some?
    ensures passed <==>
      CheckExists(fs, ResolveTvconfigsPath(root, ExtractIniPath(content, PowerKey))) &&
      CheckExists(fs, ResolveTvconfigsPath(root, ExtractIniPath(content, BrandKey)))
  {
    CheckExists(fs, ResolveTvconfigsPath(root, ExtractIniPath(content, PowerKey))) &&
    CheckExists(fs, ResolveTvconfigsPath(root, ExtractIniPath(content, BrandKey)))
  }

  lemma NotStartsWithAt(s: string, p: string, i: nat)
    requires i < |p| && i < |s| && s[i] != p[i]
    ensures !StartsWith(s, p)
  {
  }

  /** The conventional declaration `/tvconfigs/x` maps to `x`. */
  lemma AnchorRel(rel: string)
    ensures MapCleaned(RootPrefix + rel) == rel
  {
    var p := RootPrefix + rel;
    AnchorNotMnt(rel);
    assert StartsWith(p, RootPrefix) by { assert p[..|RootPrefix|] == RootPrefix; }
    AppendCancel(RootPrefix, MapCleaned(p), rel);
  }

  lemma AppendCancel(a: string, x: string, y: string)
    requires a + x == a + y
    ensures x == y
  {
    assert x == (a + x)[|a|..];
    assert y == (a + y)[|a|..];
  }

  lemma AnchorNotMnt(rel: string)
    ensures !StartsWith(RootPrefix + rel, MntPrefix)
  {
    var p := RootPrefix + rel;
    assert p[1] == 't';
    NotStartsWithAt(p, MntPrefix, 1);
  }
}
