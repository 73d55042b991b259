/**
 * check_AUTO_PCMODE.py: follow model.ini's TvDefaultSettingsPath, find the
 * lines of that file that set `PCMODE=AUTO`, and report the `source=` value
 * each such line carries.
 */
module AutoPcmode {
  import opened Wrappers
  import opened Text
  import opened Files
  import opened Ini
  import opened ModelIni
  import opened Scan
  import opened Dedup

  // ---------------------------------------------------------------- PCMODE_TOKEN_RE

  /**
   * `\bPCMODE\s*=\s*AUTO\b`, case-blind, matching at index `i`: both words
   * sit between non-word characters or the ends of the line.
   */
  predicate TokenAt(s: string, i: nat)
  {
    i + 6 <= |s| && EqualsIgnoreCase(s[i..i + 6], "PCMODE") && (i == 0 || !IsWordChar(s[i - 1])) &&
    var j := SkipSet(s, i + 6, Whitespace);
    j < |s| && s[j] == '=' &&
    var k := SkipSet(s, j + 1, Whitespace);
    k + 4 <= |s| && EqualsIgnoreCase(s[k..k + 4], "AUTO") && (k + 4 == |s| || !IsWordChar(s[k + 4]))
  }

  /** `PCMODE_TOKEN_RE.search(line)` succeeds. */
  predicate HasToken(s: string)
  {
    exists i: nat :: i < |s| && TokenAt(s, i)
  }

  /** The plain spelling, anywhere after a blank or at the start, is found. */
  lemma TokenDeclared(p: string, q: string)
    requires p == [] || !IsWordChar(p[|p| - 1])
    requires q == [] || !IsWordChar(q[0])
    ensures HasToken(p + "PCMODE=AUTO" + q)
  {
    var s := p + "PCMODE=AUTO" + q;
    var i := |p|;
    assert s[i..i + 6] == "PCMODE";
    assert s[i + 6] == '=';
    assert s[i + 7..i + 11] == "AUTO";
    assert '=' !in Whitespace && 'A' !in Whitespace;
    SkipSetAt(s, i + 6, i + 6, Whitespace);
    SkipSetAt(s, i + 7, i + 7, Whitespace);
    assert i > 0 ==> s[i - 1] == p[|p| - 1];
    assert i + 11 < |s| ==> s[i + 11] == q[0];
    assert TokenAt(s, i);
  }

  // ---------------------------------------------------------------- _kv_pairs_from_line

  /** What ends an unquoted value: `,`, blanks, '#' and ';'. */
  const ValueStops: set<char> := Whitespace + {',', '#', ';'}

  /**
   * `\b([A-Z0-9_]+)\s*=\s*(?:"([^"]+)"|([^,\s\t#;]+))`, case-blind, tried at
   * index `i`: the key, the value and where the match ends.  The key is the
   * whole word starting at `i`; a quoted value needs at least one character
   * before its closing quote, and otherwise the value is the run of
   * characters up to the next stop, quotes included.
   */
  function PairAt(s: string, i: nat): (r: Option<(string, string, nat)>)
    requires i <= |s|
    ensures r.Some? ==> i < r.value.2 <= |s| && r.value.0 != "" && AllIn(r.value.0, WordChars)
  {
    if i == |s| || s[i] !in WordChars || (i > 0 && s[i - 1] in WordChars) then None
    else
      var k := SkipSet(s, i, WordChars);
      var e := SkipSet(s, k, Whitespace);
      if e == |s| || s[e] != '=' then None
      else
        var v := SkipSet(s, e + 1, Whitespace);
        var q := if v < |s| && s[v] == '"' then FindChar(s, v + 1, '"') else v;
        SkipSetRun(s, i, WordChars);
        if v < |s| && s[v] == '"' && v + 1 < q < |s| then Some((s[i..k], s[v + 1..q], q + 1))
        else
          var w := SkipOut(s, v, ValueStops);
          if w == v then None else Some((s[i..k], s[v..w], w))
  }


  /**
   * `pattern.finditer(line)`: the pairs of the successive non-overlapping
   * matches from index `i` on, each key lowercased and each value stripped.
   */
  function Pairs(s: string, i: nat): (ps: seq<(string, string)>)
    requires i <= |s|
    ensures forall j :: 0 <= j < |ps| ==> ps[j].0 != "" && IsLowerCase(ps[j].0)
    decreases |s| - i
  {
    if i == |s| then []
    else
      match PairAt(s, i)
      case Some((key, val, e)) =>
        LowerIsLower(key);
        [(Lower(key), Strip(val))] + Pairs(s, e)
      case None => Pairs(s, i + 1)
  }

  /** The dict a loop of `pairs[key] = val` builds: for each key, the value of its last pair. */
  function PairsMap(ps: seq<(string, string)>): (m: map<string, string>)
    ensures forall k :: k in m <==> exists j :: 0 <= j < |ps| && ps[j].0 == k
    decreases |ps|
  {
    if |ps| == 0 then map[]
    else
      var init := ps[..|ps| - 1];
      var m := PairsMap(init);
      assert forall j :: 0 <= j < |init| ==> init[j] == ps[j];
      m[ps[|ps| - 1].0 := ps[|ps| - 1].1]
  }

  /** `_kv_pairs_from_line`: run through the matches, letting each overwrite its key. */
  method KvPairs(line: string) returns (pairs: map<string, string>)
    ensures pairs == PairsMap(Pairs(line, 0))
    ensures forall k :: k in pairs ==> k != "" && IsLowerCase(k)
  {
    var ms := Pairs(line, 0);
    pairs := map[];
    var i := 0;
    while i < |ms|
      invariant 0 <= i <= |ms|
      invariant pairs == PairsMap(ms[..i])
    {
      var (key, val) := ms[i];
      assert ms[..i + 1][..i] == ms[..i];
      pairs := pairs[key := val];
      i := i + 1;
    }
    assert ms[..|ms|] == ms;
  }

  /** The last pair for a key gives its value: an earlier pair with the same key is overwritten. */
  lemma {:induction false} LastPairWins(ps: seq<(string, string)>, j: nat)
    requires j < |ps| && forall l :: j < l < |ps| ==> ps[l].0 != ps[j].0
    ensures ps[j].0 in PairsMap(ps) && PairsMap(ps)[ps[j].0] == ps[j].1
    decreases |ps|
  {
    var init := ps[..|ps| - 1];
    if j < |ps| - 1 {
      assert forall l :: j < l < |init| ==> init[l] == ps[l];
      LastPairWins(init, j);
    }
  }

  /** The quoted alternative read off the indices where the pattern's scans stop. */
  lemma QuotedPairIs(s: string, i: nat, k: nat, e: nat, v: nat, q: nat)
    requires i < k <= e < v < q < |s| && s[i] in WordChars && (i == 0 || s[i - 1] !in WordChars)
    requires SkipSet(s, i, WordChars) == k && SkipSet(s, k, Whitespace) == e && s[e] == '='
    requires SkipSet(s, e + 1, Whitespace) == v && s[v] == '"' && FindChar(s, v + 1, '"') == q && v + 1 < q
    ensures PairAt(s, i) == Some((s[i..k], s[v + 1..q], q + 1))
  {
  }

  /**
   * A word starting the line or following a non-word character, then '=',
   * then a non-empty quoted value: the match is that key and the value
   * without its quotes.
   */
  lemma QuotedPairAt(s: string, i: nat, k: nat, q: nat)
    requires i < k && k + 2 < q < |s| && AllIn(s[i..k], WordChars) && (i == 0 || s[i - 1] !in WordChars)
    requires s[k] == '=' && s[k + 1] == '"' && s[q] == '"' && '"' !in s[k + 2..q]
    ensures PairAt(s, i) == Some((s[i..k], s[k + 2..q], q + 1))
  {
    assert s[i] == s[i..k][0];
    assert '=' !in WordChars && '=' !in Whitespace && '"' !in Whitespace;
    SkipSetOver(s, i, k, WordChars);
    SkipSetAt(s, k, k, Whitespace);
    SkipSetAt(s, k + 1, k + 1, Whitespace);
    assert forall j :: k + 2 <= j < q ==> s[j] == s[k + 2..q][j - k - 2];
    FindCharAt(s, k + 2, q, '"');
    QuotedPairIs(s, i, k, k, k + 1, q);
  }

  // ---------------------------------------------------------------- extract_pcmode_auto_sources

  /** `kv.get("source") or kv.get("src")`, kept only when non-empty (`if src:`). */
  function Source(kv: map<string, string>): (r: Option<string>)
    ensures r.Some? ==> r.value != ""
    ensures "source" in kv && kv["source"] != "" ==> r == Some(kv["source"])
    ensures !("source" in kv && kv["source"] != "") ==>
      r == (if "src" in kv && kv["src"] != "" then Some(kv["src"]) else None)
  {
    if "source" in kv && kv["source"] != "" then Some(kv["source"])
    else if "src" in kv && kv["src"] != "" then Some(kv["src"])
    else None
  }

  /** A matched line: the comment-stripped form of a raw line, when it is non-empty and holds the token. */
  function Matched(raw: string): (r: Option<string>)
    ensures r.Some? ==> r.value != "" && HasToken(r.value) && r.value == StripComment(raw)
  {
    var line := StripComment(raw);
    if line != "" && HasToken(line) then Some(line) else None
  }

  /** The comment-stripped lines that match, in file order (`raw_lines`). */
  function MatchedLines(lines: seq<string>): (ms: seq<string>)
  {
    Collect(lines, Matched)
  }

  /** The source a matched line carries, if any. */
  function LineSource(line: string): (r: Option<string>)
    ensures r.Some? ==> r.value != ""
  {
    Source(PairsMap(Pairs(line, 0)))
  }

  /** The sources of the matched lines, in order, for the lines that carry one. */
  function SourcesOf(ms: seq<string>): (ss: seq<string>)
  {
    Collect(ms, LineSource)
  }

  /**
   * `match_count` counts exactly the lines that match: each kept line is
   * the non-empty, token-holding comment-stripped form of a line of the file,
   * and each such line is kept.
   */
  lemma MatchedLinesExact(lines: seq<string>)
    ensures |MatchedLines(lines)| <= |lines|
    ensures forall j :: 0 <= j < |MatchedLines(lines)| ==> (MatchedLines(lines)[j] != "" && HasToken(MatchedLines(lines)[j]) &&
      exists i :: 0 <= i < |lines| && StripComment(lines[i]) == MatchedLines(lines)[j])
    ensures forall i :: 0 <= i < |lines| && StripComment(lines[i]) != "" && HasToken(StripComment(lines[i])) ==>
      StripComment(lines[i]) in MatchedLines(lines)
  {
    CollectExact(lines, Matched);
  }

  /** There are never more sources than matched lines, and none is empty. */
  lemma SourcesBounded(ms: seq<string>)
    ensures |SourcesOf(ms)| <= |ms|
    ensures forall j :: 0 <= j < |SourcesOf(ms)| ==> SourcesOf(ms)[j] != ""
  {
    CollectExact(ms, LineSource);
    forall j | 0 <= j < |SourcesOf(ms)|
      ensures SourcesOf(ms)[j] != ""
    {
      var i :| 0 <= i < |ms| && LineSource(ms[i]) == Some(SourcesOf(ms)[j]);
    }
  }

  /** One more matched line adds its source, if it carries one. */
  lemma SourcesStep(ms: seq<string>, l: string)
    ensures SourcesOf(ms + [l]) == SourcesOf(ms) + (if LineSource(l).Some? then [LineSource(l).value] else [])
  {
    CollectSnoc(ms + [l], |ms|, LineSource);
    assert (ms + [l])[..|ms|] == ms && (ms + [l])[..|ms| + 1] == ms + [l];
  }

  /**
   * The body of the line loop: strip the comment, skip an empty line, test
   * for the token, and for a matching line take `kv.get("source") or
   * kv.get("src")` from its pairs.
   */
  method ScanLine(raw: string) returns (matched: Option<string>, src: Option<string>)
    ensures matched == Matched(raw)
    ensures src == if matched.Some? then LineSource(matched.value) else None
  {
    var noComment := StripComment(raw);
    matched, src := None, None;
    if noComment != "" && HasToken(noComment) {
      matched := Some(noComment);
      var kv := KvPairs(noComment);
      src := Source(kv);
    }
  }

  /**
   * `extract_pcmode_auto_sources` over the lines of the file: count the
   * matched lines, keep them, and collect the source of each.
   */
  method ExtractSources(lines: seq<string>) returns (sources: seq<string>, count: nat, rawLines: seq<string>)
    ensures rawLines == MatchedLines(lines) && count == |rawLines|
    ensures sources == SourcesOf(rawLines)
    ensures |sources| <= count
  {
    sources, count, rawLines := [], 0, [];
    var i := 0;
    assert lines[..0] == [];
    while i < |lines|
      invariant 0 <= i <= |lines|
      invariant rawLines == MatchedLines(lines[..i]) && count == |rawLines|
      invariant sources == SourcesOf(rawLines)
    {
      var matched, src := ScanLine(lines[i]);
      CollectSnoc(lines, i, Matched);
      if matched.Some? {
        count := count + 1;
        SourcesStep(rawLines, matched.value);
        rawLines := rawLines + [matched.value];
        if src.Some? {
          sources := sources + [src.value];
        }
      }
      i := i + 1;
    }
    assert lines[..|lines|] == lines;
    SourcesBounded(rawLines);
  }

  // ---------------------------------------------------------------- build_result

  const UndeclaredNote: string := "model.ini 未找到 TvDefaultSettingsPath"
  const NoSourceNote: string := "找到 PCMODE=AUTO 行，但同行未見 source= 鍵值"

  datatype Report = Report(
    defaultPath: string,
    matchCount: nat,
    sourcesUnique: seq<string>,
    rawLines: seq<string>,
    resultText: string,
    notes: string,
    missing: seq<string>)

  /**
   * `build_result`: the sources without repeats, in first-seen order and
   * joined with ", " ("N/A" when there are none), a note when the path is
   * undeclared and one when lines matched without a source, and the path
   * as missing when it is declared but absent.
   */
  method BuildResult(fs: FileSystem, defaultPath: Option<string>, sources: seq<string>, matchCount: nat, rawLines: seq<string>)
    returns (r: Report)
    ensures r.sourcesUnique == Unique(sources)
    ensures sources == [] ==> r.resultText == "N/A"
    ensures sources != [] ==> r.resultText == JoinWith(Unique(sources), ", ")
    ensures var ns := (if defaultPath.None? then [UndeclaredNote] else []) +
                      (if matchCount > 0 && sources == [] then [NoSourceNote] else []);
      r.notes == JoinWith(ns, "; ")
    ensures r.missing == (if defaultPath.Some? && !Exists(fs, defaultPath.value) then [defaultPath.value] else [])
    ensures r.matchCount == matchCount && r.rawLines == rawLines
    ensures r.defaultPath == (if defaultPath.Some? then defaultPath.value else "")
  {
    var missing: seq<string> := [];
    var notes: seq<string> := [];
    if defaultPath.None? {
      notes := notes + [UndeclaredNote];
    } else if !Exists(fs, defaultPath.value) {
      missing := missing + [defaultPath.value];
    }
    var uniq := Deduplicate(sources);
    var resultText := if uniq != [] then JoinWith(uniq, ", ") else "N/A";
    if matchCount > 0 && uniq == [] {
      notes := notes + [NoSourceNote];
    }
    r := Report(if defaultPath.Some? then defaultPath.value else "", matchCount, uniq, rawLines,
      resultText, JoinWith(notes, "; "), missing);
  }

  // ---------------------------------------------------------------- main

  /**
   * `main` without the console and the workbook: a missing model.ini stops
   * the run (None); otherwise the declared file is resolved, scanned when it
   * exists, and the result built.
   */
  method CheckAutoPcmode(fs: FileSystem, modelIni: string, root: string) returns (r: Option<Report>)
    ensures r.None? <==> !Exists(fs, modelIni)
    ensures r.Some? ==>
      var path := DeclaredPath(ReadLines(fs, modelIni).value, root, "TvDefaultSettingsPath");
      var lines := if path.Some? && Exists(fs, path.value) then IterLines(fs, path.value).value else [];
      r.value.rawLines == MatchedLines(lines) && r.value.matchCount == |MatchedLines(lines)| &&
      r.value.sourcesUnique == Unique(SourcesOf(MatchedLines(lines)))
  {
    var modelLines := ReadLines(fs, modelIni);
    if modelLines.None? {
      return None;
    }
    var path := DeclaredPath(modelLines.value, root, "TvDefaultSettingsPath");
    var sources: seq<string>, count: nat, rawLines: seq<string> := [], 0, [];
    if path.Some? && Exists(fs, path.value) {
      sources, count, rawLines := ExtractSources(IterLines(fs, path.value).value);
    }
    var report := BuildResult(fs, path, sources, count, rawLines);
    r := Some(report);
  }

  // ---------------------------------------------------------------- properties

  /**
   * A source is reported exactly when some line of the file matches and
   * carries it, and it is reported once.
   */
  lemma SourcesReported(lines: seq<string>, src: string)
    ensures NoDup(Unique(SourcesOf(MatchedLines(lines))))
    ensures src in Unique(SourcesOf(MatchedLines(lines))) <==>
      (exists i :: 0 <= i < |lines| && Matched(lines[i]).Some? && LineSource(Matched(lines[i]).value) == Some(src))
  {
    CollectCompose(lines, Matched, LineSource, src);
  }
}
