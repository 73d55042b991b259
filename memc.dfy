/**
 * check_ostable_memc.py: model.ini's `PQ_OSD` (key case-sensitive) names an
 * OSD table; in it, `[PictureModeData_Default]` and `[PictureModeData_VO]`
 * are brace-delimited blocks, each holding a `[dolby_bright]` sub-block
 * (name case-blind) whose `MEMC_Level` must be 0.  The blocks are found by
 * counting braces from the first '{' after each header.
 */
module Memc {
  import opened Wrappers
  import opened Text
  import opened Files
  import opened Ini
  import opened Scan
  import opened Dedup
  import opened Resolvers

  // ---------------------------------------------------------------- find_pq_osd_value_case_sensitive

  const PqOsdKey: string := "PQ_OSD"

  /** `[^"]+` followed by `"?\s*$`: the run `t` ends the text, or only a closing quote and blanks follow it. */
  predicate RunEnds(after: string)
  {
    after == "" || (after[0] == '"' && IsBlank(after[1..]))
  }

  /**
   * `\s*"?([^"]+)"?\s*$` on what follows the '=', with the regex engine's
   * backtracking written out: an opening quote is taken when there is one,
   * the group is the longest quote-free run after it, and it is returned
   * trimmed.  When that fails, giving back a blank before the quote (or a
   * lone trailing blank) lets the group be that blank, which trims to "".
   */
  function QuotedValue(rest: string): (r: Option<string>)
    ensures r.Some? ==> '"' !in r.value
  {
    var v := SkipSet(rest, 0, Whitespace);
    if v == |rest| then
      if v > 0 then Some("") else None
    else if rest[v] == '"' then
      var t := Before(rest[v + 1..], '"');
      if t != "" && RunEnds(rest[v + 1 + |t|..]) then
        NotInStrip(t, '"');
        Some(Strip(t))
      else if v > 0 && IsBlank(rest[v + 1..]) then Some("")
      else None
    else
      var t := Before(rest[v..], '"');
      if RunEnds(rest[v + |t|..]) then
        NotInStrip(t, '"');
        Some(Strip(t))
      else None
  }

  /** `^\s*PQ_OSD\s*=\s*"?([^"]+)"?\s*$` without IGNORECASE, on a line with its comment cut off. */
  function PqOsdLine(raw: string): (r: Option<string>)
    ensures r.Some? ==> '"' !in r.value
  {
    match KeyLine(StripComment(raw), PqOsdKey, Whitespace)
    case None => None
    case Some(rest) => QuotedValue(rest)
  }

  /**
   * `^\s*KEY\s*=` on a line whose comment is already cut off, with `blanks`
   * the characters `\s` matches: the text after the '='.
   */
  function KeyLine(line: string, key: string, blanks: set<char>): (r: Option<string>)
    ensures r.Some? ==> |r.value| < |line|
  {
    if line == "" then None
    else
      var i := SkipSet(line, 0, blanks);
      if i + |key| <= |line| && line[i..i + |key|] == key then
        var j := SkipSet(line, i + |key|, blanks);
        if j < |line| && line[j] == '=' then Some(line[j + 1..]) else None
      else None
  }

  /** Line `i` is the first of `ls` to match, and it gives `r`. */
  predicate FirstPqOsdLine(ls: seq<string>, i: nat, r: Option<string>)
  {
    i < |ls| && PqOsdLine(ls[i]) == r && forall j :: 0 <= j < i ==> PqOsdLine(ls[j]).None?
  }

  /** `find_pq_osd_value_case_sensitive`: the value of the first line that matches; the first match wins. */
  function FindPqOsdValue(text: string): (r: Option<string>)
    ensures r.Some? ==> '"' !in r.value
    ensures r.Some? ==> exists i :: FirstPqOsdLine(SplitLines(text), i, r)
    ensures r.None? ==> forall i :: 0 <= i < |SplitLines(text)| ==> PqOsdLine(SplitLines(text)[i]).None?
  {
    var ls := SplitLines(text);
    var i := FirstIndex(ls, PqOsdLine);
    if i < |ls| then
      assert FirstPqOsdLine(ls, i, PqOsdLine(ls[i]));
      PqOsdLine(ls[i])
    else None
  }

  /** A value with no quote, no comment character and no blank at its ends. */
  predicate PlainValue(v: string)
  {
    v != "" && '"' !in v && '#' !in v && ';' !in v && v[0] !in Whitespace && v[|v| - 1] !in Whitespace
  }

  /** `StripComment` leaves a comment-free line that starts and ends with a non-blank as it is. */
  lemma StripCommentFixed(line: string)
    requires '#' !in line && ';' !in line
    requires line != "" && line[0] !in Whitespace && line[|line| - 1] !in Whitespace
    ensures StripComment(line) == line
  {
    assert Before(line, '#') == line;
    assert Before(line, ';') == line;
    StripSetFixed(line, Whitespace);
  }

  /** A blank, then `"v"`: the group is `v`. */
  lemma QuotedValueQuoted(v: string)
    requires PlainValue(v)
    ensures QuotedValue(" \"" + v + "\"") == Some(v)
  {
    var rest := " \"" + v + "\"";
    SkipSetAt(rest, 0, 1, Whitespace);
    assert rest[2..] == v + "\"";
    CharIndexAt(v + "\"", '"', |v|);
    assert Before(rest[2..], '"') == v;
    assert rest[2 + |v|..] == "\"";
    StripSetFixed(v, Whitespace);
    QuotedGroupIs(rest, v);
  }

  /** Blanks up to a quote at 1, then `v` up to a closing quote that ends the text: the group is `v`. */
  lemma QuotedGroupIs(rest: string, v: string)
    requires 2 <= |rest| && SkipSet(rest, 0, Whitespace) == 1 && rest[1] == '"'
    requires v != "" && Before(rest[2..], '"') == v && 2 + |v| <= |rest| && rest[2 + |v|..] == "\""
    requires Strip(v) == v
    ensures QuotedValue(rest) == Some(v)
  {
    assert RunEnds(rest[2 + |v|..]) by {
      assert rest[2 + |v|..][1..] == [];
    }
  }

  /** `PQ_OSD = "v"` reads back as `v`. */
  lemma PqOsdQuotedRoundTrip(v: string)
    requires PlainValue(v)
    ensures PqOsdLine(PqOsdKey + " = \"" + v + "\"") == Some(v)
  {
    var line := PqOsdKey + " = \"" + v + "\"";
    QuotedLineShape(v);
    QuotedValueQuoted(v);
    PqOsdLineOf(line, 7);
  }

  /** `PQ_OSD = "v"` has no comment, the key at its start and its '=' at 7. */
  lemma QuotedLineShape(v: string)
    requires PlainValue(v)
    ensures var line := PqOsdKey + " = \"" + v + "\"";
      && StripComment(line) == line && line[0..6] == PqOsdKey && line[7] == '='
      && SkipSet(line, 0, Whitespace) == 0 && SkipSet(line, 6, Whitespace) == 7
      && line[8..] == " \"" + v + "\""
  {
    var line := PqOsdKey + " = \"" + v + "\"";
    assert line[0] == 'P' && line[|line| - 1] == '"';
    assert '#' !in line && ';' !in line by {
      assert line == PqOsdKey + " = \"" + v + "\"";
    }
    StripCommentFixed(line);
    QuotedLineBlanks(line, v);
  }

  /** The blanks of `PQ_OSD = "v"`: none before the key, one before the '=' at 7. */
  lemma QuotedLineBlanks(line: string, v: string)
    requires line == PqOsdKey + " = \"" + v + "\""
    ensures line[0..6] == PqOsdKey && line[7] == '='
    ensures SkipSet(line, 0, Whitespace) == 0 && SkipSet(line, 6, Whitespace) == 7
    ensures line[8..] == " \"" + v + "\""
  {
    assert line[0..6] == PqOsdKey && line[6] == ' ' && line[7] == '=';
    KeyAtStart(line);
    SkipSetAt(line, 6, 7, Whitespace);
    assert line[8..] == " \"" + v + "\"";
  }


  /** `PQ_OSD=v` without quotes reads back as `v` too. */
  lemma PqOsdBareRoundTrip(v: string)
    requires PlainValue(v)
    ensures PqOsdLine(PqOsdKey + "=" + v) == Some(v)
  {
    var line := PqOsdKey + "=" + v;
    assert line[0] == 'P' && line[|line| - 1] == v[|v| - 1];
    assert line[0..6] == PqOsdKey && line[6] == '=';
    StripCommentFixed(line);
    KeyAtStart(line);
    SkipSetAt(line, 6, 6, Whitespace);
    assert line[7..] == v;
    QuotedValueBare(v);
    PqOsdLineOf(line, 6);
  }

  /** A line that starts with the key is not indented. */
  lemma KeyAtStart(line: string)
    requires 6 <= |line| && line[0..6] == PqOsdKey
    ensures SkipSet(line, 0, Whitespace) == 0
  {
    assert line[0] == 'P';
    SkipSetAt(line, 0, 0, Whitespace);
  }

  /** A comment-free line with the key at its start and the '=' at `j` reads as the value after the '='. */
  lemma PqOsdLineOf(line: string, j: nat)
    requires StripComment(line) == line && 6 <= |line| && line[0..6] == PqOsdKey
    requires SkipSet(line, 0, Whitespace) == 0 && SkipSet(line, 6, Whitespace) == j
    requires j < |line| && line[j] == '='
    ensures PqOsdLine(line) == QuotedValue(line[j + 1..])
  {
    KeyLineOf(line, PqOsdKey, j, Whitespace);
  }

  lemma KeyLineOf(line: string, key: string, j: nat, blanks: set<char>)
    requires |key| <= |line| && line[0..|key|] == key
    requires SkipSet(line, 0, blanks) == 0 && SkipSet(line, |key|, blanks) == j
    requires j < |line| && line[j] == '='
    ensures KeyLine(line, key, blanks) == Some(line[j + 1..])
  {
  }

  /** A plain value with no quotes is its own group. */
  lemma QuotedValueBare(v: string)
    requires PlainValue(v)
    ensures QuotedValue(v) == Some(v)
  {
    SkipSetAt(v, 0, 0, Whitespace);
    assert v[0..] == v;
    assert CharIndex(v, '"') == |v|;
    assert v[..|v|] == v;
    StripSetFixed(v, Whitespace);
  }

  /** A line whose first character is neither blank nor a comment character keeps it first. */
  lemma StripCommentHead(raw: string)
    requires raw != "" && raw[0] !in Whitespace && raw[0] != '#' && raw[0] != ';'
    ensures StripComment(raw) != "" && StripComment(raw)[0] == raw[0]
  {
    var a := Before(raw, '#');
    assert a[0] == raw[0];
    var b := Before(a, ';');
    assert b[0] == raw[0];
    LStripSetFixed(b, Whitespace);
  }

  /** The key is case-sensitive: `pq_osd = v` is not read. */
  lemma PqOsdLowerCaseIgnored(v: string)
    ensures PqOsdLine("pq_osd = " + v) == None
  {
    var raw := "pq_osd = " + v;
    StripCommentHead(raw);
    var line := StripComment(raw);
    assert line[0] == 'p' && 'p' !in Whitespace;
    SkipSetAt(line, 0, 0, Whitespace);
    assert !(6 <= |line| && line[0..6] == PqOsdKey) by {
      if 6 <= |line| {
        assert line[0..6][0] == 'p' != PqOsdKey[0];
      }
    }
  }

  // ---------------------------------------------------------------- brace counting

  /** What one character does to the brace depth. */
  function Delta(c: char): int
  {
    if c == '{' then 1 else if c == '}' then -1 else 0
  }

  /** The number of '{' less the number of '}' in `s`. */
  function Balance(s: string): int
    decreases |s|
  {
    if |s| == 0 then 0 else Balance(s[..|s| - 1]) + Delta(s[|s| - 1])
  }

  lemma {:induction false} BalanceConcat(a: string, b: string)
    ensures Balance(a + b) == Balance(a) + Balance(b)
    decreases |b|
  {
    if |b| == 0 {
      assert a + b == a;
    } else {
      BalanceConcat(a, b[..|b| - 1]);
      assert (a + b)[..|a + b| - 1] == a + b[..|b| - 1];
    }
  }

  /** The depth after one more character of the text. */
  lemma BalanceSnoc(txt: string, b: nat, i: nat)
    requires b <= i < |txt|
    ensures Balance(txt[b..i + 1]) == Balance(txt[b..i]) + Delta(txt[i])
  {
    assert txt[b..i + 1][..i - b] == txt[b..i];
  }

  /** A position `k` past the opening brace at `b` where the depth is back to zero, as the index of the brace closing there. */
  function ClosesAt(txt: string, b: nat, k: nat): (r: Option<nat>)
    ensures r.Some? ==> b < k <= |txt| && r.value == k - 1
  {
    if b < k <= |txt| && Balance(txt[b..k]) == 0 then Some(k - 1) else None
  }

  /** `CloseFinder(txt, b)` is the test the scan applies at each position. */
  function CloseFinder(txt: string, b: nat): nat -> Option<nat>
  {
    (k: nat) => ClosesAt(txt, b, k)
  }

  /** The brace that closes the one at `b`: where the depth first returns to zero. */
  function CloseOf(txt: string, b: nat): (r: Option<nat>)
    requires b < |txt|
  {
    SearchFrom(|txt|, b + 1, CloseFinder(txt, b))
  }

  /**
   * The depth-counting loop of `_iter_top_blocks` and `_find_sub_block`, from
   * the opening brace at `b` to the brace that brings the depth back to zero.
   */
  method CloseBrace(txt: string, b: nat) returns (c: Option<nat>)
    requires b < |txt| && txt[b] == '{'
    ensures c == CloseOf(txt, b)
  {
    var depth := 0;
    var i := b;
    while i < |txt|
      invariant b <= i <= |txt|
      invariant depth == Balance(txt[b..i])
      invariant i > b ==> depth > 0
      invariant forall k :: b < k <= i ==> CloseFinder(txt, b)(k).None?
    {
      var ch := txt[i];
      BalanceSnoc(txt, b, i);
      if ch == '{' {
        depth := depth + 1;
      } else if ch == '}' {
        depth := depth - 1;
        if depth == 0 {
          SearchIndexIs(|txt|, b + 1, i + 1, CloseFinder(txt, b));
          return Some(i);
        }
      }
      i := i + 1;
    }
    SearchIndexIs(|txt|, b + 1, |txt| + 1, CloseFinder(txt, b));
    return None;
  }

  /** The depth stays above zero for as long as it never returns to zero. */
  lemma {:induction false} DepthPositive(txt: string, b: nat, k: nat)
    requires b < k <= |txt| && txt[b] == '{'
    requires forall j :: b < j <= k ==> Balance(txt[b..j]) != 0
    ensures forall j :: b < j <= k ==> Balance(txt[b..j]) > 0
    decreases k - b
  {
    if k == b + 1 {
      assert txt[b..k] == [txt[b]];
      assert txt[b..k][..0] == [];
    } else {
      DepthPositive(txt, b, k - 1);
      BalanceSnoc(txt, b, k - 1);
    }
  }

  /** Past the opening brace the depth is one more than the balance of what follows it. */
  lemma BalanceAfterOpen(txt: string, b: nat, k: nat)
    requires b < k <= |txt| && txt[b] == '{'
    ensures Balance(txt[b..k]) == 1 + Balance(txt[b + 1..k])
  {
    assert txt[b..k] == [txt[b]] + txt[b + 1..k];
    BalanceConcat([txt[b]], txt[b + 1..k]);
    assert [txt[b]][..0] == [];
  }

  /** The lowest depth any prefix of `s` reaches, the empty prefix included. */
  function MinDepth(s: string): (m: int)
    ensures m <= 0 && m <= Balance(s)
    decreases |s|
  {
    if |s| == 0 then 0
    else
      var m := MinDepth(s[..|s| - 1]);
      if Balance(s) < m then Balance(s) else m
  }

  /** The lowest depth is not negative exactly when no prefix of `s` has more '}' than '{'. */
  lemma {:induction false} MinDepthNonNeg(s: string)
    ensures MinDepth(s) >= 0 <==> forall k :: 0 <= k <= |s| ==> Balance(s[..k]) >= 0
    decreases |s|
  {
    assert s[..|s|] == s;
    if |s| > 0 {
      var init := s[..|s| - 1];
      MinDepthNonNeg(init);
      assert forall k :: 0 <= k <= |init| ==> init[..k] == s[..k];
    } else {
      assert s[..0] == s;
    }
  }

  /** Every prefix has at least as many '{' as '}', and the whole has as many of each. */
  predicate Balanced(s: string)
  {
    Balance(s) == 0 && MinDepth(s) >= 0
  }

  /** The '}' at `c` closes the '{' at `b`, with balanced text between them. */
  predicate ClosedAt(txt: string, b: nat, c: nat)
  {
    b < c < |txt| && txt[c] == '}' && Balanced(txt[b + 1..c])
  }

  /** The depth counted from the '{' at `b` stays above zero to the end of the text. */
  predicate NeverCloses(txt: string, b: nat)
  {
    forall k :: b < k <= |txt| ==> Balance(txt[b..k]) > 0
  }

  /** Between a '{' and the first place its depth returns to zero, the text is balanced. */
  lemma InnerBalanced(txt: string, b: nat, c: nat)
    requires b < c < |txt| && txt[b] == '{'
    requires Balance(txt[b..c + 1]) == 0
    requires forall j :: b < j <= c ==> Balance(txt[b..j]) > 0
    ensures txt[c] == '}' && Balanced(txt[b + 1..c])
  {
    BalanceSnoc(txt, b, c);
    var inner := txt[b + 1..c];
    BalanceAfterOpen(txt, b, c + 1);
    BalanceAfterOpen(txt, b, c);
    assert Balance(inner) == 0;
    forall k | 0 <= k <= |inner|
      ensures Balance(inner[..k]) >= 0
    {
      assert inner[..k] == txt[b + 1..b + 1 + k];
      if k > 0 {
        BalanceAfterOpen(txt, b, b + 1 + k);
      } else {
        assert inner[..k] == [];
      }
    }
    MinDepthNonNeg(inner);
  }

  /**
   * The closing brace found for the '{' at `b` is a '}' and the text between
   * them is balanced; when none is found the depth never returns to zero.
   */
  lemma CloseOfBalanced(txt: string, b: nat)
    requires b < |txt| && txt[b] == '{'
    ensures CloseOf(txt, b).Some? ==> ClosedAt(txt, b, CloseOf(txt, b).value)
    ensures CloseOf(txt, b).None? ==> NeverCloses(txt, b)
  {
    var f := CloseFinder(txt, b);
    var p := SearchIndex(|txt|, b + 1, f);
    forall j | b < j < p && j <= |txt|
      ensures Balance(txt[b..j]) != 0
    {
      assert f(j).None?;
    }
    if p <= |txt| {
      assert f(p).Some?;
      var c := p - 1;
      assert CloseOf(txt, b) == Some(c);
      assert c > b;
      DepthPositive(txt, b, c);
      InnerBalanced(txt, b, c);
    } else {
      if |txt| > b {
        DepthPositive(txt, b, |txt|);
      }
    }
  }

  // ---------------------------------------------------------------- headers

  /** The last '\n' in `txt[h..k]`. */
  function LastNewline(txt: string, h: nat, k: nat): (r: Option<nat>)
    requires h <= k <= |txt|
    ensures r.Some? ==> h <= r.value < k && txt[r.value] == '\n'
    decreases k - h
  {
    if k == h then None
    else if txt[k - 1] == '\n' then Some(k - 1)
    else LastNewline(txt, h, k - 1)
  }

  /**
   * `\s*$` under `re.MULTILINE` from `h`: the blanks run as far as they go
   * (across line breaks), then back off to the last place where `$` holds,
   * the end of the text or just before a '\n'.
   */
  function LineEndFrom(txt: string, h: nat): (r: Option<nat>)
    requires h <= |txt|
    ensures r.Some? ==> h <= r.value <= |txt| && (r.value == |txt| || txt[r.value] == '\n')
  {
    var k := SkipSet(txt, h, Whitespace);
    if k == |txt| then Some(k) else LastNewline(txt, h, k)
  }

  /** The bracketed name, compared exactly or (for `(?i)`) up to ASCII case. */
  predicate NameMatches(s: string, name: string, ci: bool)
  {
    if ci then EqualsIgnoreCase(s, name) else s == name
  }

  /**
   * `^\s*\[NAME\]\s*$` under `re.MULTILINE`, tried at `p`: the end of the
   * match.  The blanks before the '[' may run across line breaks.
   */
  function HeaderEndAt(txt: string, p: nat, name: string, ci: bool): (r: Option<nat>)
    ensures r.Some? ==> p + |name| + 2 <= r.value <= |txt|
  {
    if LineStart(txt, p) then HeaderEndAfterBlanks(txt, SkipSet(txt, p, Whitespace), name, ci)
    else None
  }

  /** `\[NAME\]\s*$` tried at `q`, the first non-blank position of the line. */
  function HeaderEndAfterBlanks(txt: string, q: nat, name: string, ci: bool): (r: Option<nat>)
    ensures r.Some? ==> q + |name| + 2 <= r.value <= |txt|
  {
    var h := q + |name| + 2;
    if h <= |txt| && txt[q] == '[' && NameMatches(txt[q + 1..h - 1], name, ci) && txt[h - 1] == ']' then
      LineEndFrom(txt, h)
    else None
  }

  function HeaderFinder(txt: string, name: string, ci: bool): nat -> Option<nat>
  {
    (p: nat) => HeaderEndAt(txt, p, name, ci)
  }

  /** `re.finditer` from `pos`: the end of each match, each search resuming where the last match ended. */
  function HeaderEnds(txt: string, pos: nat, name: string, ci: bool): (r: seq<nat>)
    requires pos <= |txt|
    ensures forall i :: 0 <= i < |r| ==> pos < r[i] <= |txt|
    decreases |txt| - pos
  {
    var p := SearchIndex(|txt|, pos, HeaderFinder(txt, name, ci));
    if p > |txt| then []
    else
      var e := HeaderEndAt(txt, p, name, ci).value;
      [e] + HeaderEnds(txt, e, name, ci)
  }

  // ---------------------------------------------------------------- blocks

  /**
   * The block after a header ending at `start`: from the first '{' after it
   * to its closing brace, as the span of what lies between them.
   */
  function BlockAfter(txt: string, start: nat): (r: Option<(nat, nat)>)
  {
    if start > |txt| then None
    else
      var b := FindChar(txt, start, '{');
      if b == |txt| then None
      else
        match CloseOf(txt, b)
        case None => None
        case Some(c) => Some((b + 1, c))
  }

  function BlockFinder(txt: string): nat -> Option<(nat, nat)>
  {
    (e: nat) => BlockAfter(txt, e)
  }

  /** The spans of the blocks under every header named `name`, in order. */
  function Blocks(txt: string, name: string, ci: bool): (spans: seq<(nat, nat)>)
  {
    Collect(HeaderEnds(txt, 0, name, ci), BlockFinder(txt))
  }

  /** A span that lies right after a '{', ends at a '}' and holds balanced braces. */
  predicate Shaped(txt: string, span: (nat, nat))
  {
    0 < span.0 <= span.1 < |txt| && txt[span.0 - 1] == '{' && txt[span.1] == '}' && Balanced(txt[span.0..span.1])
  }

  lemma BlockShape(txt: string, start: nat)
    requires BlockAfter(txt, start).Some?
    ensures Shaped(txt, BlockAfter(txt, start).value) && start < BlockAfter(txt, start).value.0
  {
    var b := FindChar(txt, start, '{');
    CloseOfBalanced(txt, b);
  }

  /** No span: no '{' after the header, or braces that never close. */
  lemma NoBlock(txt: string, start: nat)
    requires start <= |txt|
    ensures BlockAfter(txt, start).None? <==> (FindChar(txt, start, '{') == |txt| || NeverCloses(txt, FindChar(txt, start, '{')))
  {
    var b := FindChar(txt, start, '{');
    if b < |txt| {
      CloseOfBalanced(txt, b);
      if CloseOf(txt, b).Some? {
        var c := CloseOf(txt, b).value;
        assert CloseFinder(txt, b)(c + 1).Some?;
        assert Balance(txt[b..c + 1]) == 0;
      }
    }
  }

  /** The body of both header loops: `re.search(r'\{', txt[start:])`, then the depth count. */
  method FindBlock(txt: string, start: nat) returns (span: Option<(nat, nat)>)
    requires start <= |txt|
    ensures span == BlockAfter(txt, start)
  {
    var b := FindChar(txt, start, '{');
    if b == |txt| {
      return None;
    }
    var c := CloseBrace(txt, b);
    if c.Some? {
      return Some((b + 1, c.value));
    }
    return None;
  }

  /** The loop of `_iter_top_blocks` over the header matches ending at `ends`. */
  method CollectBlocks(txt: string, ends: seq<nat>) returns (spans: seq<(nat, nat)>)
    requires forall i :: 0 <= i < |ends| ==> ends[i] <= |txt|
    ensures spans == Collect(ends, BlockFinder(txt))
  {
    spans := [];
    var j := 0;
    while j < |ends|
      invariant 0 <= j <= |ends|
      invariant spans == Collect(ends[..j], BlockFinder(txt))
    {
      CollectSnoc(ends, j, BlockFinder(txt));
      var span := FindBlock(txt, ends[j]);
      if span.Some? {
        spans := spans + [span.value];
      }
      j := j + 1;
    }
    assert ends[..|ends|] == ends;
  }

  /** `_iter_top_blocks(txt, top_name)`: the span of every block under a `[top_name]` header, in order. */
  method IterTopBlocks(txt: string, name: string) returns (spans: seq<(nat, nat)>)
    ensures spans == Blocks(txt, name, false)
  {
    var ends := HeaderEnds(txt, 0, name, false);
    spans := CollectBlocks(txt, ends);
  }

  /** Every span of every block has the shape of `BlockShape`. */
  lemma BlocksShape(txt: string, name: string, ci: bool)
    ensures forall i :: 0 <= i < |Blocks(txt, name, ci)| ==> Shaped(txt, Blocks(txt, name, ci)[i])
  {
    var ends := HeaderEnds(txt, 0, name, ci);
    CollectExact(ends, BlockFinder(txt));
    forall i | 0 <= i < |Blocks(txt, name, ci)|
      ensures Shaped(txt, Blocks(txt, name, ci)[i])
    {
      var k :| 0 <= k < |ends| && BlockFinder(txt)(ends[k]) == Some(Blocks(txt, name, ci)[i]);
      BlockShape(txt, ends[k]);
    }
  }

  // ---------------------------------------------------------------- _find_sub_block

  /** The first span of a list, if any. */
  function FirstSpan(spans: seq<(nat, nat)>): (r: Option<(nat, nat)>)
    ensures r.None? <==> spans == []
    ensures r.Some? ==> r.value == spans[0]
  {
    if spans == [] then None else Some(spans[0])
  }

  /** A span of `txt[start:]` moved to coordinates of `txt`. */
  function Shift(span: Option<(nat, nat)>, start: nat): (r: Option<(nat, nat)>)
    ensures r.Some? <==> span.Some?
    ensures r.Some? ==> r.value == (start + span.value.0, start + span.value.1)
  {
    match span
    case None => None
    case Some((s, e)) => Some((start + s, start + e))
  }

  /** `_find_sub_block(txt, start, end, name)`: the first block under a `[name]` header (any case) in `txt[start:end]`. */
  function SubBlock(txt: string, start: nat, end: nat, name: string): Option<(nat, nat)>
  {
    Shift(FirstSpan(Blocks(Slice(txt, start, end), name, true)), start)
  }

  /** The loop of `_find_sub_block`: return at the first header whose block closes. */
  method FirstBlock(body: string, ends: seq<nat>) returns (span: Option<(nat, nat)>)
    requires forall i :: 0 <= i < |ends| ==> ends[i] <= |body|
    ensures span.None? <==> Collect(ends, BlockFinder(body)) == []
    ensures span.Some? ==> span.value == Collect(ends, BlockFinder(body))[0]
  {
    var j := 0;
    while j < |ends|
      invariant 0 <= j <= |ends|
      invariant Collect(ends[..j], BlockFinder(body)) == []
    {
      CollectSnoc(ends, j, BlockFinder(body));
      var found := FindBlock(body, ends[j]);
      assert found == BlockFinder(body)(ends[j]);
      if found.Some? {
        CollectFirstAt(ends, j, BlockFinder(body));
        return found;
      }
      j := j + 1;
    }
    assert ends[..|ends|] == ends;
    return None;
  }

  /** `_find_sub_block` run on the already sliced `body`. */
  method FirstSubBlock(body: string, name: string) returns (span: Option<(nat, nat)>)
    ensures span == FirstSpan(Blocks(body, name, true))
  {
    var ends := HeaderEnds(body, 0, name, true);
    span := FirstBlock(body, ends);
  }

  method FindSubBlock(txt: string, start: nat, end: nat, name: string) returns (r: Option<(nat, nat)>)
    ensures r == SubBlock(txt, start, end, name)
  {
    var body := Slice(txt, start, end);
    var span := FirstSubBlock(body, name);
    r := Shift(span, start);
  }

  /** The first block of a body has the shape of `BlockShape`. */
  lemma FirstSpanShape(body: string, name: string)
    requires FirstSpan(Blocks(body, name, true)).Some?
    ensures Shaped(body, FirstSpan(Blocks(body, name, true)).value)
  {
    BlocksShape(body, name, true);
  }

  /** A balanced span of a slice of `txt` is the same span of `txt`, moved by where the slice starts. */
  lemma ShiftShape(txt: string, body: string, start: nat, s: nat, e: nat, s': nat, e': nat)
    requires start + |body| <= |txt| && body == txt[start..start + |body|]
    requires 0 < s <= e < |body| && body[s - 1] == '{' && body[e] == '}' && Balanced(body[s..e])
    requires s' == start + s && e' == start + e
    ensures txt[s' - 1] == '{' && txt[e'] == '}' && Balanced(txt[s'..e'])
  {
    assert body[s - 1] == txt[s' - 1];
    forall k | 0 <= k < e - s
      ensures body[s..e][k] == txt[s'..e'][k]
    {
      assert body[s + k] == txt[s' + k];
    }
    assert body[s..e] == txt[s'..e'];
  }

  /** The first span of `spans`, moved by `start`. */
  lemma ShiftFirst(spans: seq<(nat, nat)>, start: nat)
    requires spans != []
    ensures Shift(FirstSpan(spans), start) == Some((start + spans[0].0, start + spans[0].1))
  {
  }

  /** The sub-block lies inside `[start, end)`: its braces are characters of the range. */
  lemma SubBlockInside(txt: string, start: nat, end: nat, name: string, s: nat, e: nat)
    requires SubBlock(txt, start, end, name) == Some((s, e))
    ensures start < s <= e < end && e < |txt| && txt[s - 1] == '{' && txt[e] == '}' && Balanced(txt[s..e])
  {
    var body := Slice(txt, start, end);
    var spans := Blocks(body, name, true);
    SubBlockFirst(txt, start, end, name, s, e);
    FirstSpanShape(body, name);
    assert Shaped(body, spans[0]);
    ShiftShape(txt, body, start, spans[0].0, spans[0].1, s, e);
  }

  /** The sub-block found is the first block of the range, moved by where the range starts. */
  lemma SubBlockFirst(txt: string, start: nat, end: nat, name: string, s: nat, e: nat)
    requires SubBlock(txt, start, end, name) == Some((s, e))
    ensures var spans := Blocks(Slice(txt, start, end), name, true);
      spans != [] && s == start + spans[0].0 && e == start + spans[0].1
  {
    var spans := Blocks(Slice(txt, start, end), name, true);
    ShiftFirst(spans, start);
  }

  /** Under `(?i)` a header test does not depend on the case of the name. */
  lemma HeaderEndCaseBlind(txt: string, p: nat, n1: string, n2: string)
    requires EqualsIgnoreCase(n1, n2)
    ensures HeaderEndAt(txt, p, n1, true) == HeaderEndAt(txt, p, n2, true)
  {
    if LineStart(txt, p) {
      HeaderAfterBlanksCaseBlind(txt, SkipSet(txt, p, Whitespace), n1, n2);
    }
  }

  lemma HeaderAfterBlanksCaseBlind(txt: string, q: nat, n1: string, n2: string)
    requires EqualsIgnoreCase(n1, n2)
    ensures HeaderEndAfterBlanks(txt, q, n1, true) == HeaderEndAfterBlanks(txt, q, n2, true)
  {
    var h := q + |n1| + 2;
    if h <= |txt| {
      IgnoreCaseSameAgainst(txt[q + 1..h - 1], n1, n2);
    }
  }

  /** Under `(?i)` the header matches do not depend on the case of the name. */
  lemma {:induction false} HeaderEndsCaseBlind(txt: string, pos: nat, n1: string, n2: string)
    requires pos <= |txt| && EqualsIgnoreCase(n1, n2)
    ensures HeaderEnds(txt, pos, n1, true) == HeaderEnds(txt, pos, n2, true)
    decreases |txt| - pos
  {
    forall p: nat
      ensures HeaderFinder(txt, n1, true)(p) == HeaderFinder(txt, n2, true)(p)
    {
      HeaderEndCaseBlind(txt, p, n1, n2);
    }
    SearchIndexSame(|txt|, pos, HeaderFinder(txt, n1, true), HeaderFinder(txt, n2, true));
    var p := SearchIndex(|txt|, pos, HeaderFinder(txt, n1, true));
    if p <= |txt| {
      var e := HeaderEndAt(txt, p, n1, true).value;
      HeaderEndsCaseBlind(txt, e, n1, n2);
    }
  }

  /** `dolby_bright` and `DOLBY_BRIGHT` find the same sub-block. */
  lemma SubBlockCaseBlind(txt: string, start: nat, end: nat, n1: string, n2: string)
    requires EqualsIgnoreCase(n1, n2)
    ensures SubBlock(txt, start, end, n1) == SubBlock(txt, start, end, n2)
  {
    HeaderEndsCaseBlind(Slice(txt, start, end), 0, n1, n2);
  }

  // ---------------------------------------------------------------- _extract_memc_level_from_range

  const MemcKey: string := "MEMC_Level"

  /** The value of digits `d`, negated when a '-' preceded them. */
  function Signed(neg: bool, d: string): (v: int)
    requires AllDigits(d)
    ensures neg ==> v <= 0
    ensures !neg ==> v >= 0
  {
    if neg then -(DigitsValue(d) as int) else DigitsValue(d) as int
  }

  /** `-?\d+\s*$`: an optional '-', digits, then nothing but blanks; the value `int()` makes of it. */
  function SignedDigits(t: string): (r: Option<int>)
    ensures r.Some? ==> t != ""
  {
    var neg := |t| > 0 && t[0] == '-';
    var u := if neg then t[1..] else t;
    var d := LeadingDigits(u);
    if d != "" && IsBlank(u[|d|..]) then Some(Signed(neg, d)) else None
  }

  /** `MEMC_Level\s*=\s*` at the start of a stripped line, then `SignedDigits` of the rest. */
  function MemcAssign(line: string): (r: Option<int>)
    ensures r.Some? ==> StartsWith(line, MemcKey)
  {
    if !StartsWith(line, MemcKey) then None
    else
      var p := SkipSet(line, |MemcKey|, Whitespace);
      if p < |line| && line[p] == '=' then SignedDigits(line[SkipSet(line, p + 1, Whitespace)..])
      else None
  }

  /** `re.match(r'^MEMC_Level\s*=\s*(-?\d+)\s*$', line.strip())` and `int()` of the group. */
  function MemcLevelOf(raw: string): (r: Option<int>)
    ensures r.Some? ==> StartsWith(Strip(raw), MemcKey)
  {
    MemcAssign(Strip(raw))
  }

  /** The first `MEMC_Level` line of `txt[start:end]`. */
  function MemcLevel(txt: string, start: nat, end: nat): (r: Option<int>)
    ensures r.Some? ==> exists i :: 0 <= i < |SplitLines(Slice(txt, start, end))| && MemcLevelOf(SplitLines(Slice(txt, start, end))[i]) == r
    ensures r.None? ==> forall i :: 0 <= i < |SplitLines(Slice(txt, start, end))| ==> MemcLevelOf(SplitLines(Slice(txt, start, end))[i]).None?
  {
    var ls := SplitLines(Slice(txt, start, end));
    var i := FirstIndex(ls, MemcLevelOf);
    if i < |ls| then MemcLevelOf(ls[i]) else None
  }

  /** `str(n)` reads back as `n`. */
  lemma SignedDigitsNat(n: nat)
    ensures SignedDigits(NatToString(n)) == Some(n as int)
  {
    var d := NatToString(n);
    SignedDigitsRun(d, false, d);
  }

  /** `"-" + str(n)` reads back as `-n`. */
  lemma SignedDigitsNegative(n: nat)
    ensures SignedDigits("-" + NatToString(n)) == Some(-(n as int))
  {
    var d := NatToString(n);
    var t := "-" + d;
    assert t[0] == '-' && t[1..] == d;
    SignedDigitsRun(t, true, d);
  }

  /** A sign (or none) followed by nothing but digits reads as the signed value of those digits. */
  lemma SignedDigitsRun(t: string, neg: bool, d: string)
    requires neg == (|t| > 0 && t[0] == '-') && d == (if neg then t[1..] else t)
    requires d != "" && AllDigits(d)
    ensures SignedDigits(t) == Some(Signed(neg, d))
  {
    LeadingDigitsExact(d, d);
    assert d[|d|..] == [];
  }

  /** Blanks around the '=' are passed over. */
  lemma MemcAssignSpaced(t: string)
    requires t != "" && t[0] !in Whitespace
    ensures MemcAssign(MemcKey + " = " + t) == SignedDigits(t)
  {
    var line := MemcKey + " = " + t;
    assert StartsWith(line, MemcKey);
    SkipSetAt(line, 10, 11, Whitespace);
    SkipSetAt(line, 12, 13, Whitespace);
    assert line[13..] == t;
  }

  /** A line that neither starts nor ends with a blank is read as it is. */
  lemma MemcLevelOfTrimmed(line: string)
    requires line != "" && line[0] !in Whitespace && line[|line| - 1] !in Whitespace
    ensures MemcLevelOf(line) == MemcAssign(line)
  {
    StripSetFixed(line, Whitespace);
  }

  /** `MEMC_Level = <n>` reads back as `n`. */
  lemma MemcLevelPlain(n: nat)
    ensures MemcLevelOf(MemcKey + " = " + NatToString(n)) == Some(n as int)
  {
    var d := NatToString(n);
    var line := MemcKey + " = " + d;
    DigitNotSpace(d[0]);
    DigitNotSpace(d[|d| - 1]);
    assert line[|line| - 1] == d[|d| - 1];
    MemcLevelOfTrimmed(line);
    MemcAssignSpaced(d);
    SignedDigitsNat(n);
  }

  /** `MEMC_Level = -<n>` reads back as `-n`. */
  lemma MemcLevelNegative(n: nat)
    ensures MemcLevelOf(MemcKey + " = " + ("-" + NatToString(n))) == Some(-(n as int))
  {
    var d := NatToString(n);
    var t := "-" + d;
    var line := MemcKey + " = " + t;
    DigitNotSpace(d[|d| - 1]);
    assert line[|line| - 1] == d[|d| - 1];
    MemcLevelOfTrimmed(line);
    MemcAssignSpaced(t);
    SignedDigitsNegative(n);
  }

  /** Stripping keeps a first character that is not blank. */
  lemma StripKeepsFirst(s: string)
    requires s != "" && s[0] !in Whitespace
    ensures Strip(s) != "" && Strip(s)[0] == s[0]
  {
    LStripSetFixed(s, Whitespace);
  }

  /** The key is matched with its case: `memc_level=...` is not read. */
  lemma MemcLevelCaseSensitive(v: string)
    ensures MemcLevelOf("memc_level=" + v) == None
  {
    var raw := "memc_level=" + v;
    StripKeepsFirst(raw);
    FirstCharDiffers(Strip(raw), MemcKey);
  }

  /** A text whose first character differs from the key's does not start with the key. */
  lemma FirstCharDiffers(s: string, key: string)
    requires s != "" && key != "" && s[0] != key[0]
    ensures !StartsWith(s, key)
  {
  }

  // ---------------------------------------------------------------- strict_two_paths_check

  const DefaultTop: string := "PictureModeData_Default"
  const VoTop: string := "PictureModeData_VO"
  const SubName: string := "dolby_bright"

  /** `[top]` -> `[dolby_bright]` -> `MEMC_Level`: the level in the first sub-block of the first top block. */
  function PathValue(txt: string, top: string): Option<int>
  {
    var spans := Blocks(txt, top, false);
    if spans == [] then None
    else
      match SubBlock(txt, spans[0].0, spans[0].1, SubName)
      case None => None
      case Some((s, e)) => MemcLevel(txt, s, e)
  }

  /** A level found on a path comes from a `MEMC_Level` line between the braces of a sub-block inside the first top block. */
  lemma PathValueNested(txt: string, top: string, s: nat, e: nat, s2: nat, e2: nat)
    requires Blocks(txt, top, false) != [] && Blocks(txt, top, false)[0] == (s, e)
    requires SubBlock(txt, s, e, SubName) == Some((s2, e2))
    ensures s < s2 <= e2 < e < |txt| && txt[s2 - 1] == '{' && txt[e2] == '}' && Balanced(txt[s2..e2])
    ensures PathValue(txt, top) == MemcLevel(txt, s2, e2)
  {
    SubBlockInside(txt, s, e, SubName, s2, e2);
    BlocksShape(txt, top, false);
  }

  /** The result of the strict check: whether it passed and the two levels found. */
  datatype Strict = Strict(passed: bool, a: Option<int>, b: Option<int>)

  /** One path of `strict_two_paths_check`. */
  method PathLevel(txt: string, top: string) returns (v: Option<int>)
    ensures v == PathValue(txt, top)
  {
    var spans := IterTopBlocks(txt, top);
    v := None;
    if spans != [] {
      var sub := FindSubBlock(txt, spans[0].0, spans[0].1, SubName);
      if sub.Some? {
        v := MemcLevel(txt, sub.value.0, sub.value.1);
      }
    }
  }

  /** `strict_two_paths_check(osd_ini_path)`: both levels present and zero. */
  method StrictTwoPathsCheck(fs: FileSystem, osdPath: string) returns (r: Strict)
    ensures !Exists(fs, osdPath) ==> r == Strict(false, None, None)
    ensures Exists(fs, osdPath) ==> r.a == PathValue(Read(fs, osdPath).value, DefaultTop) && r.b == PathValue(Read(fs, osdPath).value, VoTop)
    ensures r.passed <==> r.a == Some(0) && r.b == Some(0)
  {
    if !Exists(fs, osdPath) {
      return Strict(false, None, None);
    }
    var txt := Read(fs, osdPath).value;
    var a := PathLevel(txt, DefaultTop);
    var b := PathLevel(txt, VoTop);
    return Strict(a == Some(0) && b == Some(0), a, b);
  }

  // ---------------------------------------------------------------- main

  /** What `main` reports: the PQ_OSD value, the OSD file, the two levels and the verdict. */
  datatype MemcReport =
    | ModelIniMissing
    | Report(pqOsd: Option<string>, osdPath: Option<string>, osdExists: bool, a: Option<int>, b: Option<int>, ok: bool)

  /**
   * `main` with `root` already made absolute: the PQ_OSD value is resolved
   * against the root when it is not empty, and the strict check runs only
   * when the file it names exists.
   */
  method RunMemc(fs: FileSystem, modelIni: string, root: string) returns (r: MemcReport)
    ensures !Exists(fs, modelIni) <==> r == ModelIniMissing
    ensures r.Report? ==> r.pqOsd == FindPqOsdValue(Read(fs, modelIni).value)
    ensures r.Report? ==> (r.osdPath.Some? <==> r.pqOsd.Some? && r.pqOsd.value != "")
    ensures r.Report? && r.osdPath.Some? ==> r.osdPath.value == Resolve(root, r.pqOsd.value)
    ensures r.Report? ==> (r.osdExists <==> r.osdPath.Some? && Exists(fs, r.osdPath.value))
    ensures r.Report? && !r.osdExists ==> r.a.None? && r.b.None? && !r.ok
    ensures r.Report? && r.osdExists ==>
      r.a == PathValue(Read(fs, r.osdPath.value).value, DefaultTop) && r.b == PathValue(Read(fs, r.osdPath.value).value, VoTop)
    ensures r.Report? ==> (r.ok <==> r.osdExists && r.a == Some(0) && r.b == Some(0))
  {
    if !Exists(fs, modelIni) {
      return ModelIniMissing;
    }
    var pq := FindPqOsdValue(Read(fs, modelIni).value);
    var osdPath: Option<string> := None;
    if pq.Some? && pq.value != "" {
      osdPath := Some(Resolve(root, pq.value));
    }
    var found := osdPath.Some? && Exists(fs, osdPath.value);
    var check := Strict(false, None, None);
    if found {
      check := StrictTwoPathsCheck(fs, osdPath.value);
    }
    return Report(pq, osdPath, found, check.a, check.b, found && check.passed);
  }
}
