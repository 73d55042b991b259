/**
 * The INI line primitives every checker repeats: comment stripping, the
 * `KEY = "value"` line pattern, first-match lookup over a file's lines and
 * last-wins key/value tables.
 */
module Ini {
  import opened Wrappers
  import opened Text

  // ---------------------------------------------------------------- comments

  lemma NotInContained(s: string, r: string, c: char)
    requires Contains(s, r) && c !in s
    ensures c !in r
  {
    var i :| 0 <= i <= |s| - |r| && OccursAt(s, r, i);
    assert forall j :: 0 <= j < |r| ==> r[j] == s[i + j];
  }

  lemma NotInStrip(s: string, c: char)
    requires c !in s
    ensures c !in Strip(s)
  {
    StripSetContains(s, Whitespace);
    NotInContained(s, Strip(s), c);
  }

  /** `_strip_comment`: the text before the first '#', then before the first ';', trimmed. */
  function StripComment(line: string): (r: string)
    ensures '#' !in r && ';' !in r
  {
    var a := Before(line, '#');
    var b := Before(a, ';');
    assert '#' !in b by { assert StartsWith(a, b); assert forall i :: 0 <= i < |b| ==> b[i] == a[i]; }
    NotInStrip(b, '#');
    NotInStrip(b, ';');
    Strip(b)
  }

  /** A trimmed line without comment characters is its own comment-stripped form. */
  lemma StripCommentPlain(line: string)
    requires '#' !in line && ';' !in line
    requires line == [] || (!IsSpace(line[0]) && !IsSpace(line[|line| - 1]))
    ensures StripComment(line) == line
  {
    assert Before(line, '#') == line;
    assert Before(line, ';') == line;
    LStripSetFixed(line, Whitespace);
    RStripSetFixed(line, Whitespace);
  }

  /** A quoted declaration without comment characters survives comment stripping. */
  lemma StripCommentQuotedDeclaration(key: string, v: string)
    requires key != "" && !IsSpace(key[0])
    requires '#' !in key + v && ';' !in key + v
    ensures StripComment(key + "=\"" + v + "\"") == key + "=\"" + v + "\""
  {
    var line := key + "=\"" + v + "\"";
    assert line[0] == key[0] && line[|line| - 1] == '"';
    assert forall i :: 0 <= i < |line| ==> line[i] != '#' && line[i] != ';' by {
      assert forall i :: 0 <= i < |key| ==> line[i] == (key + v)[i];
      assert forall i :: |key| + 2 <= i < |line| - 1 ==> line[i] == (key + v)[i - 2];
    }
    StripCommentPlain(line);
  }

  /** So does an unquoted one. */
  lemma StripCommentBareDeclaration(key: string, v: string)
    requires key != "" && !IsSpace(key[0])
    requires v != "" && !IsSpace(v[|v| - 1])
    requires '#' !in key + v && ';' !in key + v
    ensures StripComment(key + "=" + v) == key + "=" + v
  {
    var line := key + "=" + v;
    assert line[0] == key[0] && line[|line| - 1] == v[|v| - 1];
    assert forall i :: 0 <= i < |line| ==> line[i] != '#' && line[i] != ';' by {
      assert forall i :: 0 <= i < |key| ==> line[i] == (key + v)[i];
      assert forall i :: |key| + 1 <= i < |line| ==> line[i] == (key + v)[i - 1];
    }
    StripCommentPlain(line);
  }

  /** Where `_strip_comment` cuts: the earlier of the first '#' and the first ';'. */
  function CommentCut(line: string): (k: nat)
    ensures k <= |line| && '#' !in line[..k] && ';' !in line[..k]
    ensures k < |line| ==> line[k] == '#' || line[k] == ';'
  {
    var h := CharIndex(line, '#');
    var s := CharIndex(line, ';');
    if h <= s then (assert line[..h] == line[..s][..h]; h) else (assert line[..s] == line[..h][..s]; s)
  }

  /** Cutting at '#' and then at ';' is cutting once at whichever comes first. */
  lemma StripCommentEarliest(line: string)
    ensures StripComment(line) == Strip(line[..CommentCut(line)])
  {
    var h := CharIndex(line, '#');
    CharIndexTake(line, h, ';');
    assert line[..h][..CharIndex(line[..h], ';')] == line[..CommentCut(line)];
  }

  /** The trim-first form of `_strip_comment`: trim, cut at '#', cut at ';', trim again. */
  function StripCommentTrimmedFirst(line: string): (r: string)
    ensures '#' !in r && ';' !in r
  {
    var s := Strip(line);
    if s == "" then "" else StripComment(s)
  }

  lemma CommentCutUnique(x: string, k: nat)
    requires k <= |x| && '#' !in x[..k] && ';' !in x[..k]
    requires k < |x| ==> x[k] == '#' || x[k] == ';'
    ensures CommentCut(x) == k
  {
    var c := CommentCut(x);
    assert forall j :: 0 <= j < k ==> x[..k][j] == x[j];
    assert forall j :: 0 <= j < c ==> x[..c][j] == x[j];
  }

  /** A blank margin holds no comment character, so the cut lies past it. */
  lemma CutAfterMargin(x: string, a: nat)
    requires a <= |x| && IsBlank(x[..a])
    ensures CommentCut(x) >= a
  {
    assert forall j :: 0 <= j < a ==> x[j] == x[..a][j] && x[j] != '#' && x[j] != ';';
  }

  /** A cut inside the trimmed text `s == x[a..a + |s|]` is the same cut, shifted. */
  lemma SliceInside(x: string, a: nat, s: string, k: nat)
    requires a + |s| <= |x| && s == x[a..a + |s|] && a <= k < a + |s|
    ensures s[..k - a] == x[a..k] && s[k - a] == x[k] && x[..k] == x[..a] + x[a..k] + ""
  {
  }

  lemma CutInside(x: string, a: nat, s: string)
    requires a + |s| <= |x| && s == x[a..a + |s|] && IsBlank(x[..a])
    requires a <= CommentCut(x) < a + |s|
    ensures StripComment(s) == StripComment(x)
  {
    var k := CommentCut(x);
    SliceInside(x, a, s, k);
    CommentCutUnique(s, k - a);
    StripSetPad(x[..a], x[a..k], "", Whitespace);
    StripCommentEarliest(x);
    StripCommentEarliest(s);
  }

  lemma SliceBeyond(x: string, a: nat, s: string)
    requires a + |s| <= |x| && s == x[a..a + |s|] && IsBlank(x[a + |s|..])
    ensures forall j :: a + |s| <= j < |x| ==> x[j] != '#' && x[j] != ';'
    ensures '#' !in x[..a + |s|] ==> '#' !in s
    ensures ';' !in x[..a + |s|] ==> ';' !in s
  {
    assert forall j :: a + |s| <= j < |x| ==> x[j] == x[a + |s|..][j - a - |s|];
    assert forall j :: 0 <= j < |s| ==> s[j] == x[..a + |s|][a + j];
  }

  /** With no cut inside the trimmed text, nothing is cut at all. */
  lemma CutBeyond(x: string, a: nat, s: string)
    requires a + |s| <= |x| && s == x[a..a + |s|] && IsBlank(x[a + |s|..])
    requires a + |s| <= CommentCut(x)
    ensures StripComment(s) == Strip(s) && StripComment(x) == Strip(x)
  {
    var k := CommentCut(x);
    SliceBeyond(x, a, s);
    assert k == |x|;
    assert x[..k] == x;
    assert x[..a + |s|] == x[..k][..a + |s|];
    CommentCutUnique(s, |s|);
    assert s[..|s|] == s;
    StripCommentEarliest(x);
    StripCommentEarliest(s);
  }

  /** The trimmed text is the slice of the line between its blank margins. */
  lemma StripSlice(line: string, a: nat, s: string)
    requires a == |line| - |LStrip(line)| && s == Strip(line)
    ensures a + |s| <= |line| && s == line[a..a + |s|] && IsBlank(line[..a]) && IsBlank(line[a + |s|..])
  {
    var l := LStripSet(line, Whitespace);
    assert s == RStripSet(l, Whitespace);
    MarginSlices(line, a, l, s);
  }

  lemma MarginSlices(line: string, a: nat, l: string, s: string)
    requires a <= |line| && l == line[a..] && AllIn(line[..a], Whitespace)
    requires |s| <= |l| && s == l[..|s|] && AllIn(l[|s|..], Whitespace)
    ensures a + |s| <= |line| && s == line[a..a + |s|] && IsBlank(line[..a]) && IsBlank(line[a + |s|..])
  {
    assert line[a..][|s|..] == line[a + |s|..];
  }

  /** Trimming first does not change what `_strip_comment` returns. */
  lemma StripCommentTrimmedFirstSame(line: string)
    ensures StripCommentTrimmedFirst(line) == StripComment(line)
  {
    var a := |line| - |LStrip(line)|;
    var s := Strip(line);
    StripSlice(line, a, s);
    CutAfterMargin(line, a);
    if CommentCut(line) < a + |s| {
      TrimmedFirstInside(line, a, s);
    } else {
      TrimmedFirstBeyond(line, a, s);
    }
  }

  /** A cut inside the trimmed text is made there too. */
  lemma TrimmedFirstInside(line: string, a: nat, s: string)
    requires s == Strip(line)
    requires a + |s| <= |line| && s == line[a..a + |s|] && IsBlank(line[..a])
    requires a <= CommentCut(line) < a + |s|
    ensures StripCommentTrimmedFirst(line) == StripComment(line)
  {
    CutInside(line, a, s);
  }

  /** A line cut only past its trimmed text is not cut at all. */
  lemma TrimmedFirstBeyond(line: string, a: nat, s: string)
    requires s == Strip(line)
    requires a + |s| <= |line| && s == line[a..a + |s|] && IsBlank(line[a + |s|..])
    requires a + |s| <= CommentCut(line)
    ensures StripCommentTrimmedFirst(line) == StripComment(line)
  {
    CutBeyond(line, a, s);
    StripSetIdempotent(line, Whitespace);
  }

  /** The '#'-only form: a line whose first non-blank character is '#' reads as empty, any other line as itself. */
  function StripWholeLineComment(line: string): (r: string)
    ensures r == "" || r == line
    ensures r == line ==> !StartsWith(LStrip(line), "#")
  {
    if StartsWith(LStrip(line), "#") then "" else line
  }

  // ---------------------------------------------------------------- KEY = value

  /** `t` spells `key`, ignoring ASCII case when `ignoreCase` holds. */
  predicate KeyIs(t: string, key: string, ignoreCase: bool)
  {
    if ignoreCase then EqualsIgnoreCase(t, key) else t == key
  }

  /** The text after `\s*=`, when `s` starts that way. */
  function AfterEq(s: string): (r: Option<string>)
    ensures r.Some? ==> EndsWith(s, r.value) && |r.value| < |s|
  {
    var u := LStrip(s);
    if |u| > 0 && u[0] == '=' then
      EndsWithDrop(s, |s| - |u|);
      EndsWithDrop(u, 1);
      EndsWithTrans(s, u, u[1..]);
      Some(u[1..])
    else None
  }

  /** `t` starts with `key`, ignoring ASCII case when `ignoreCase` holds. */
  predicate KeyPrefix(t: string, key: string, ignoreCase: bool)
  {
    |t| >= |key| && KeyIs(t[..|key|], key, ignoreCase)
  }

  /** The text after `^\s*KEY\s*=`, when the line starts that way. */
  function AfterKeyEq(line: string, key: string, ignoreCase: bool): (r: Option<string>)
    ensures r.Some? ==> EndsWith(line, r.value) && |r.value| < |line|
  {
    var t := LStrip(line);
    if KeyPrefix(t, key, ignoreCase) then
      var r := AfterEq(t[|key|..]);
      if r.Some? then
        EndsWithDrop(line, |line| - |t|);
        EndsWithDrop(t, |key|);
        EndsWithTrans(line, t, t[|key|..]);
        EndsWithTrans(line, t[|key|..], r.value);
        r
      else None
    else None
  }

  lemma EndsWithDrop(s: string, k: nat)
    requires k <= |s|
    ensures EndsWith(s, s[k..])
  {
  }

  lemma EndsWithTrans(a: string, b: string, c: string)
    requires EndsWith(a, b) && EndsWith(b, c)
    ensures EndsWith(a, c)
  {
    assert a[|a| - |c|..] == a[|a| - |b|..][|b| - |c|..];
  }

  lemma SuffixCharsWithin(line: string, rest: string)
    requires EndsWith(line, rest)
    ensures CharsWithin(rest, line)
  {
    assert forall i :: 0 <= i < |rest| ==> rest[i] == line[|line| - |rest| + i];
  }

  /** Two keys that differ in their first letter, case aside, never both match one line. */
  lemma AfterKeyEqExclusive(line: string, k1: string, k2: string)
    requires k1 != "" && k2 != "" && LowerChar(k1[0]) != LowerChar(k2[0])
    requires AfterKeyEq(line, k1, true).Some?
    ensures AfterKeyEq(line, k2, true).None?
  {
    var t := LStrip(line);
    assert t[..|k1|][0] == t[0];
    if |t| >= |k2| {
      assert t[..|k2|][0] == t[0];
    }
  }

  /** Two keys with different first letters never both have a value on one line. */
  lemma KeyValueExclusive(line: string, k1: string, k2: string)
    requires k1 != "" && k2 != "" && LowerChar(k1[0]) != LowerChar(k2[0])
    requires KeyValue(line, k1, true).Some?
    ensures KeyValue(line, k2, true).None?
  {
    AfterKeyEqExclusive(line, k1, k2);
  }

  /** The same for a raw line, comment-stripped first. */
  lemma LineValueExclusive(raw: string, k1: string, k2: string)
    requires k1 != "" && k2 != "" && LowerChar(k1[0]) != LowerChar(k2[0])
    requires LineValue(raw, k1, true).Some?
    ensures LineValue(raw, k2, true).None?
  {
    KeyValueExclusive(StripComment(raw), k1, k2);
  }

  /**
   * The group `([^"]+)` of `\s*"?([^"]+)"?\s*$` matched against the text after
   * '=', with the backtracking of a backtracking regex engine: an unquoted or
   * opened-quote run of non-quote characters, optionally closed by one quote,
   * followed only by blanks.
   */
  function QuotedGroup(r: string): (g: Option<string>)
    ensures g.Some? ==> g.value != [] && '"' !in g.value && CharsWithin(g.value, r)
  {
    var w := |r| - |LStrip(r)|;
    var t := r[w..];
    if |t| == 0 || (t[0] == '"' && |t| == 1) then
      if w > 0 then
        assert r[..w][w - 1] in Whitespace;
        Some([r[w - 1]])
      else None
    else
      var u := if t[0] != '"' then t else t[1..];
      SuffixCharsWithin(r, t);
      SuffixCharsWithin(t, u);
      CharsWithinTrans(u, t, r);
      match QuoteRun(u)
      case None => None
      case Some(g) => CharsWithinTrans(g, u, r); Some(g)
  }

  /** `([^"]+)"?\s*$` at the start of `u`: the run of non-quote characters, when only blanks can follow its closing quote. */
  function QuoteRun(u: string): (g: Option<string>)
    ensures g.Some? ==> g.value != [] && '"' !in g.value && CharsWithin(g.value, u) && StartsWith(u, g.value)
  {
    var m := CharIndex(u, '"');
    if m >= 1 && (m == |u| || IsBlank(u[m + 1..])) then
      assert forall i :: 0 <= i < m ==> u[..m][i] == u[i];
      Some(u[..m])
    else None
  }

  /** `re.match(r'^\s*KEY\s*=\s*"?([^"]+)"?\s*$', line)` and then `group(1).strip()`. */
  function KeyValue(line: string, key: string, ignoreCase: bool): (v: Option<string>)
    ensures v.Some? ==> '"' !in v.value && CharsWithin(v.value, line)
  {
    match AfterKeyEq(line, key, ignoreCase)
    case None => None
    case Some(rest) =>
      match QuotedGroup(rest)
      case None => None
      case Some(g) =>
        NotInStrip(g, '"');
        StripSetContains(g, Whitespace);
        ContainsCharsWithin(g, Strip(g));
        SuffixCharsWithin(line, rest);
        CharsWithinTrans(g, rest, line);
        CharsWithinTrans(Strip(g), g, line);
        Some(Strip(g))
  }

  /** A line of the model as the checkers read it: comment-stripped, skipped when empty, then matched. */
  function LineValue(raw: string, key: string, ignoreCase: bool): (v: Option<string>)
    ensures v.Some? ==> '"' !in v.value && '#' !in v.value && ';' !in v.value
  {
    var line := StripComment(raw);
    if line == "" then None else KeyValue(line, key, ignoreCase)
  }

  lemma AfterKeyEqDeclared(key: string, rest: string, ignoreCase: bool)
    requires key != "" && !IsSpace(key[0])
    ensures AfterKeyEq(key + "=" + rest, key, ignoreCase) == Some(rest)
  {
    var line := key + "=" + rest;
    LStripSetFixed(line, Whitespace);
    assert line[..|key|] == key;
    var after := line[|key|..];
    assert after == "=" + rest;
    LStripSetFixed(after, Whitespace);
    assert after[1..] == rest;
  }

  lemma QuotedGroupQuoted(v: string)
    requires v != "" && '"' !in v
    ensures QuotedGroup("\"" + v + "\"") == Some(v)
  {
    var r := "\"" + v + "\"";
    LStripSetFixed(r, Whitespace);
    var u := r[1..];
    assert u == v + "\"";
    assert u[..|v|] == v;
    assert CharIndex(u, '"') == |v| by { CharIndexAt(u, '"', |v|); }
    assert u[|v| + 1..] == "";
  }

  lemma QuotedGroupBare(v: string)
    requires v != "" && '"' !in v && !IsSpace(v[0])
    ensures QuotedGroup(v) == Some(v)
  {
    LStripSetFixed(v, Whitespace);
    assert v[0..] == v;
    assert CharIndex(v, '"') == |v|;
    assert v[..|v|] == v;
  }

  /** A quoted declaration `KEY="v"` reads back as `v`, trimmed. */
  lemma KeyValueQuoted(key: string, v: string, ignoreCase: bool)
    requires key != "" && !IsSpace(key[0])
    requires v != "" && '"' !in v
    ensures KeyValue(key + "=\"" + v + "\"", key, ignoreCase) == Some(Strip(v))
  {
    assert key + "=\"" + v + "\"" == key + "=" + ("\"" + v + "\"");
    AfterKeyEqDeclared(key, "\"" + v + "\"", ignoreCase);
    QuotedGroupQuoted(v);
  }

  /** An unquoted declaration `KEY=v` reads back as `v`, trimmed. */
  lemma KeyValueBare(key: string, v: string, ignoreCase: bool)
    requires key != "" && !IsSpace(key[0])
    requires v != "" && '"' !in v && !IsSpace(v[0])
    ensures KeyValue(key + "=" + v, key, ignoreCase) == Some(Strip(v))
  {
    AfterKeyEqDeclared(key, v, ignoreCase);
    QuotedGroupBare(v);
  }

  /** With `re.IGNORECASE`, two spellings of a key that differ only in case match the same lines. */
  lemma AfterKeyEqCaseBlind(line: string, key: string, key2: string)
    requires EqualsIgnoreCase(key, key2)
    ensures AfterKeyEq(line, key, true) == AfterKeyEq(line, key2, true)
  {
    var t := LStrip(line);
    if |t| >= |key| {
      var u := t[..|key|];
      assert forall i :: 0 <= i < |u| ==> (LowerChar(u[i]) == LowerChar(key[i]) <==> LowerChar(u[i]) == LowerChar(key2[i]));
      assert KeyPrefix(t, key, true) <==> KeyPrefix(t, key2, true);
    }
  }

  lemma LineValueCaseBlind(raw: string, key: string, key2: string)
    requires EqualsIgnoreCase(key, key2)
    ensures LineValue(raw, key, true) == LineValue(raw, key2, true)
  {
    AfterKeyEqCaseBlind(StripComment(raw), key, key2);
  }

  /**
   * The group `(.*?)` of `^\s*KEY\s*=\s*("?)(.*?)\1\s*$`: the text after '=',
   * with a pair of enclosing quotes removed only when both are present.
   */
  function PairedQuoteValue(line: string, key: string, ignoreCase: bool): (v: Option<string>)
    ensures v.Some? <==> AfterKeyEq(line, key, ignoreCase).Some?
  {
    match AfterKeyEq(line, key, ignoreCase)
    case None => None
    case Some(rest) => Some(Unpair(rest))
  }

  /** `\s*("?)(.*?)\1\s*$` on the text after '=': trimmed, and unquoted when both quotes are present. */
  function Unpair(rest: string): (v: string)
    ensures |v| <= |rest|
  {
    var t := RStrip(LStrip(rest));
    if |t| >= 2 && t[0] == '"' && t[|t| - 1] == '"' then t[1..|t| - 1] else t
  }

  /** `"v"` loses its quotes. */
  lemma UnpairQuoted(v: string)
    ensures Unpair("\"" + v + "\"") == v
  {
    var q := "\"" + v + "\"";
    LStripSetFixed(q, Whitespace);
    RStripSetFixed(q, Whitespace);
    assert q[1..|q| - 1] == v;
  }

  /** `"v`, with the closing quote absent, keeps its opening quote. */
  lemma UnpairUnpaired(v: string)
    requires v != "" && v[|v| - 1] != '"' && !IsSpace(v[|v| - 1])
    ensures Unpair("\"" + v) == "\"" + v
  {
    var q := "\"" + v;
    assert q[|q| - 1] == v[|v| - 1];
    LStripSetFixed(q, Whitespace);
    assert LStrip(q) == q;
    RStripSetFixed(q, Whitespace);
    assert RStrip(q) == q;
  }

  /** `KEY="v"` gives `v` with its quotes removed. */
  lemma PairedQuoteQuoted(key: string, v: string, ignoreCase: bool)
    requires key != "" && !IsSpace(key[0])
    ensures PairedQuoteValue(key + "=\"" + v + "\"", key, ignoreCase) == Some(v)
  {
    var q := "\"" + v + "\"";
    assert key + "=\"" + v + "\"" == key + "=" + q;
    AfterKeyEqDeclared(key, q, ignoreCase);
    UnpairQuoted(v);
  }

  /** `KEY="v`, with the closing quote absent, keeps its opening quote. */
  lemma PairedQuoteUnpaired(key: string, v: string, ignoreCase: bool)
    requires key != "" && !IsSpace(key[0])
    requires v != "" && v[|v| - 1] != '"' && !IsSpace(v[|v| - 1])
    ensures PairedQuoteValue(key + "=\"" + v, key, ignoreCase) == Some("\"" + v)
  {
    var q := "\"" + v;
    assert key + "=\"" + v == key + "=" + q;
    AfterKeyEqDeclared(key, q, ignoreCase);
    UnpairUnpaired(v);
  }

  // ---------------------------------------------------------------- first match

  /** The index of the first line `f` accepts, or `|lines|` when it accepts none. */
  function FirstIndex<T>(lines: seq<string>, f: string -> Option<T>): (i: nat)
    ensures i <= |lines|
    ensures i < |lines| ==> f(lines[i]).Some?
    ensures forall j :: 0 <= j < i ==> f(lines[j]).None?
    decreases |lines|
  {
    if |lines| == 0 then 0
    else if f(lines[0]).Some? then 0
    else
      var k := FirstIndex(lines[1..], f);
      assert forall j :: 1 <= j < k + 1 ==> lines[j] == lines[1..][j - 1];
      k + 1
  }

  /** What `f` makes of the first line it accepts: a loop returning at its first match. */
  function First<T>(lines: seq<string>, f: string -> Option<T>): (r: Option<T>)
    ensures r.Some? <==> exists i :: 0 <= i < |lines| && f(lines[i]).Some?
    ensures r.Some? ==> exists i :: 0 <= i < |lines| && f(lines[i]) == r && forall j :: 0 <= j < i ==> f(lines[j]).None?
  {
    var i := FirstIndex(lines, f);
    if i < |lines| then f(lines[i]) else None
  }

  /** Two line readers that agree on every line find the same first match. */
  lemma {:induction false} FirstSame<T>(lines: seq<string>, f: string -> Option<T>, g: string -> Option<T>)
    requires forall i :: 0 <= i < |lines| ==> f(lines[i]) == g(lines[i])
    ensures First(lines, f) == First(lines, g)
  {
    FirstIndexSame(lines, f, g);
  }

  lemma {:induction false} FirstIndexSame<T>(lines: seq<string>, f: string -> Option<T>, g: string -> Option<T>)
    requires forall i :: 0 <= i < |lines| ==> f(lines[i]) == g(lines[i])
    ensures FirstIndex(lines, f) == FirstIndex(lines, g)
    decreases |lines|
  {
    if |lines| > 0 && f(lines[0]).None? {
      assert forall i :: 0 <= i < |lines[1..]| ==> lines[1..][i] == lines[i + 1];
      FirstIndexSame(lines[1..], f, g);
    }
  }

  /** A line `f` accepts makes the first match the one of the first accepted line. */
  lemma FirstOf<T>(lines: seq<string>, f: string -> Option<T>, x: string)
    requires x in lines && f(x).Some?
    ensures exists i :: 0 <= i < |lines| && f(lines[i]).Some? && First(lines, f) == f(lines[i]) && forall j :: 0 <= j < i ==> f(lines[j]).None?
  {
    var k :| 0 <= k < |lines| && lines[k] == x;
    var i := FirstIndex(lines, f);
    assert i <= k;
  }

  /** A later line never changes a first match already found. */
  lemma FirstAppend<T>(lines: seq<string>, more: seq<string>, f: string -> Option<T>)
    requires First(lines, f).Some?
    ensures First(lines + more, f) == First(lines, f)
  {
    var i := FirstIndex(lines, f);
    var j := FirstIndex(lines + more, f);
    assert (lines + more)[i] == lines[i];
  }

  /** Of two lines, the second is the first match when only it matches. */
  lemma FirstOfTwo<T>(a: string, b: string, f: string -> Option<T>)
    requires f(a).None? && f(b).Some?
    ensures First([a, b], f) == f(b)
  {
    assert [a, b][1..] == [b];
    assert FirstIndex([b], f) == 0;
  }

  /** One more line: the first match so far, or else what the new line gives. */
  lemma FirstSnoc<T>(lines: seq<string>, i: nat, f: string -> Option<T>)
    requires i < |lines|
    ensures First(lines[..i + 1], f) == if First(lines[..i], f).Some? then First(lines[..i], f) else f(lines[i])
  {
    var pre := lines[..i];
    var all := lines[..i + 1];
    assert all == pre + [lines[i]];
    if First(pre, f).Some? {
      FirstAppend(pre, [lines[i]], f);
    } else {
      assert forall j :: 0 <= j < i ==> all[j] == pre[j];
    }
  }

  /** A line `f` accepts with no accepted line before it is the first match. */
  lemma FirstAt<T>(lines: seq<string>, i: nat, f: string -> Option<T>)
    requires i < |lines| && f(lines[i]).Some?
    requires forall j :: 0 <= j < i ==> f(lines[j]).None?
    ensures First(lines, f) == f(lines[i])
  {
    var k := FirstIndex(lines, f);
    assert k == i;
  }

  /** The loop that returns what `f` makes of the first line it accepts, and None after the last line. */
  method FindFirst<T>(lines: seq<string>, f: string -> Option<T>) returns (r: Option<T>)
    ensures r == First(lines, f)
  {
    var i := 0;
    while i < |lines|
      invariant 0 <= i <= |lines|
      invariant forall j :: 0 <= j < i ==> f(lines[j]).None?
    {
      var m := f(lines[i]);
      if m.Some? {
        FirstAt(lines, i, f);
        return m;
      }
      i := i + 1;
    }
    return None;
  }

  /** `_find_key_value_in_ini_text`: the first uncommented `KEY = value` line's value. */
  function FindKeyValue(lines: seq<string>, key: string, ignoreCase: bool): (r: Option<string>)
    ensures r.Some? ==> '"' !in r.value
    ensures r.Some? <==> exists i :: 0 <= i < |lines| && LineValue(lines[i], key, ignoreCase).Some?
  {
    var r := First(lines, l => LineValue(l, key, ignoreCase));
    assert r.Some? ==> exists i :: 0 <= i < |lines| && LineValue(lines[i], key, ignoreCase) == r;
    r
  }

  /** One more line: the value found so far, or else what the key's pattern makes of the new line. */
  lemma FindKeyValueStep(lines: seq<string>, i: nat, key: string)
    requires i < |lines|
    ensures FindKeyValue(lines[..i], key, true).Some? ==> FindKeyValue(lines[..i + 1], key, true) == FindKeyValue(lines[..i], key, true)
    ensures StripComment(lines[i]) == "" ==> FindKeyValue(lines[..i + 1], key, true) == FindKeyValue(lines[..i], key, true)
    ensures FindKeyValue(lines[..i], key, true).None? && StripComment(lines[i]) != "" ==>
      FindKeyValue(lines[..i + 1], key, true) == KeyValue(StripComment(lines[i]), key, true)
  {
    FirstSnoc(lines, i, l => LineValue(l, key, true));
  }

  /** A later declaration never changes the first one found. */
  lemma FindKeyValueAppend(lines: seq<string>, more: seq<string>, key: string)
    requires FindKeyValue(lines, key, true).Some?
    ensures FindKeyValue(lines + more, key, true) == FindKeyValue(lines, key, true)
  {
    FirstAppend(lines, more, l => LineValue(l, key, true));
  }

  /**
   * One line of the case-insensitive paired-quote search of check_allm_enable.py
   * and check_darkdetail_flag_pid12.py: skipped when empty or without '=' once
   * the comment is cut, else the `("?)(.*?)\1` value, trimmed.
   */
  function KvLine(raw: string, key: string): (v: Option<string>)
    ensures v.Some? ==> StripComment(raw) != "" && '=' in StripComment(raw)
    ensures StripComment(raw) != "" && '=' in StripComment(raw) ==> (v.Some? <==> AfterKeyEq(StripComment(raw), key, true).Some?)
  {
    var line := StripComment(raw);
    if line == "" || '=' !in line then None
    else match PairedQuoteValue(line, key, true)
      case None => None
      case Some(u) => Some(Strip(u))
  }

  function KvFinder(key: string): string -> Option<string>
  {
    (l: string) => KvLine(l, key)
  }

  /** `_find_kv_case_insensitive`: the value of the first line `KvLine` accepts. */
  function FindKv(lines: seq<string>, key: string): (v: Option<string>)
    ensures v.Some? <==> exists i :: 0 <= i < |lines| && KvLine(lines[i], key).Some?
    ensures v.Some? ==> exists i :: 0 <= i < |lines| && KvLine(lines[i], key) == v && forall j :: 0 <= j < i ==> KvLine(lines[j], key).None?
  {
    First(lines, KvFinder(key))
  }

  /** A quoted declaration reads back without its quotes, trimmed. */
  lemma KvLineQuoted(key: string, v: string)
    requires key != "" && !IsSpace(key[0])
    requires '#' !in key + v && ';' !in key + v
    ensures KvLine(key + "=\"" + v + "\"", key) == Some(Strip(v))
  {
    var line := key + "=\"" + v + "\"";
    assert line[|key|] == '=';
    StripCommentQuotedDeclaration(key, v);
    PairedQuoteQuoted(key, v, true);
  }

  /** A line `KvLine` accepts, after lines it skips, decides the search whatever follows. */
  lemma FindKvAt(lines: seq<string>, i: nat, key: string)
    requires i < |lines| && KvLine(lines[i], key).Some?
    requires forall j :: 0 <= j < i ==> KvLine(lines[j], key).None?
    ensures FindKv(lines, key) == KvLine(lines[i], key)
  {
    FirstAt(lines, i, KvFinder(key));
  }

  // ---------------------------------------------------------------- last wins

  /** The table a `for` loop builds by assigning `out[k] = v` for each line `f` maps to `(k, v)`. */
  function LastWins<K, V>(lines: seq<string>, f: string -> Option<(K, V)>): map<K, V>
    decreases |lines|
  {
    if |lines| == 0 then map[]
    else
      var m := LastWins(lines[..|lines| - 1], f);
      match f(lines[|lines| - 1])
      case None => m
      case Some(kv) => m[kv.0 := kv.1]
  }

  /** The loop itself, proved to build `LastWins`. */
  method CollectLastWins<K, V>(lines: seq<string>, f: string -> Option<(K, V)>) returns (out: map<K, V>)
    ensures out == LastWins(lines, f)
  {
    out := map[];
    var i := 0;
    while i < |lines|
      invariant 0 <= i <= |lines|
      invariant out == LastWins(lines[..i], f)
    {
      assert lines[..i + 1][..i] == lines[..i];
      match f(lines[i]) {
        case None =>
        case Some(kv) => out := out[kv.0 := kv.1];
      }
      i := i + 1;
    }
    assert lines[..|lines|] == lines;
  }

  /**
   * A key is in the table iff some line produces it, and its value is the one
   * the last such line gives.
   */
  lemma {:induction false} LastWinsSpec<K, V>(lines: seq<string>, f: string -> Option<(K, V)>, k: K)
    ensures k in LastWins(lines, f) <==> exists i :: 0 <= i < |lines| && f(lines[i]).Some? && f(lines[i]).value.0 == k
    ensures k in LastWins(lines, f) ==>
      exists i :: 0 <= i < |lines| && f(lines[i]) == Some((k, LastWins(lines, f)[k])) &&
        forall j :: i < j < |lines| ==> f(lines[j]).None? || f(lines[j]).value.0 != k
    decreases |lines|
  {
    if |lines| > 0 {
      var n := |lines| - 1;
      var init := lines[..n];
      LastWinsSpec(init, f, k);
      assert forall i :: 0 <= i < n ==> init[i] == lines[i];
      var m := LastWins(init, f);
      match f(lines[n]) {
        case None =>
        case Some(kv) =>
          if kv.0 == k {
            assert f(lines[n]) == Some((k, LastWins(lines, f)[k]));
          }
      }
    }
  }
}
