/**
 * Left-to-right scans over the indices of a line, the building blocks of the
 * regular expressions the checkers match: runs of characters from a class,
 * the next occurrence of a character.
 */
module Scan {
  import opened Wrappers
  import opened Text

  /** The regex class `[A-Za-z0-9_]`, as a set. */
  const WordChars: set<char> := set c: char | '0' <= c <= 'z' && IsWordChar(c)

  /** The first index at or after `i` whose character is not in `cs`, `|s|` when there is none. */
  function SkipSet(s: string, i: nat, cs: set<char>): (r: nat)
    requires i <= |s|
    ensures i <= r <= |s| && (r < |s| ==> s[r] !in cs) && forall j :: i <= j < r ==> s[j] in cs
    decreases |s| - i
  {
    if i < |s| && s[i] in cs then SkipSet(s, i + 1, cs) else i
  }

  lemma {:induction false} SkipSetAt(s: string, i: nat, j: nat, cs: set<char>)
    requires i <= j <= |s| && (j < |s| ==> s[j] !in cs) && forall k :: i <= k < j ==> s[k] in cs
    ensures SkipSet(s, i, cs) == j
    decreases j - i
  {
    if i < j {
      SkipSetAt(s, i + 1, j, cs);
    }
  }

  /** A run of `cs` characters from `i` up to `j`, then another character or the end: the scan stops at `j`. */
  lemma SkipSetOver(s: string, i: nat, j: nat, cs: set<char>)
    requires i <= j <= |s| && AllIn(s[i..j], cs) && (j < |s| ==> s[j] !in cs)
    ensures SkipSet(s, i, cs) == j
  {
    assert forall k :: i <= k < j ==> s[k] == s[i..j][k - i];
    SkipSetAt(s, i, j, cs);
  }

  /** What the scan from `i` passes over is a run of `cs` characters. */
  lemma SkipSetRun(s: string, i: nat, cs: set<char>)
    requires i <= |s|
    ensures AllIn(s[i..SkipSet(s, i, cs)], cs)
  {
    var r := SkipSet(s, i, cs);
    assert forall k :: 0 <= k < r - i ==> s[i..r][k] == s[i + k];
  }

  /** The first index at or after `i` holding `c`, `|s|` when there is none. */
  function FindChar(s: string, i: nat, c: char): (r: nat)
    requires i <= |s|
    ensures i <= r <= |s| && (r < |s| ==> s[r] == c) && forall j :: i <= j < r ==> s[j] != c
    decreases |s| - i
  {
    if i < |s| && s[i] != c then FindChar(s, i + 1, c) else i
  }

  lemma {:induction false} FindCharAt(s: string, i: nat, j: nat, c: char)
    requires i <= j < |s| && s[j] == c && forall k :: i <= k < j ==> s[k] != c
    ensures FindChar(s, i, c) == j
    decreases j - i
  {
    if i < j {
      FindCharAt(s, i + 1, j, c);
    }
  }

  /** The first index at or after `i` whose character is in `cs`, `|s|` when there is none. */
  function SkipOut(s: string, i: nat, cs: set<char>): (r: nat)
    requires i <= |s|
    ensures i <= r <= |s| && (r < |s| ==> s[r] in cs) && forall j :: i <= j < r ==> s[j] !in cs
    decreases |s| - i
  {
    if i < |s| && s[i] !in cs then SkipOut(s, i + 1, cs) else i
  }

  lemma {:induction false} SkipOutAt(s: string, i: nat, j: nat, cs: set<char>)
    requires i <= j <= |s| && (j < |s| ==> s[j] in cs) && forall k :: i <= k < j ==> s[k] !in cs
    ensures SkipOut(s, i, cs) == j
    decreases j - i
  {
    if i < j {
      SkipOutAt(s, i + 1, j, cs);
    }
  }

  /** The first position in `i..n` where `f` finds something, `n + 1` when there is none. */
  function SearchIndex<T>(n: nat, i: nat, f: nat -> Option<T>): (p: nat)
    requires i <= n + 1
    ensures i <= p <= n + 1 && (p <= n ==> f(p).Some?) && forall q :: i <= q < p ==> f(q).None?
    decreases n + 1 - i
  {
    if i <= n && f(i).None? then SearchIndex(n, i + 1, f) else i
  }

  /** A position where `f` finds something after positions where it finds nothing is the one the search stops at. */
  lemma {:induction false} SearchIndexIs<T>(n: nat, i: nat, p: nat, f: nat -> Option<T>)
    requires i <= p <= n + 1 && (p <= n ==> f(p).Some?) && forall q :: i <= q < p ==> f(q).None?
    ensures SearchIndex(n, i, f) == p
    decreases p - i
  {
    if i < p {
      SearchIndexIs(n, i + 1, p, f);
    }
  }

  /** Two tests that find something at the same positions stop the search at the same place. */
  lemma SearchIndexSame<T, U>(n: nat, i: nat, f: nat -> Option<T>, g: nat -> Option<U>)
    requires i <= n + 1
    requires forall p :: i <= p <= n ==> f(p).Some? == g(p).Some?
    ensures SearchIndex(n, i, f) == SearchIndex(n, i, g)
  {
    SearchIndexIs(n, i, SearchIndex(n, i, f), g);
  }

  /** What `f` finds at the first position in `i..n` where it finds something (`re.search` over candidate starts). */
  function SearchFrom<T>(n: nat, i: nat, f: nat -> Option<T>): (r: Option<T>)
    requires i <= n
    ensures r.Some? ==> exists p :: i <= p <= n && f(p) == r && forall q :: i <= q < p ==> f(q).None?
    ensures r.None? ==> forall q :: i <= q <= n ==> f(q).None?
  {
    var p := SearchIndex(n, i, f);
    if p <= n then f(p) else None
  }

  /** Where `^` matches under `re.MULTILINE`: the start of the text or just after a '\n'. */
  predicate LineStart(text: string, i: nat)
  {
    i <= |text| && (i == 0 || text[i - 1] == '\n')
  }

  /**
   * The INI section pattern `^\s*\[([^\]]+)\]\s*$` (`_SECTION_RE` of
   * check_VRR_QMS.py, the header test of check_allm_enable.py): blanks, '[', a
   * non-empty name without ']', the first ']', then only blanks; the result is
   * group 1.
   */
  function SectionHeader(line: string): (r: Option<string>)
    ensures r.Some? ==> r.value != "" && ']' !in r.value
  {
    var i := SkipSet(line, 0, Whitespace);
    if i == |line| || line[i] != '[' then None
    else
      var k := FindChar(line, i + 1, ']');
      if k == i + 1 || k == |line| || SkipSet(line, k + 1, Whitespace) != |line| then None
      else Some(line[i + 1..k])
  }

  /** The header read off the indices the pattern stops at. */
  lemma SectionHeaderIs(line: string, g: string, i: nat, k: nat)
    requires i + 1 < k < |line| && line[i] == '[' && line[i + 1..k] == g
    requires SkipSet(line, 0, Whitespace) == i && FindChar(line, i + 1, ']') == k && SkipSet(line, k + 1, Whitespace) == |line|
    ensures SectionHeader(line) == Some(g)
  {
  }

  /** The positions of the pieces of a header line. */
  lemma HeaderLine(p: string, g: string, q: string)
    ensures var line := p + "[" + g + "]" + q; var k := |p| + 1 + |g|;
      |line| == k + 1 + |q| && line[0..|p|] == p && line[|p|] == '[' && line[|p| + 1..k] == g && line[k] == ']' && line[k + 1..] == q
  {
    var l1 := p + "[";
    var l2 := l1 + g;
    var l3 := l2 + "]";
    var line := l3 + q;
    assert line[..|l3|] == l3;
    assert l3[..|l2|] == l2;
    assert l2[..|l1|] == l1;
  }

  /** The section pattern on a line whose pieces sit where `HeaderLine` puts them. */
  lemma HeaderPiecesMatch(line: string, p: string, g: string, q: string)
    requires IsBlank(p) && IsBlank(q) && g != "" && ']' !in g
    requires var k := |p| + 1 + |g|;
      |line| == k + 1 + |q| && line[0..|p|] == p && line[|p|] == '[' && line[|p| + 1..k] == g && line[k] == ']' && line[k + 1..] == q
    ensures SectionHeader(line) == Some(g)
  {
    var k := |p| + 1 + |g|;
    assert '[' !in Whitespace;
    SkipSetOver(line, 0, |p|, Whitespace);
    assert forall j :: |p| + 1 <= j < k ==> line[j] == g[j - |p| - 1];
    FindCharAt(line, |p| + 1, k, ']');
    SkipSetOver(line, k + 1, |line|, Whitespace);
    SectionHeaderIs(line, g, |p|, k);
  }

  /** Every line of the header shape matches the section pattern, with group 1 the bracketed name. */
  lemma SectionHeaderOf(p: string, g: string, q: string)
    requires IsBlank(p) && IsBlank(q) && g != "" && ']' !in g
    ensures SectionHeader(p + "[" + g + "]" + q) == Some(g)
  {
    HeaderLine(p, g, q);
    HeaderPiecesMatch(p + "[" + g + "]" + q, p, g, q);
  }

  /** A matching line has the header shape: the match leaves nothing unexplained. */
  lemma SectionHeaderShape(line: string) returns (p: string, q: string)
    requires SectionHeader(line).Some?
    ensures IsBlank(p) && IsBlank(q) && line == p + "[" + SectionHeader(line).value + "]" + q
  {
    var i := SkipSet(line, 0, Whitespace);
    var k := FindChar(line, i + 1, ']');
    p := line[..i];
    q := line[k + 1..];
    SkipSetRun(line, 0, Whitespace);
    SkipSetRun(line, k + 1, Whitespace);
    assert line[0..i] == p;
    assert line == p + "[" + line[i + 1..k] + "]" + q by {
      assert line[..i + 1] == p + "[";
      assert line[..k] == line[..i + 1] + line[i + 1..k];
      assert line[..k + 1] == line[..k] + "]";
      assert line == line[..k + 1] + q;
    }
  }
}
