/**
 * `re.search` for the few patterns the checkers look for anywhere in a line:
 * the leftmost position at which a pattern matches, and what it captures there.
 */
module Search {
  import opened Wrappers
  import opened Text
  import opened Ini
  import Scan

  /** The first position at or after `i` where `f` matches the rest of `s`, or `|s| + 1`. */
  function SearchIndex<T>(s: string, f: string -> Option<T>, i: nat): (k: nat)
    requires i <= |s|
    ensures i <= k <= |s| + 1
    ensures k <= |s| ==> f(s[k..]).Some?
    ensures forall j :: i <= j < k && j <= |s| ==> f(s[j..]).None?
    decreases |s| - i
  {
    if f(s[i..]).Some? then i else if i == |s| then |s| + 1 else SearchIndex(s, f, i + 1)
  }

  /** What `f` captures at the leftmost position of `s` where it matches. */
  function SearchValue<T>(s: string, f: string -> Option<T>): (r: Option<T>)
    ensures r.Some? <==> exists i :: 0 <= i <= |s| && f(s[i..]).Some?
    ensures r.Some? ==> exists i :: 0 <= i <= |s| && f(s[i..]) == r && forall j :: 0 <= j < i ==> f(s[j..]).None?
  {
    var k := SearchIndex(s, f, 0);
    if k <= |s| then f(s[k..]) else None
  }

  /** A pattern that matches at the very start is the one found. */
  lemma SearchAtStart<T>(s: string, f: string -> Option<T>)
    requires f(s).Some?
    ensures SearchValue(s, f) == f(s)
  {
    assert s[0..] == s;
  }

  /** `p` is the first line start of `s` from which `f` matches the rest of the text. */
  ghost predicate FirstLineMatch<T>(s: string, f: string -> Option<T>, p: nat)
  {
    Scan.LineStart(s, p) && f(s[p..]).Some? &&
    forall q: nat :: q < p && Scan.LineStart(s, q) ==> f(s[q..]).None?
  }

  /** The first line start at or after `i` from which `f` matches, or `|s| + 1`. */
  function LineSearchIndex<T>(s: string, f: string -> Option<T>, i: nat): (k: nat)
    requires i <= |s|
    ensures i <= k <= |s| + 1
    ensures k <= |s| ==> Scan.LineStart(s, k) && f(s[k..]).Some?
    ensures forall j: nat :: i <= j < k && Scan.LineStart(s, j) ==> f(s[j..]).None?
    decreases |s| - i
  {
    if Scan.LineStart(s, i) && f(s[i..]).Some? then i
    else if i == |s| then |s| + 1
    else LineSearchIndex(s, f, i + 1)
  }

  /**
   * `re.search` under `re.MULTILINE` for a pattern that opens with `^`: what
   * `f` captures from the first line start where it matches.  `f` sees the
   * whole rest of the text, so what it matches may run over line ends.
   */
  function LineSearch<T>(s: string, f: string -> Option<T>): (r: Option<T>)
    ensures r.Some? ==> exists p: nat :: FirstLineMatch(s, f, p) && f(s[p..]) == r
    ensures r.None? <==> forall p: nat :: Scan.LineStart(s, p) ==> f(s[p..]).None?
  {
    var k := LineSearchIndex(s, f, 0);
    if k <= |s| then f(s[k..]) else None
  }

  /** The first line start that matches is the one the search reports. */
  lemma LineSearchAt<T>(s: string, f: string -> Option<T>, p: nat)
    requires FirstLineMatch(s, f, p)
    ensures LineSearch(s, f) == f(s[p..])
  {
    var k := LineSearchIndex(s, f, 0);
    assert k <= p;
    assert k == p;
  }

  /** `KEY\s*=\s*` at the start of `t`: the text after it. */
  function KeyEqRest(t: string, key: string, ignoreCase: bool): (r: Option<string>)
    ensures r.Some? ==> KeyPrefix(t, key, ignoreCase) && (r.value == [] || !IsSpace(r.value[0]))
  {
    if KeyPrefix(t, key, ignoreCase) then
      match AfterEq(t[|key|..])
      case None => None
      case Some(u) => Some(LStrip(u))
    else None
  }

  /** `"([^"]*)"` (or `"([^"]+)"` when `allowEmpty` is false) at the start of `b`: the quoted text. */
  function QuotedAt(b: string, allowEmpty: bool): (r: Option<string>)
    ensures r.Some? ==> '"' !in r.value && (allowEmpty || r.value != [])
    ensures r.Some? ==> StartsWith(b, "\"" + r.value + "\"")
  {
    if |b| > 0 && b[0] == '"' then
      var k := CharIndex(b[1..], '"');
      if k < |b| - 1 && (allowEmpty || k > 0) then
        assert b[..k + 2] == "\"" + b[1..][..k] + "\"";
        Some(b[1..][..k])
      else None
    else None
  }

  /** `KEY\s*=\s*"([^"]*)"` at the start of `t`: the quoted text. */
  function QuotedMatch(t: string, key: string, allowEmpty: bool): (r: Option<string>)
    ensures r.Some? ==> '"' !in r.value
  {
    match KeyEqRest(t, key, false)
    case None => None
    case Some(b) => QuotedAt(b, allowEmpty)
  }

  /** `re.search(KEY + r'\s*=\s*"([^"]+)"', line)`, the quoted text found (not yet trimmed). */
  function QuotedSearch(line: string, key: string, allowEmpty: bool): (r: Option<string>)
    ensures r.Some? ==> '"' !in r.value
  {
    var f := t => QuotedMatch(t, key, allowEmpty);
    var r := SearchValue(line, f);
    assert r.Some? ==> '"' !in r.value by {
      if r.Some? {
        var i :| 0 <= i <= |line| && f(line[i..]) == r;
      }
    }
    r
  }

  /** A line that starts with a quoted declaration yields its quoted text. */
  lemma QuotedSearchDeclared(key: string, v: string, allowEmpty: bool)
    requires key != [] && '"' !in v && (allowEmpty || v != [])
    ensures QuotedSearch(key + "=\"" + v + "\"", key, allowEmpty) == Some(v)
  {
    var line := key + "=\"" + v + "\"";
    QuotedMatchDeclared(key, v, allowEmpty);
    SearchAtStart(line, t => QuotedMatch(t, key, allowEmpty));
  }

  lemma QuotedMatchDeclared(key: string, v: string, allowEmpty: bool)
    requires key != [] && '"' !in v && (allowEmpty || v != [])
    ensures QuotedMatch(key + "=\"" + v + "\"", key, allowEmpty) == Some(v)
  {
    var q := "\"" + v + "\"";
    assert key + "=\"" + v + "\"" == key + "=" + q;
    KeyEqRestDeclared(key, q, false);
    QuotedAtQuoted(v, allowEmpty);
  }

  lemma KeyEqRestDeclared(key: string, q: string, ignoreCase: bool)
    requires key != [] && (q == [] || !IsSpace(q[0]))
    ensures KeyEqRest(key + "=" + q, key, ignoreCase) == Some(q)
  {
    var line := key + "=" + q;
    assert line[..|key|] == key;
    assert KeyPrefix(line, key, ignoreCase);
    assert line[|key|..] == "=" + q;
    AfterEqAtStart(q);
    assert AfterEq(line[|key|..]) == Some(q);
    LStripSetFixed(q, Whitespace);
  }

  lemma AfterEqAtStart(q: string)
    ensures AfterEq("=" + q) == Some(q)
  {
    var after := "=" + q;
    assert after[0] == '=';
    LStripSetFixed(after, Whitespace);
    assert after[1..] == q;
  }

  lemma QuotedAtQuoted(v: string, allowEmpty: bool)
    requires '"' !in v && (allowEmpty || v != [])
    ensures QuotedAt("\"" + v + "\"", allowEmpty) == Some(v)
  {
    var q := "\"" + v + "\"";
    assert q[1..] == v + "\"";
    assert CharIndex(v + "\"", '"') == |v| by { CharIndexAt(v + "\"", '"', |v|); }
    assert (v + "\"")[..|v|] == v;
  }

  /** `"v"` at the start of a text is captured whatever follows it. */
  lemma QuotedAtLead(v: string, rest: string, allowEmpty: bool)
    requires '"' !in v && (allowEmpty || v != [])
    ensures QuotedAt("\"" + v + "\"" + rest, allowEmpty) == Some(v)
  {
    var b := "\"" + v + "\"" + rest;
    assert b[1..] == v + ("\"" + rest);
    assert CharIndex(v + ("\"" + rest), '"') == |v| by { CharIndexAt(v + ("\"" + rest), '"', |v|); }
    assert (v + ("\"" + rest))[..|v|] == v;
  }

  /**
   * `_extract_quoted_value(line, key)` of check_EWBS.py and check_japan_only.py:
   * the trimmed text of the first `KEY\s*=\s*"([^"]+)"`, or "" when there is none.
   */
  function ExtractQuotedValue(line: string, key: string): (v: string)
    ensures '"' !in v
    ensures QuotedSearch(line, key, false).None? ==> v == ""
  {
    match QuotedSearch(line, key, false)
    case None => ""
    case Some(g) => NotInStrip(g, '"'); Strip(g)
  }

  /** A quoted declaration gives back its trimmed contents. */
  lemma ExtractQuotedDeclared(key: string, v: string)
    requires key != [] && '"' !in v && v != []
    ensures ExtractQuotedValue(key + "=\"" + v + "\"", key) == Strip(v)
  {
    QuotedSearchDeclared(key, v, false);
  }

  // ---------------------------------------------------------------- counting

  /** `w` occurs at `i` of `s`, ignoring ASCII case. */
  predicate OccursAtIgnoreCase(s: string, w: string, i: nat)
  {
    i + |w| <= |s| && EqualsIgnoreCase(s[i..i + |w|], w)
  }

  /** `re.search(re.escape(w), s, re.IGNORECASE)` succeeds. */
  predicate ContainsIgnoreCase(s: string, w: string)
  {
    exists i :: 0 <= i <= |s| - |w| && OccursAtIgnoreCase(s, w, i)
  }

  /** `len(re.findall(re.escape(w), s, re.IGNORECASE))`: matches counted left to right without overlap. */
  function CountMatches(s: string, w: string): (n: nat)
    requires |w| > 0
    decreases |s|
  {
    if |s| < |w| then 0
    else if EqualsIgnoreCase(s[..|w|], w) then 1 + CountMatches(s[|w|..], w)
    else CountMatches(s[1..], w)
  }

  lemma OccursShift(s: string, w: string, k: nat, i: nat)
    requires k <= |s|
    ensures OccursAtIgnoreCase(s[k..], w, i) <==> OccursAtIgnoreCase(s, w, k + i)
  {
    if i + |w| <= |s| - k {
      assert s[k..][i..i + |w|] == s[k + i..k + i + |w|];
    }
  }

  /** No match is counted exactly when there is no occurrence. */
  lemma {:induction false} CountMatchesZero(s: string, w: string)
    requires |w| > 0
    ensures CountMatches(s, w) == 0 <==> !ContainsIgnoreCase(s, w)
    decreases |s|
  {
    if |s| < |w| {
    } else if EqualsIgnoreCase(s[..|w|], w) {
      assert OccursAtIgnoreCase(s, w, 0);
    } else {
      CountMatchesZero(s[1..], w);
      if ContainsIgnoreCase(s, w) {
        var i :| 0 <= i <= |s| - |w| && OccursAtIgnoreCase(s, w, i);
        assert i != 0;
        OccursShift(s, w, 1, i - 1);
      }
      if ContainsIgnoreCase(s[1..], w) {
        var i :| 0 <= i <= |s[1..]| - |w| && OccursAtIgnoreCase(s[1..], w, i);
        OccursShift(s, w, 1, i);
      }
    }
  }
}
