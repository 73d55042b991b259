/**
 * String primitives with Python's semantics: `str.strip`, `str.lower`,
 * `str.startswith`, `in`, `str.find`, `str.split`, `re.split` on a
 * character class, `str.splitlines` and `int()`.
 */
module Text {
  import opened Wrappers

  /** The characters for which Python's `str.isspace()` holds; also the regex class `\s`. */
  predicate IsSpace(c: char)
  {
    c == ' ' || '\t' <= c <= '\r' || '\U{001C}' <= c <= '\U{001F}' || c == '\U{0085}' || c == '\U{00A0}' ||
    c == '\U{1680}' || '\U{2000}' <= c <= '\U{200A}' || c == '\U{2028}' || c == '\U{2029}' ||
    c == '\U{202F}' || c == '\U{205F}' || c == '\U{3000}'
  }

  /** The same characters as a set, for the `strip` family. */
  const Whitespace: set<char> := set c: char | '\U{0000}' <= c <= '\U{3000}' && IsSpace(c)

  predicate AllIn(s: string, cs: set<char>) { forall i :: 0 <= i < |s| ==> s[i] in cs }

  predicate NoneIn(s: string, cs: set<char>) { forall i :: 0 <= i < |s| ==> s[i] !in cs }

  predicate IsBlank(s: string) { AllIn(s, Whitespace) }

  /** Python `s[i:j]` for indices that are not negative: both ends are cut to the length. */
  function Slice(s: string, i: nat, j: nat): (r: string)
    ensures i <= j <= |s| ==> r == s[i..j]
    ensures |r| <= |s| && (r != "" ==> i + |r| <= |s| && r == s[i..i + |r|])
    ensures r != "" ==> i + |r| <= j
  {
    var a := if i <= |s| then i else |s|;
    var z := if j <= |s| then j else |s|;
    if a < z then s[a..z] else ""
  }

  // ---------------------------------------------------------------- stripping

  /** Python `s.lstrip(chars)`: the longest suffix of `s` not starting with a char of `cs`. */
  function LStripSet(s: string, cs: set<char>): (r: string)
    ensures |r| <= |s| && r == s[|s| - |r|..]
    ensures r == [] || r[0] !in cs
    ensures AllIn(s[..|s| - |r|], cs)
    decreases |s|
  {
    if |s| > 0 && s[0] in cs then
      var r := LStripSet(s[1..], cs);
      assert s[1..][|s| - 1 - |r|..] == s[|s| - |r|..];
      assert s[..|s| - |r|] == [s[0]] + s[1..][..|s| - 1 - |r|];
      r
    else s
  }

  /** Python `s.rstrip(chars)`: the longest prefix of `s` not ending with a char of `cs`. */
  function RStripSet(s: string, cs: set<char>): (r: string)
    ensures |r| <= |s| && r == s[..|r|]
    ensures r == [] || r[|r| - 1] !in cs
    ensures AllIn(s[|r|..], cs)
    decreases |s|
  {
    if |s| > 0 && s[|s| - 1] in cs then
      var r := RStripSet(s[..|s| - 1], cs);
      assert s[..|s| - 1][..|r|] == s[..|r|];
      assert s[|r|..] == s[..|s| - 1][|r|..] + [s[|s| - 1]];
      r
    else s
  }

  /** Python `s.strip(chars)`. */
  function StripSet(s: string, cs: set<char>): (r: string)
    ensures r == [] || (r[0] !in cs && r[|r| - 1] !in cs)
  {
    RStripSet(LStripSet(s, cs), cs)
  }

  /** What `strip` keeps is a piece of the original text. */
  lemma StripSetContains(s: string, cs: set<char>)
    ensures Contains(s, StripSet(s, cs))
  {
    var l := LStripSet(s, cs);
    assert OccursAt(s, StripSet(s, cs), |s| - |l|);
  }

  /** What `strip` keeps of a string drawn from `ds` is still drawn from `ds`. */
  lemma StripSetAllIn(s: string, cs: set<char>, ds: set<char>)
    requires AllIn(s, ds)
    ensures AllIn(StripSet(s, cs), ds)
  {
    var l := LStripSet(s, cs);
    AllInSlice(s, |s| - |l|, |s|, ds);
    AllInSlice(l, 0, |RStripSet(l, cs)|, ds);
  }

  /** A slice of a string drawn from `ds` is drawn from `ds`. */
  lemma AllInSlice(s: string, a: nat, b: nat, ds: set<char>)
    requires AllIn(s, ds) && a <= b <= |s|
    ensures AllIn(s[a..b], ds)
  {
    forall k | 0 <= k < b - a
      ensures s[a..b][k] in ds
    {
      assert s[a..b][k] == s[a + k];
    }
  }

  function Strip(s: string): string { StripSet(s, Whitespace) }
  function LStrip(s: string): string { LStripSet(s, Whitespace) }
  function RStrip(s: string): string { RStripSet(s, Whitespace) }

  /** One leading char of `cs` before one that is not: only that char goes. */
  lemma LStripOne(s: string, cs: set<char>)
    requires |s| >= 2 && s[0] in cs && s[1] !in cs
    ensures LStripSet(s, cs) == s[1..]
  {
    LStripSetFixed(s[1..], cs);
  }

  lemma LStripSetFixed(s: string, cs: set<char>)
    requires s == [] || s[0] !in cs
    ensures LStripSet(s, cs) == s
  {
  }

  lemma RStripSetFixed(s: string, cs: set<char>)
    requires s == [] || s[|s| - 1] !in cs
    ensures RStripSet(s, cs) == s
  {
  }

  /** Stripping twice is stripping once. */
  lemma StripSetIdempotent(s: string, cs: set<char>)
    ensures StripSet(StripSet(s, cs), cs) == StripSet(s, cs)
  {
    var r := StripSet(s, cs);
    LStripSetFixed(r, cs);
    RStripSetFixed(r, cs);
  }

  /** A string that neither starts nor ends with a char of `cs` is its own strip. */
  lemma StripSetFixed(s: string, cs: set<char>)
    requires s == [] || (s[0] !in cs && s[|s| - 1] !in cs)
    ensures StripSet(s, cs) == s
  {
    LStripSetFixed(s, cs);
    RStripSetFixed(s, cs);
  }

  /** The strip of an all-`cs` string is empty, and only such strings strip to empty. */
  lemma LStripSetEmpty(s: string, cs: set<char>)
    ensures LStripSet(s, cs) == [] <==> AllIn(s, cs)
  {
    var r := LStripSet(s, cs);
    assert s[..|s| - |r|] == s || r != [];
  }

  lemma StripEmptyIffBlank(s: string)
    ensures Strip(s) == [] <==> IsBlank(s)
  {
    LStripSetEmpty(s, Whitespace);
  }

  /** Leading characters of `cs` disappear under `lstrip`. */
  lemma {:induction false} LStripSetPrefix(p: string, t: string, cs: set<char>)
    requires AllIn(p, cs)
    ensures LStripSet(p + t, cs) == LStripSet(t, cs)
    decreases |p|
  {
    if p == [] {
      assert p + t == t;
    } else {
      assert (p + t)[1..] == p[1..] + t;
      LStripSetPrefix(p[1..], t, cs);
    }
  }

  /** Blanks before a text that starts with a non-blank are exactly what `lstrip` removes. */
  lemma LStripPadded(p: string, t: string)
    requires IsBlank(p) && t != [] && t[0] !in Whitespace
    ensures LStrip(p + t) == t
  {
    LStripSetPrefix(p, t, Whitespace);
    LStripSetFixed(t, Whitespace);
  }

  /** Trailing characters of `cs` disappear under `rstrip`. */
  lemma {:induction false} RStripSetSuffix(t: string, q: string, cs: set<char>)
    requires AllIn(q, cs)
    ensures RStripSet(t + q, cs) == RStripSet(t, cs)
    decreases |q|
  {
    if q == [] {
      assert t + q == t;
    } else {
      assert (t + q)[..|t + q| - 1] == t + q[..|q| - 1];
      RStripSetSuffix(t, q[..|q| - 1], cs);
    }
  }

  /** `lstrip` of `x + q` keeps `q` whole unless `x` strips away entirely. */
  lemma {:induction false} LStripSetAppend(x: string, q: string, cs: set<char>)
    ensures LStripSet(x, cs) != [] ==> LStripSet(x + q, cs) == LStripSet(x, cs) + q
    ensures LStripSet(x, cs) == [] ==> LStripSet(x + q, cs) == LStripSet(q, cs)
    decreases |x|
  {
    if x == [] {
      assert x + q == q;
    } else if x[0] in cs {
      assert (x + q)[1..] == x[1..] + q;
      LStripSetAppend(x[1..], q, cs);
    } else {
      assert (x + q)[0] == x[0];
    }
  }

  /** Blank margins do not change a strip. */
  lemma StripSetPad(p: string, x: string, q: string, cs: set<char>)
    requires AllIn(p, cs) && AllIn(q, cs)
    ensures StripSet(p + x + q, cs) == StripSet(x, cs)
  {
    assert p + x + q == p + (x + q);
    LStripSetPrefix(p, x + q, cs);
    LStripSetAppend(x, q, cs);
    if LStripSet(x, cs) != [] {
      RStripSetSuffix(LStripSet(x, cs), q, cs);
    } else {
      LStripSetEmpty(q, cs);
    }
  }

  // ---------------------------------------------------------------- case

  function LowerChar(c: char): char
  {
    if 'A' <= c <= 'Z' then (c as int + 32) as char else c
  }

  function UpperChar(c: char): char
  {
    if 'a' <= c <= 'z' then (c as int - 32) as char else c
  }

  /** Python `s.lower()`, on the ASCII letters. */
  function Lower(s: string): (r: string)
    ensures |r| == |s| && forall i :: 0 <= i < |s| ==> r[i] == LowerChar(s[i])
  {
    seq(|s|, i requires 0 <= i < |s| => LowerChar(s[i]))
  }

  /** Python `s.upper()`, on the ASCII letters. */
  function Upper(s: string): (r: string)
    ensures |r| == |s| && forall i :: 0 <= i < |s| ==> r[i] == UpperChar(s[i])
  {
    seq(|s|, i requires 0 <= i < |s| => UpperChar(s[i]))
  }

  predicate IsUpperCase(s: string) { forall i :: 0 <= i < |s| ==> !('a' <= s[i] <= 'z') }

  /** A string without lower-case letters is its own upper-casing. */
  lemma UpperFixed(s: string)
    requires IsUpperCase(s)
    ensures Upper(s) == s
  {
    assert forall i :: 0 <= i < |s| ==> UpperChar(s[i]) == s[i];
  }

  predicate IsLowerCase(s: string) { forall i :: 0 <= i < |s| ==> !('A' <= s[i] <= 'Z') }

  /** The result of `upper()` has no lower-case letter, and upper-casing is idempotent. */
  lemma UpperIsUpper(s: string)
    ensures IsUpperCase(Upper(s)) && Upper(Upper(s)) == Upper(s)
  {
  }

  lemma LowerIsLower(s: string)
    ensures IsLowerCase(Lower(s)) && Lower(Lower(s)) == Lower(s)
  {
  }

  /** Case-insensitive equality as Python's `re.IGNORECASE` applies it to ASCII letters. */
  predicate EqualsIgnoreCase(a: string, b: string)
  {
    |a| == |b| && forall i :: 0 <= i < |a| ==> LowerChar(a[i]) == LowerChar(b[i])
  }

  /** Comparing against either of two case-blind-equal strings gives the same answer. */
  lemma IgnoreCaseSameAgainst(s: string, a: string, b: string)
    requires EqualsIgnoreCase(a, b)
    ensures EqualsIgnoreCase(s, a) == EqualsIgnoreCase(s, b)
  {
  }

  // ---------------------------------------------------------------- searching

  predicate StartsWith(s: string, p: string) { |p| <= |s| && s[..|p|] == p }

  /** A string followed by anything starts with that string. */
  lemma StartsWithJoin(p: string, s: string)
    ensures StartsWith(p + s, p)
  {
    assert (p + s)[..|p|] == p;
  }

  predicate EndsWith(s: string, p: string) { |p| <= |s| && s[|s| - |p|..] == p }

  predicate OccursAt(s: string, t: string, i: int) { 0 <= i && i + |t| <= |s| && s[i..i + |t|] == t }

  /** Python `t in s`. */
  predicate Contains(s: string, t: string) { exists i :: 0 <= i <= |s| - |t| && OccursAt(s, t, i) }

  /** Python `s.find(t, i)`: the first occurrence at or after `i`, or -1. */
  function FindFrom(s: string, t: string, i: nat): (r: int)
    requires i <= |s|
    ensures r == -1 || (i <= r && OccursAt(s, t, r))
    ensures forall j :: i <= j && (r == -1 || j < r) ==> !OccursAt(s, t, j)
    decreases |s| - i
  {
    if OccursAt(s, t, i) then i else if i == |s| then -1 else FindFrom(s, t, i + 1)
  }

  function Find(s: string, t: string): (r: int)
    ensures r == -1 <==> !Contains(s, t)
    ensures r != -1 ==> OccursAt(s, t, r) && forall j :: 0 <= j < r ==> !OccursAt(s, t, j)
  {
    FindFrom(s, t, 0)
  }

  /** The index of the first `c` in `s`, or `|s|` when there is none. */
  function CharIndex(s: string, c: char): (k: nat)
    ensures k <= |s| && (k < |s| ==> s[k] == c) && c !in s[..k]
    decreases |s|
  {
    if |s| == 0 then 0 else if s[0] == c then 0 else 1 + CharIndex(s[1..], c)
  }

  lemma CharIndexAt(s: string, c: char, k: nat)
    requires k < |s| && s[k] == c && c !in s[..k]
    ensures CharIndex(s, c) == k
  {
  }

  lemma CharIndexPrefix(a: string, b: string, c: char)
    requires c in a
    ensures CharIndex(a + b, c) == CharIndex(a, c)
  {
    var k := CharIndex(a, c);
    assert (a + b)[..k] == a[..k];
    CharIndexAt(a + b, c, k);
  }

  /** Every character of `a` occurs in `b`. */
  predicate CharsWithin(a: string, b: string) { forall i :: 0 <= i < |a| ==> a[i] in b }

  lemma ContainsCharsWithin(s: string, r: string)
    requires Contains(s, r)
    ensures CharsWithin(r, s)
  {
    var i :| 0 <= i <= |s| - |r| && OccursAt(s, r, i);
    assert forall j :: 0 <= j < |r| ==> r[j] == s[i + j];
  }

  /** Containment is transitive. */
  lemma ContainsTrans(a: string, b: string, c: string)
    requires Contains(a, b) && Contains(b, c)
    ensures Contains(a, c)
  {
    var i :| 0 <= i <= |a| - |b| && OccursAt(a, b, i);
    var j :| 0 <= j <= |b| - |c| && OccursAt(b, c, j);
    assert a[i..i + |b|] == b;
    assert b[j..j + |c|] == c;
    assert forall k :: 0 <= k < |c| ==> a[i + j..i + j + |c|][k] == b[j + k] == c[k];
    assert OccursAt(a, c, i + j);
  }

  lemma CharsWithinTrans(a: string, b: string, c: string)
    requires CharsWithin(a, b) && CharsWithin(b, c)
    ensures CharsWithin(a, c)
  {
    forall i | 0 <= i < |a| ensures a[i] in c {
      var j :| 0 <= j < |b| && b[j] == a[i];
    }
  }

  /** The first `c` in a prefix `s[..n]` is the first in `s`, unless that lies beyond `n`. */
  lemma CharIndexTake(s: string, n: nat, c: char)
    requires n <= |s|
    ensures CharIndex(s[..n], c) == if CharIndex(s, c) < n then CharIndex(s, c) else n
  {
    var t := CharIndex(s, c);
    if t < n {
      assert s[..n][..t] == s[..t];
      CharIndexAt(s[..n], c, t);
    } else {
      assert s[..n] == s[..t][..n];
    }
  }

  /** Python `s.split(c, 1)[0]`: the text before the first `c`. */
  function Before(s: string, c: char): (r: string)
    ensures c !in r && StartsWith(s, r)
    ensures |r| < |s| <==> c in s
  {
    var k := CharIndex(s, c);
    assert c in s ==> k < |s|;
    s[..k]
  }

  /** Python `s.split(t, 1)[0]`: the text before the first occurrence of `t`. */
  function BeforeText(s: string, t: string): (r: string)
    ensures StartsWith(s, r)
    ensures Contains(s, t) ==> OccursAt(s, t, |r|) && forall j :: 0 <= j < |r| ==> !OccursAt(s, t, j)
    ensures !Contains(s, t) ==> r == s
  {
    var k := Find(s, t);
    if k == -1 then s else s[..k]
  }

  /** Python `s.split(c, 1)` when `c in s`: the text before and after the first `c`. */
  function SplitOnce(s: string, c: char): (r: (string, string))
    requires c in s
    ensures s == r.0 + [c] + r.1 && c !in r.0
  {
    var k := CharIndex(s, c);
    (s[..k], s[k + 1..])
  }

  /** Python `s.split(c)` for a one-character separator. */
  function Split(s: string, c: char): (r: seq<string>)
    ensures |r| >= 1
    ensures forall i :: 0 <= i < |r| ==> c !in r[i]
    decreases |s|
  {
    var k := CharIndex(s, c);
    if k == |s| then [s] else [s[..k]] + Split(s[k + 1..], c)
  }

  /** The message a failed condition appends to a list of reasons: nothing when it holds. */
  function Unless(ok: bool, message: string): (r: seq<string>)
    ensures r == [] <==> ok
    ensures !ok ==> r == [message]
  {
    if ok then [] else [message]
  }

  /** Python `sep.join(parts)`. */
  function JoinWith(parts: seq<string>, sep: string): string
  {
    if |parts| == 0 then "" else if |parts| == 1 then parts[0] else parts[0] + sep + JoinWith(parts[1..], sep)
  }

  /** Splitting and joining on the same separator gives back the string. */
  lemma {:induction false} SplitJoin(s: string, c: char)
    ensures JoinWith(Split(s, c), [c]) == s
    decreases |s|
  {
    var k := CharIndex(s, c);
    if k < |s| {
      var rest := Split(s[k + 1..], c);
      SplitJoin(s[k + 1..], c);
      assert Split(s, c) == [s[..k]] + rest;
      assert JoinWith([s[..k]] + rest, [c]) == s[..k] + [c] + JoinWith(rest, [c]);
      assert s == s[..k] + [c] + s[k + 1..];
    }
  }

  /** The index of the first char of `cs` in `s`, or `|s|`. */
  function SetIndex(s: string, cs: set<char>): (k: nat)
    ensures k <= |s| && (k < |s| ==> s[k] in cs) && NoneIn(s[..k], cs)
    decreases |s|
  {
    if |s| == 0 then 0 else if s[0] in cs then 0 else 1 + SetIndex(s[1..], cs)
  }

  /** Python `re.split('[cs]+', s)`: the pieces between maximal runs of `cs` characters. */
  function SplitRuns(s: string, cs: set<char>): (r: seq<string>)
    ensures |r| >= 1
    ensures forall i :: 0 <= i < |r| ==> NoneIn(r[i], cs)
    decreases |s|
  {
    var k := SetIndex(s, cs);
    if k == |s| then [s]
    else
      var rest := LStripSet(s[k..], cs);
      [s[..k]] + SplitRuns(rest, cs)
  }

  /** The first index holding a char of `cs`, when the ones before it hold none. */
  lemma SetIndexAt(s: string, cs: set<char>, k: nat)
    requires k < |s| && s[k] in cs && NoneIn(s[..k], cs)
    ensures SetIndex(s, cs) == k
  {
  }

  /** A word without chars of `cs` is a single piece. */
  lemma SplitRunsWord(w: string, cs: set<char>)
    requires NoneIn(w, cs)
    ensures SplitRuns(w, cs) == [w]
  {
    assert SetIndex(w, cs) == |w|;
  }

  /** A word, a separator and more text not starting with one: the word is the first piece. */
  lemma SplitRunsStep(w: string, sep: char, rest: string, cs: set<char>)
    requires NoneIn(w, cs) && sep in cs && rest != [] && rest[0] !in cs
    ensures SplitRuns(w + [sep] + rest, cs) == [w] + SplitRuns(rest, cs)
  {
    var j := w + [sep] + rest;
    assert j[..|w|] == w;
    assert j[|w| + 1..] == rest;
    SplitRunsCut(j, |w|, cs);
  }

  /** A single separator at `k` between a piece and text not starting with one. */
  lemma SplitRunsCut(s: string, k: nat, cs: set<char>)
    requires k + 1 < |s| && s[k] in cs && s[k + 1] !in cs && NoneIn(s[..k], cs)
    ensures SplitRuns(s, cs) == [s[..k]] + SplitRuns(s[k + 1..], cs)
  {
    SetIndexAt(s, cs, k);
    assert s[k..][1..] == s[k + 1..];
    LStripSetFixed(s[k + 1..], cs);
  }

  /** Non-empty words without chars of `cs`, joined by a separator of `cs`, split back into the words. */
  lemma {:induction false} SplitRunsJoined(ws: seq<string>, sep: char, cs: set<char>)
    requires sep in cs && ws != []
    requires forall i :: 0 <= i < |ws| ==> ws[i] != [] && NoneIn(ws[i], cs)
    ensures SplitRuns(JoinWith(ws, [sep]), cs) == ws
    decreases |ws|
  {
    if |ws| == 1 {
      SplitRunsWord(ws[0], cs);
    } else {
      var rest := JoinWith(ws[1..], [sep]);
      assert JoinWith(ws, [sep]) == ws[0] + [sep] + rest;
      assert ws[1] == ws[1..][0];
      SplitRunsJoined(ws[1..], sep, cs);
      JoinedStarts(ws[1..], [sep]);
      SplitRunsStep(ws[0], sep, rest, cs);
      assert ws == [ws[0]] + ws[1..];
    }
  }

  /** Non-empty words joined by `sep` start with the first word's first char and end with the last word's last char. */
  lemma {:induction false} JoinedStarts(ws: seq<string>, sep: string)
    requires ws != [] && forall i :: 0 <= i < |ws| ==> ws[i] != []
    ensures var j := JoinWith(ws, sep); var last := ws[|ws| - 1];
      j != [] && j[0] == ws[0][0] && j[|j| - 1] == last[|last| - 1]
    decreases |ws|
  {
    if |ws| > 1 {
      var tl := ws[1..];
      assert forall i :: 0 <= i < |tl| ==> tl[i] == ws[i + 1];
      JoinedStarts(tl, sep);
      var r := JoinWith(tl, sep);
      var j := ws[0] + sep + r;
      assert JoinWith(ws, sep) == j;
      assert tl[|tl| - 1] == ws[|ws| - 1];
      assert j[0] == ws[0][0];
      assert j[|j| - 1] == r[|r| - 1];
    }
  }

  function NonEmpty(ps: seq<string>): (r: seq<string>)
    ensures forall i :: 0 <= i < |r| ==> r[i] != [] && r[i] in ps
    ensures forall p :: p in ps && p != [] ==> p in r
  {
    if |ps| == 0 then [] else (if ps[0] == [] then [] else [ps[0]]) + NonEmpty(ps[1..])
  }

  /** Python `s.split()`: the maximal runs of non-whitespace. */
  function SplitWs(s: string): (r: seq<string>)
    ensures forall i :: 0 <= i < |r| ==> r[i] != [] && NoneIn(r[i], Whitespace)
  {
    NonEmpty(SplitRuns(s, Whitespace))
  }

  // ---------------------------------------------------------------- replacing

  /** Python `s.replace(a, b)` for one-character strings. */
  function ReplaceChar(s: string, a: char, b: char): (r: string)
    ensures |r| == |s| && forall i :: 0 <= i < |s| ==> r[i] == (if s[i] == a then b else s[i])
  {
    seq(|s|, i requires 0 <= i < |s| => if s[i] == a then b else s[i])
  }

  /** Replacing a character that does not occur changes nothing. */
  lemma ReplaceCharAbsent(s: string, a: char, b: char)
    requires a !in s
    ensures ReplaceChar(s, a, b) == s
  {
    assert forall i :: 0 <= i < |s| ==> s[i] != a;
  }

  /** Python `s.replace(c, "")`. */
  function RemoveChar(s: string, c: char): (r: string)
    ensures |r| <= |s| && forall x :: x in r ==> x in s && x != c
    decreases |s|
  {
    if |s| == 0 then [] else (if s[0] == c then [] else [s[0]]) + RemoveChar(s[1..], c)
  }

  /** Python `s.replace(t, u, 1)` for a non-empty `t`. */
  function ReplaceFirst(s: string, t: string, u: string): (r: string)
    requires |t| > 0
    ensures !Contains(s, t) ==> r == s
    ensures Contains(s, t) ==>
      exists k :: OccursAt(s, t, k) && (forall j :: 0 <= j < k ==> !OccursAt(s, t, j)) && r == s[..k] + u + s[k + |t|..]
  {
    var k := Find(s, t);
    if k == -1 then s else s[..k] + u + s[k + |t|..]
  }

  /** Replacing an occurrence at the very start drops exactly that prefix. */
  lemma ReplaceFirstAtStart(t: string, rest: string)
    requires |t| > 0
    ensures ReplaceFirst(t + rest, t, "") == rest
  {
    var s := t + rest;
    assert OccursAt(s, t, 0);
    assert Find(s, t) == 0;
    assert s[|t|..] == rest;
  }

  // ---------------------------------------------------------------- lines

  /** The line boundaries of Python's `str.splitlines()` other than "\r\n". */
  const LineBreaks: set<char> := {
    '\n', '\r', '\U{000B}', '\U{000C}', '\U{001C}', '\U{001D}', '\U{001E}', '\U{0085}', '\U{2028}', '\U{2029}'
  }

  /** Python `s.splitlines()` (line ends dropped, no trailing empty line). */
  function SplitLines(s: string): (r: seq<string>)
    ensures forall i :: 0 <= i < |r| ==> NoneIn(r[i], LineBreaks)
    decreases |s|
  {
    if |s| == 0 then []
    else
      var k := SetIndex(s, LineBreaks);
      if k == |s| then [s]
      else
        var next := if s[k] == '\r' && k + 1 < |s| && s[k + 1] == '\n' then k + 2 else k + 1;
        [s[..k]] + SplitLines(s[next..])
  }

  /** The newline translation of a file opened in text mode: "\r\n" and "\r" read as "\n". */
  function Translate(s: string): (r: string)
    ensures '\r' !in r
    decreases |s|
  {
    if |s| == 0 then []
    else if s[0] == '\r' then
      (if |s| > 1 && s[1] == '\n' then "\n" + Translate(s[2..]) else "\n" + Translate(s[1..]))
    else [s[0]] + Translate(s[1..])
  }

  /** Iterating a text file: lines split after each "\n", which each line but the last keeps. */
  function FileLines(s: string): (r: seq<string>)
    ensures forall i :: 0 <= i < |r| ==> r[i] != [] && '\n' !in r[i][..|r[i]| - 1]
    decreases |s|
  {
    if |s| == 0 then []
    else
      var k := CharIndex(s, '\n');
      if k == |s| then [s] else [s[..k + 1]] + FileLines(s[k + 1..])
  }

  /** The lines of a file as iteration yields them: none empty, each ending in its only "\n" but the last, which may have no "\n". */
  predicate LineShaped(ls: seq<string>)
  {
    forall i :: 0 <= i < |ls| ==> ls[i] != [] && '\n' !in ls[i][..|ls[i]| - 1] && (i < |ls| - 1 ==> ls[i][|ls[i]| - 1] == '\n')
  }

  /** `"".join(lines)`, which is what `writelines` writes. */
  function Flatten(ls: seq<string>): string
    decreases |ls|
  {
    if |ls| == 0 then "" else ls[0] + Flatten(ls[1..])
  }

  /** Splitting a text into lines and joining them again gives the text back. */
  lemma {:induction false} FlattenFileLines(s: string)
    ensures Flatten(FileLines(s)) == s
    decreases |s|
  {
    if |s| > 0 {
      var k := CharIndex(s, '\n');
      if k < |s| {
        FlattenFileLines(s[k + 1..]);
        var ls := [s[..k + 1]] + FileLines(s[k + 1..]);
        assert ls[1..] == FileLines(s[k + 1..]);
        assert s == s[..k + 1] + s[k + 1..];
      }
    }
  }

  /** The lines iteration yields are shaped as `LineShaped` says. */
  lemma {:induction false} FileLinesShaped(s: string)
    ensures LineShaped(FileLines(s))
    decreases |s|
  {
    if |s| > 0 {
      var k := CharIndex(s, '\n');
      if k < |s| {
        var rest := FileLines(s[k + 1..]);
        FileLinesShaped(s[k + 1..]);
        var ls := FileLines(s);
        assert ls == [s[..k + 1]] + rest;
        assert ls[0][|ls[0]| - 1] == '\n';
        forall i | 0 < i < |ls| - 1
          ensures ls[i][|ls[i]| - 1] == '\n'
        {
          assert ls[i] == rest[i - 1];
        }
      }
    }
  }

  /** Joining lines shaped as iteration yields them and splitting again gives the lines back. */
  lemma {:induction false} FileLinesFlatten(ls: seq<string>)
    requires LineShaped(ls)
    ensures FileLines(Flatten(ls)) == ls
    decreases |ls|
  {
    if |ls| > 0 {
      var x := ls[0];
      var tail := Flatten(ls[1..]);
      assert Flatten(ls) == x + tail;
      if x[|x| - 1] == '\n' {
        LineShapedTail(ls);
        FileLinesFlatten(ls[1..]);
        FileLinesHead(x, tail);
        assert ls == [x] + ls[1..];
      } else {
        assert |ls| == 1;
        assert tail == "" && Flatten(ls) == x;
        FileLinesLast(x);
      }
    }
  }

  /** The lines after the first are shaped too. */
  lemma LineShapedTail(ls: seq<string>)
    requires LineShaped(ls) && ls != []
    ensures LineShaped(ls[1..])
  {
    forall i | 0 <= i < |ls[1..]|
      ensures ls[1..][i] != [] && '\n' !in ls[1..][i][..|ls[1..][i]| - 1] && (i < |ls[1..]| - 1 ==> ls[1..][i][|ls[1..][i]| - 1] == '\n')
    {
      assert ls[1..][i] == ls[i + 1];
    }
  }

  /** A first line ending in its only "\n" is split off whole. */
  lemma FileLinesHead(x: string, tail: string)
    requires x != [] && x[|x| - 1] == '\n' && '\n' !in x[..|x| - 1]
    ensures FileLines(x + tail) == [x] + FileLines(tail)
  {
    var s := x + tail;
    assert s[..|x| - 1] == x[..|x| - 1];
    CharIndexAt(s, '\n', |x| - 1);
    assert s[..|x|] == x && s[|x|..] == tail;
  }

  /** A last line without "\n" is the only line of its text. */
  lemma FileLinesLast(x: string)
    requires x != [] && x[|x| - 1] != '\n' && '\n' !in x[..|x| - 1]
    ensures FileLines(x) == [x]
  {
    assert CharIndex(x, '\n') == |x|;
  }

  /** Translation leaves a text without '\r' alone. */
  lemma {:induction false} TranslateNoCR(s: string)
    requires '\r' !in s
    ensures Translate(s) == s
    decreases |s|
  {
    if |s| > 0 {
      TranslateNoCR(s[1..]);
      assert s == [s[0]] + s[1..];
    }
  }

  /** A joined text has a '\r' exactly when one of its lines has. */
  lemma {:induction false} FlattenNoCR(ls: seq<string>)
    ensures '\r' !in Flatten(ls) <==> forall i :: 0 <= i < |ls| ==> '\r' !in ls[i]
    decreases |ls|
  {
    if |ls| > 0 {
      FlattenNoCR(ls[1..]);
      assert forall i :: 1 <= i < |ls| ==> ls[i] == ls[1..][i - 1];
      assert forall i :: 0 <= i < |ls| - 1 ==> ls[1..][i] == ls[i + 1];
    }
  }

  /** Python `line.rstrip("\n")` of a line from `FileLines`. */
  function ChompNewline(s: string): string
  {
    RStripSet(s, {'\n'})
  }

  // ---------------------------------------------------------------- integers

  predicate IsDigit(c: char) { '0' <= c <= '9' }

  /** A character of `\w` (ASCII letters, digits and '_'), the test behind the regex word boundary `\b`. */
  predicate IsWordChar(c: char) { 'a' <= c <= 'z' || 'A' <= c <= 'Z' || IsDigit(c) || c == '_' }

  predicate AllDigits(s: string) { forall i :: 0 <= i < |s| ==> IsDigit(s[i]) }

  /** The value of a string of decimal digits. */
  function DigitsValue(s: string): (n: nat)
    requires AllDigits(s)
    decreases |s|
  {
    if |s| == 0 then 0 else DigitsValue(s[..|s| - 1]) * 10 + (s[|s| - 1] as int - '0' as int)
  }

  function DigitChar(d: nat): (c: char)
    requires d < 10
    ensures IsDigit(c) && c as int - '0' as int == d
  {
    ['0', '1', '2', '3', '4', '5', '6', '7', '8', '9'][d]
  }

  /** Python `str(n)`: decimal digits without leading zeros that read back as `n`. */
  function NatToString(n: nat): (s: string)
    ensures |s| >= 1 && AllDigits(s) && DigitsValue(s) == n
    ensures s[0] == '0' ==> s == "0"
  {
    if n < 10 then [DigitChar(n)]
    else
      var h := NatToString(n / 10);
      var s := h + [DigitChar(n % 10)];
      assert s[..|s| - 1] == h;
      s
  }

  /** The longest run of ASCII digits at the start of `s`. */
  function LeadingDigits(s: string): (d: string)
    ensures AllDigits(d) && StartsWith(s, d)
    ensures |d| < |s| ==> !IsDigit(s[|d|])
    decreases |s|
  {
    if |s| > 0 && IsDigit(s[0]) then [s[0]] + LeadingDigits(s[1..]) else ""
  }

  /** A run of digits that opens `s` and is not followed by another digit is its leading digits. */
  lemma {:induction false} LeadingDigitsExact(s: string, p: string)
    requires StartsWith(s, p) && AllDigits(p) && (|p| < |s| ==> !IsDigit(s[|p|]))
    ensures LeadingDigits(s) == p
    decreases |p|
  {
    if |p| > 0 {
      assert s[1..][..|p| - 1] == p[1..];
      LeadingDigitsExact(s[1..], p[1..]);
      assert p == [s[0]] + p[1..];
    }
  }

  /** Digits with single underscores between them, as Python's `int()` accepts. */
  predicate UnderscoredDigits(s: string)
  {
    |s| > 0 && IsDigit(s[0]) && IsDigit(s[|s| - 1]) && (forall i :: 0 <= i < |s| ==> IsDigit(s[i]) || s[i] == '_')
    && (forall i :: 0 <= i < |s| - 1 ==> !(s[i] == '_' && s[i + 1] == '_'))
  }

  /** The digits of a digits-and-underscores string, in order. */
  function DropUnderscores(s: string): (r: string)
    requires forall i :: 0 <= i < |s| ==> IsDigit(s[i]) || s[i] == '_'
    ensures AllDigits(r) && |r| <= |s|
    decreases |s|
  {
    if |s| == 0 then [] else (if s[0] == '_' then [] else [s[0]]) + DropUnderscores(s[1..])
  }

  /** An optional sign followed by digits with single underscores, as Python's `int()` reads it. */
  function SignedInt(t: string): (r: Option<int>)
    ensures r.Some? ==> |t| > 0
  {
    if |t| > 0 && (t[0] == '-' || t[0] == '+') then
      (if UnderscoredDigits(t[1..]) then
         var v: int := DigitsValue(DropUnderscores(t[1..]));
         Some(if t[0] == '-' then -v else v)
       else None)
    else if UnderscoredDigits(t) then Some(DigitsValue(DropUnderscores(t)) as int)
    else None
  }

  /** Python `int(s)` on ASCII input: surrounding whitespace, an optional sign, decimal digits. */
  function ParseInt(s: string): (r: Option<int>)
  {
    SignedInt(Strip(s))
  }

  /** Plain digits have no underscores to drop. */
  lemma {:induction false} DropUnderscoresDigits(s: string)
    requires AllDigits(s)
    ensures DropUnderscores(s) == s
    decreases |s|
  {
    if |s| > 0 {
      DropUnderscoresDigits(s[1..]);
    }
  }

  /** A digit is not blank. */
  lemma DigitNotSpace(c: char)
    requires IsDigit(c)
    ensures !IsSpace(c)
  {
  }

  /** A string that starts and ends with a non-blank character is its own strip. */
  lemma StripFixed(s: string)
    requires s != [] && !IsSpace(s[0]) && !IsSpace(s[|s| - 1])
    ensures Strip(s) == s
  {
    LStripSetFixed(s, Whitespace);
    RStripSetFixed(s, Whitespace);
  }

  /** Plain digits are digits with single underscores. */
  lemma DigitsUnderscored(s: string)
    requires s != [] && AllDigits(s)
    ensures UnderscoredDigits(s)
  {
  }

  /** `int(str(n)) == n`: a rendered number parses back to itself. */
  lemma ParseIntNat(n: nat)
    ensures ParseInt(NatToString(n)) == Some(n as int)
  {
    var s := NatToString(n);
    DigitNotSpace(s[0]);
    DigitNotSpace(s[|s| - 1]);
    StripFixed(s);
    SignedIntPlain(s);
  }

  lemma SignedIntPlain(d: string)
    requires d != [] && AllDigits(d)
    ensures SignedInt(d) == Some(DigitsValue(d) as int)
  {
    assert d[0] != '-' && d[0] != '+';
    DropUnderscoresDigits(d);
    DigitsUnderscored(d);
  }

  /** A minus sign before plain digits negates their value. */
  lemma ParseIntNegativeDigits(d: string)
    requires d != [] && AllDigits(d)
    ensures ParseInt("-" + d) == Some(-(DigitsValue(d) as int))
  {
    var s := "-" + d;
    assert s[0] == '-';
    assert s[|s| - 1] == d[|d| - 1];
    DigitNotSpace(d[|d| - 1]);
    StripFixed(s);
    SignedIntNegative(d);
  }

  lemma SignedIntNegative(d: string)
    requires d != [] && AllDigits(d)
    ensures SignedInt("-" + d) == Some(-(DigitsValue(d) as int))
  {
    var s := "-" + d;
    assert s[1..] == d;
    DropUnderscoresDigits(d);
    DigitsUnderscored(d);
  }

  /** Lowercasing leaves digits alone. */
  lemma LowerDigits(s: string)
    requires AllDigits(s)
    ensures Lower(s) == s
  {
  }
}
