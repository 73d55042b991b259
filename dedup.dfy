/**
 * Two list loops several checkers write: the order-preserving
 * deduplication with a `seen` set and a `uniq` list (walk the items, keep
 * each one the first time it shows up), and the filtering loop that appends
 * what it makes of each item it accepts.
 */
module Dedup {
  import opened Wrappers

  /** No item occurs twice. */
  predicate NoDup<T(==,!new)>(s: seq<T>)
  {
    forall i, j :: 0 <= i < j < |s| ==> s[i] != s[j]
  }

  /** The items of `s` at their first occurrences, in order. */
  function Unique<T(==,!new)>(s: seq<T>): (u: seq<T>)
    ensures NoDup(u)
    ensures forall x :: x in u <==> x in s
    ensures |u| <= |s|
    decreases |s|
  {
    if |s| == 0 then []
    else
      var init := Unique(s[..|s| - 1]);
      assert forall x :: x in s[..|s| - 1] ==> x in s;
      assert forall x :: x in s ==> x in s[..|s| - 1] || x == s[|s| - 1];
      if s[|s| - 1] in init then init else init + [s[|s| - 1]]
  }

  /** `for s in items: if s not in seen: seen.add(s); uniq.append(s)`. */
  method Deduplicate<T(==,!new)>(items: seq<T>) returns (uniq: seq<T>)
    ensures uniq == Unique(items)
  {
    var seen: set<T> := {};
    uniq := [];
    var i := 0;
    while i < |items|
      invariant 0 <= i <= |items|
      invariant uniq == Unique(items[..i])
      invariant forall x :: x in seen <==> x in uniq
    {
      var x := items[i];
      assert items[..i + 1][..i] == items[..i];
      if x !in seen {
        seen := seen + {x};
        uniq := uniq + [x];
      }
      i := i + 1;
    }
    assert items[..|items|] == items;
  }

  /** Order is kept: what later items add comes after the first-occurrence list of the earlier ones. */
  lemma {:induction false} UniquePrefix<T(!new)>(s: seq<T>, t: seq<T>)
    ensures |Unique(s)| <= |Unique(s + t)| && Unique(s + t)[..|Unique(s)|] == Unique(s)
    decreases |t|
  {
    if |t| == 0 {
      assert s + t == s;
    } else {
      var t' := t[..|t| - 1];
      UniquePrefix(s, t');
      assert (s + t)[..|s + t| - 1] == s + t';
    }
  }

  /** A list without repeats is its own deduplication. */
  lemma {:induction false} UniqueNoDup<T(!new)>(s: seq<T>)
    requires NoDup(s)
    ensures Unique(s) == s
    decreases |s|
  {
    if |s| > 0 {
      var init := s[..|s| - 1];
      assert NoDup(init) by {
        assert forall i :: 0 <= i < |init| ==> init[i] == s[i];
      }
      UniqueNoDup(init);
      assert s[|s| - 1] !in init;
      assert s == init + [s[|s| - 1]];
    }
  }

  /** The index of the first occurrence of `x` in `s`. */
  function IndexOf<T(==)>(s: seq<T>, x: T): (k: nat)
    requires x in s
    ensures k < |s| && s[k] == x && x !in s[..k]
  {
    if s[0] == x then 0
    else
      var k := IndexOf(s[1..], x) + 1;
      assert s[..k] == [s[0]] + s[1..][..k - 1];
      k
  }

  /** Occurrences in a prefix are found at the same place in the whole. */
  lemma IndexOfPrefix<T(!new)>(s: seq<T>, n: nat, x: T)
    requires n <= |s| && x in s[..n]
    ensures IndexOf(s, x) == IndexOf(s[..n], x)
  {
    var k := IndexOf(s[..n], x);
    assert s[..k] == s[..n][..k];
    var j := IndexOf(s, x);
    assert j <= k by {
      assert s[k] == x;
    }
  }

  /** The deduplicated list is in the order of first occurrences. */
  lemma {:induction false} UniqueFirstOrder<T(!new)>(s: seq<T>)
    ensures forall i, j :: 0 <= i < j < |Unique(s)| ==> IndexOf(s, Unique(s)[i]) < IndexOf(s, Unique(s)[j])
    decreases |s|
  {
    if |s| > 0 {
      var n := |s| - 1;
      var pre := s[..n];
      var init := Unique(pre);
      UniqueFirstOrder(pre);
      forall x | x in init ensures IndexOf(s, x) == IndexOf(pre, x) && IndexOf(s, x) < n {
        IndexOfPrefix(s, n, x);
      }
      var u := Unique(s);
      if s[n] !in init {
        assert s[n] !in pre;
        assert s[..n] == pre;
        assert IndexOf(s, s[n]) == n;
      }
      forall i, j | 0 <= i < j < |u| ensures IndexOf(s, u[i]) < IndexOf(s, u[j]) {
        assert u[i] in init;
        if j < |init| {
          assert u[j] in init;
        }
      }
    }
  }

  /** Deduplicating twice is deduplicating once. */
  lemma UniqueIdempotent<T(!new)>(s: seq<T>)
    ensures Unique(Unique(s)) == Unique(s)
  {
    UniqueNoDup(Unique(s));
  }

  /** What holds of every item holds of every item kept. */
  lemma UniqueEvery<T(!new)>(s: seq<T>, p: T -> bool)
    requires forall i :: 0 <= i < |s| ==> p(s[i])
    ensures forall j :: 0 <= j < |Unique(s)| ==> p(Unique(s)[j])
  {
    forall j | 0 <= j < |Unique(s)|
      ensures p(Unique(s)[j])
    {
      assert Unique(s)[j] in s;
    }
  }

  // ---------------------------------------------------------------- collecting

  /** The list a loop builds by appending `f(x).value` for each item `x` that `f` accepts, in order. */
  function Collect<T, U>(xs: seq<T>, f: T -> Option<U>): (ys: seq<U>)
    ensures |ys| <= |xs|
    decreases |xs|
  {
    if |xs| == 0 then []
    else
      var init := Collect(xs[..|xs| - 1], f);
      match f(xs[|xs| - 1])
      case None => init
      case Some(y) => init + [y]
  }

  /** The set a loop builds by adding `f(x).value` for each item `x` that `f` accepts. */
  function Gathered<T, U>(xs: seq<T>, f: T -> Option<U>): set<U>
    decreases |xs|
  {
    if |xs| == 0 then {}
    else
      var init := Gathered(xs[..|xs| - 1], f);
      match f(xs[|xs| - 1])
      case None => init
      case Some(y) => init + {y}
  }

  /** The loop that builds `Gathered(xs, f)`. */
  method Gather<T, U>(xs: seq<T>, f: T -> Option<U>) returns (out: set<U>)
    ensures out == Gathered(xs, f)
  {
    out := {};
    var j := 0;
    while j < |xs|
      invariant 0 <= j <= |xs|
      invariant out == Gathered(xs[..j], f)
    {
      assert xs[..j + 1][..j] == xs[..j];
      var c := f(xs[j]);
      if c.Some? {
        out := out + {c.value};
      }
      j := j + 1;
    }
    assert xs[..|xs|] == xs;
  }

  /** Every item `f` accepts adds its value. */
  lemma {:induction false} GatheredHas<T, U>(xs: seq<T>, f: T -> Option<U>, i: nat)
    requires i < |xs| && f(xs[i]).Some?
    ensures f(xs[i]).value in Gathered(xs, f)
    decreases |xs|
  {
    var n := |xs| - 1;
    if i < n {
      GatheredHas(xs[..n], f, i);
      assert xs[..n][i] == xs[i];
    }
  }

  /** Nothing else is in the set: each member comes from an item `f` accepts. */
  lemma {:induction false} GatheredFrom<T, U(!new)>(xs: seq<T>, f: T -> Option<U>, y: U)
    requires y in Gathered(xs, f)
    ensures exists i :: 0 <= i < |xs| && f(xs[i]) == Some(y)
    decreases |xs|
  {
    var n := |xs| - 1;
    if f(xs[n]) != Some(y) {
      GatheredFrom(xs[..n], f, y);
      var i :| 0 <= i < n && f(xs[..n][i]) == Some(y);
      assert xs[..n][i] == xs[i];
    }
  }

  /** One more item adds what `f` gives for it, if anything. */
  lemma GatheredSnoc<T, U>(xs: seq<T>, i: nat, f: T -> Option<U>)
    requires i < |xs|
    ensures f(xs[i]).None? ==> Gathered(xs[..i + 1], f) == Gathered(xs[..i], f)
    ensures f(xs[i]).Some? ==> Gathered(xs[..i + 1], f) == Gathered(xs[..i], f) + {f(xs[i]).value}
  {
    assert xs[..i + 1][..i] == xs[..i];
  }

  /** A value is gathered exactly when some item gives it. */
  lemma GatheredIff<T, U(!new)>(xs: seq<T>, f: T -> Option<U>, y: U)
    ensures y in Gathered(xs, f) <==> exists x :: x in xs && f(x) == Some(y)
  {
    if y in Gathered(xs, f) {
      GatheredFrom(xs, f, y);
      var i :| 0 <= i < |xs| && f(xs[i]) == Some(y);
      assert xs[i] in xs;
    }
    if exists x :: x in xs && f(x) == Some(y) {
      var x :| x in xs && f(x) == Some(y);
      var i :| 0 <= i < |xs| && xs[i] == x;
      GatheredHas(xs, f, i);
    }
  }

  /** The set a loop builds by adding all of `f(x)` for each item `x`. */
  function Unions<T, U>(xs: seq<T>, f: T -> set<U>): set<U>
    decreases |xs|
  {
    if |xs| == 0 then {} else Unions(xs[..|xs| - 1], f) + f(xs[|xs| - 1])
  }

  /** One more item adds what `f` gives for it. */
  lemma UnionsSnoc<T, U>(xs: seq<T>, i: nat, f: T -> set<U>)
    requires i < |xs|
    ensures Unions(xs[..i + 1], f) == Unions(xs[..i], f) + f(xs[i])
  {
    assert xs[..i + 1][..i] == xs[..i];
  }

  /** A value is in the union exactly when some item's set holds it. */
  lemma {:induction false} UnionsIs<T, U>(xs: seq<T>, f: T -> set<U>, y: U)
    ensures y in Unions(xs, f) <==> exists i :: 0 <= i < |xs| && y in f(xs[i])
    decreases |xs|
  {
    if |xs| > 0 {
      var n := |xs| - 1;
      UnionsIs(xs[..n], f, y);
      if i :| 0 <= i < n && y in f(xs[..n][i]) {
        assert xs[i] == xs[..n][i];
      }
      if i :| 0 <= i < n && y in f(xs[i]) {
        assert xs[..n][i] == xs[i];
      }
    }
  }

  /** One more item appends what `f` makes of it, if anything. */
  lemma CollectSnoc<T, U>(xs: seq<T>, i: nat, f: T -> Option<U>)
    requires i < |xs|
    ensures Collect(xs[..i + 1], f) == Collect(xs[..i], f) + (if f(xs[i]).Some? then [f(xs[i]).value] else [])
  {
    assert xs[..i + 1][..i] == xs[..i];
  }

  /** Everything collected comes from an accepted item, and every accepted item is collected. */
  lemma {:induction false} CollectExact<T, U>(xs: seq<T>, f: T -> Option<U>)
    ensures forall j :: 0 <= j < |Collect(xs, f)| ==> exists i :: 0 <= i < |xs| && f(xs[i]) == Some(Collect(xs, f)[j])
    ensures forall i :: 0 <= i < |xs| && f(xs[i]).Some? ==> f(xs[i]).value in Collect(xs, f)
    decreases |xs|
  {
    if |xs| > 0 {
      var init := xs[..|xs| - 1];
      CollectExact(init, f);
      assert forall i :: 0 <= i < |init| ==> init[i] == xs[i];
      var ys := Collect(xs, f);
      forall j | 0 <= j < |ys|
        ensures exists i :: 0 <= i < |xs| && f(xs[i]) == Some(ys[j])
      {
        if j < |Collect(init, f)| {
          var i :| 0 <= i < |init| && f(init[i]) == Some(Collect(init, f)[j]);
          assert f(xs[i]) == Some(ys[j]);
        } else {
          assert f(xs[|xs| - 1]) == Some(ys[j]);
        }
      }
      forall i | 0 <= i < |xs| && f(xs[i]).Some?
        ensures f(xs[i]).value in ys
      {
        if i < |init| {
          assert f(init[i]).value in Collect(init, f);
        }
      }
    } else {
      assert Collect(xs, f) == [];
    }
  }

  /** Every collected value is what `f` makes of some item. */
  lemma CollectOrigin<T, U>(xs: seq<T>, f: T -> Option<U>, y: U)
    requires y in Collect(xs, f)
    ensures exists k :: 0 <= k < |xs| && f(xs[k]) == Some(y)
  {
    CollectExact(xs, f);
    var j :| 0 <= j < |Collect(xs, f)| && Collect(xs, f)[j] == y;
  }

  /** What holds of every item `f` makes holds of every item collected. */
  lemma CollectEvery<T, U>(xs: seq<T>, f: T -> Option<U>, p: U -> bool)
    requires forall i :: 0 <= i < |xs| && f(xs[i]).Some? ==> p(f(xs[i]).value)
    ensures forall j :: 0 <= j < |Collect(xs, f)| ==> p(Collect(xs, f)[j])
  {
    CollectExact(xs, f);
    forall j | 0 <= j < |Collect(xs, f)|
      ensures p(Collect(xs, f)[j])
    {
      var i :| 0 <= i < |xs| && f(xs[i]) == Some(Collect(xs, f)[j]);
    }
  }

  /** Collecting twice keeps what the second step makes of what the first step makes of some item. */
  lemma CollectCompose<T, U, V>(xs: seq<T>, f: T -> Option<U>, g: U -> Option<V>, v: V)
    ensures v in Collect(Collect(xs, f), g) <==>
      (exists i :: 0 <= i < |xs| && f(xs[i]).Some? && g(f(xs[i]).value) == Some(v))
  {
    var ys := Collect(xs, f);
    CollectExact(xs, f);
    CollectExact(ys, g);
    if v in Collect(ys, g) {
      var j :| 0 <= j < |Collect(ys, g)| && Collect(ys, g)[j] == v;
      var k :| 0 <= k < |ys| && g(ys[k]) == Some(v);
      var i :| 0 <= i < |xs| && f(xs[i]) == Some(ys[k]);
      assert g(f(xs[i]).value) == Some(v);
    }
    if exists i :: 0 <= i < |xs| && f(xs[i]).Some? && g(f(xs[i]).value) == Some(v) {
      var i :| 0 <= i < |xs| && f(xs[i]).Some? && g(f(xs[i]).value) == Some(v);
      var y := f(xs[i]).value;
      assert y in ys;
      var k :| 0 <= k < |ys| && ys[k] == y;
      assert g(ys[k]).Some?;
    }
  }

  /** What the first `j` items give is where the collected list starts. */
  lemma {:induction false} CollectPrefix<T, U>(xs: seq<T>, j: nat, f: T -> Option<U>)
    requires j <= |xs|
    ensures |Collect(xs[..j], f)| <= |Collect(xs, f)| && Collect(xs, f)[..|Collect(xs[..j], f)|] == Collect(xs[..j], f)
    decreases |xs| - j
  {
    if j == |xs| {
      assert xs[..j] == xs;
    } else {
      CollectPrefix(xs, j + 1, f);
      CollectSnoc(xs, j, f);
      var a := Collect(xs[..j], f);
      var b := Collect(xs[..j + 1], f);
      var c := Collect(xs, f);
      assert b[..|a|] == a;
      assert c[..|b|] == b;
      assert c[..|a|] == c[..|b|][..|a|];
    }
  }

  /** The first item `f` accepts gives the first collected value. */
  lemma CollectFirstAt<T, U>(xs: seq<T>, j: nat, f: T -> Option<U>)
    requires j < |xs| && Collect(xs[..j], f) == [] && f(xs[j]).Some?
    ensures Collect(xs, f) != [] && Collect(xs, f)[0] == f(xs[j]).value
  {
    CollectSnoc(xs, j, f);
    CollectPrefix(xs, j + 1, f);
    assert Collect(xs[..j + 1], f) == [f(xs[j]).value];
  }

  /** `m` keeps some of the elements of `s`, in their order. */
  predicate Subsequence<T(==)>(m: seq<T>, s: seq<T>)
    decreases |s|
  {
    if |s| == 0 then m == []
    else Subsequence(m, s[1..]) || (|m| > 0 && m[0] == s[0] && Subsequence(m[1..], s[1..]))
  }

  /** The loop that appends what `f` makes of each accepted item to a list it already holds. */
  method AppendCollected<T, U>(acc: seq<U>, xs: seq<T>, f: T -> Option<U>) returns (out: seq<U>)
    ensures out == acc + Collect(xs, f)
  {
    out := acc;
    var i := 0;
    while i < |xs|
      invariant 0 <= i <= |xs|
      invariant out == acc + Collect(xs[..i], f)
    {
      CollectSnoc(xs, i, f);
      match f(xs[i]) {
        case None =>
        case Some(y) => out := out + [y];
      }
      i := i + 1;
    }
    assert xs[..|xs|] == xs;
  }

  /** `[x for x in xs if p(x)]`: the items `p` accepts, in order. */
  function Keep<T(==,!new)>(xs: seq<T>, p: T -> bool): (ys: seq<T>)
    ensures Subsequence(ys, xs)
    ensures forall x :: x in ys <==> x in xs && p(x)
    decreases |xs|
  {
    if |xs| == 0 then []
    else
      var rest := Keep(xs[1..], p);
      assert forall x :: x in xs <==> x == xs[0] || x in xs[1..];
      if p(xs[0]) then
        assert ([xs[0]] + rest)[1..] == rest;
        [xs[0]] + rest
      else rest
  }

  /** `[f(x) for x in xs]`. */
  function MapSeq<T, U>(xs: seq<T>, f: T -> U): (ys: seq<U>)
    ensures |ys| == |xs| && forall i :: 0 <= i < |xs| ==> ys[i] == f(xs[i])
  {
    seq(|xs|, i requires 0 <= i < |xs| => f(xs[i]))
  }

  /** One more item maps to one more value. */
  lemma MapSeqSnoc<T, U>(xs: seq<T>, i: nat, f: T -> U)
    requires i < |xs|
    ensures MapSeq(xs[..i + 1], f) == MapSeq(xs[..i], f) + [f(xs[i])]
  {
    assert forall k :: 0 <= k < i ==> xs[..i + 1][k] == xs[..i][k];
  }

  /** The list a loop builds by extending it with `f(x)` for each item `x`, in order. */
  function Concat<T, U>(xs: seq<T>, f: T -> seq<U>): seq<U>
    decreases |xs|
  {
    if |xs| == 0 then [] else Concat(xs[..|xs| - 1], f) + f(xs[|xs| - 1])
  }

  /** A loop step that extends by what `f` gives for the next item keeps the loop at `Concat`. */
  lemma ConcatStep<T, U>(xs: seq<T>, i: nat, f: T -> seq<U>, acc: seq<U>, more: seq<U>)
    requires i < |xs| && acc == Concat(xs[..i], f) && more == f(xs[i])
    ensures acc + more == Concat(xs[..i + 1], f)
  {
    assert xs[..i + 1][..i] == xs[..i];
  }

  lemma ConcatSnoc<T, U>(xs: seq<T>, i: nat, f: T -> seq<U>)
    requires i < |xs|
    ensures Concat(xs[..i + 1], f) == Concat(xs[..i], f) + f(xs[i])
  {
    assert xs[..i + 1][..i] == xs[..i];
  }

  /** Two runs of items give what each gives, one after the other. */
  lemma {:induction false} ConcatAppend<T, U>(xs: seq<T>, ys: seq<T>, f: T -> seq<U>)
    ensures Concat(xs + ys, f) == Concat(xs, f) + Concat(ys, f)
    decreases |ys|
  {
    if |ys| == 0 {
      assert xs + ys == xs;
    } else {
      var n := |ys| - 1;
      ConcatAppend(xs, ys[..n], f);
      assert (xs + ys)[..|xs + ys| - 1] == xs + ys[..n];
    }
  }

  /** Whatever one item gives is in the whole list. */
  lemma {:induction false} ConcatHas<T, U>(xs: seq<T>, i: nat, f: T -> seq<U>, y: U)
    requires i < |xs| && y in f(xs[i])
    ensures y in Concat(xs, f)
    decreases |xs|
  {
    var n := |xs| - 1;
    if i < n {
      ConcatHas(xs[..n], i, f, y);
      assert xs[..n][i] == xs[i];
    }
  }

  /** What holds of every element each item gives holds of every element of the whole list. */
  lemma {:induction false} ConcatEvery<T, U>(xs: seq<T>, f: T -> seq<U>, p: U -> bool)
    requires forall i, j :: 0 <= i < |xs| && 0 <= j < |f(xs[i])| ==> p(f(xs[i])[j])
    ensures forall j :: 0 <= j < |Concat(xs, f)| ==> p(Concat(xs, f)[j])
    decreases |xs|
  {
    if |xs| > 0 {
      var n := |xs| - 1;
      ConcatEvery(xs[..n], f, p);
      var a := Concat(xs[..n], f);
      var b := f(xs[n]);
      assert forall j :: 0 <= j < |b| ==> p(b[j]);
      assert forall j :: 0 <= j < |a + b| ==> (a + b)[j] == if j < |a| then a[j] else b[j - |a|];
    }
  }
  // ---------------------------------------------------------------- counting

  /** `Counter(s)[x]`: how often `x` occurs in `s`. */
  function Occurrences<T(==)>(s: seq<T>, x: T): nat
    decreases |s|
  {
    if |s| == 0 then 0 else Occurrences(s[..|s| - 1], x) + (if s[|s| - 1] == x then 1 else 0)
  }

  /** The counts of `keys` in `s`, added up. */
  function SumOccurrences<T(==)>(keys: seq<T>, s: seq<T>): nat
    decreases |keys|
  {
    if |keys| == 0 then 0 else Occurrences(s, keys[0]) + SumOccurrences(keys[1..], s)
  }

  /** How many of `keys` are `x`. */
  function Hits<T(==)>(keys: seq<T>, x: T): nat
    decreases |keys|
  {
    if |keys| == 0 then 0 else (if keys[0] == x then 1 else 0) + Hits(keys[1..], x)
  }

  lemma {:induction false} SumOccurrencesEmpty<T(!new)>(keys: seq<T>, s: seq<T>)
    requires s == []
    ensures SumOccurrences(keys, s) == 0
    decreases |keys|
  {
    if |keys| > 0 {
      SumOccurrencesEmpty(keys[1..], s);
    }
  }

  lemma {:induction false} SumOccurrencesSnoc<T(!new)>(keys: seq<T>, s: seq<T>, x: T)
    ensures SumOccurrences(keys, s + [x]) == SumOccurrences(keys, s) + Hits(keys, x)
    decreases |keys|
  {
    if |keys| > 0 {
      SumOccurrencesSnoc(keys[1..], s, x);
      assert (s + [x])[..|s + [x]| - 1] == s;
    }
  }

  lemma {:induction false} HitsOnce<T(!new)>(keys: seq<T>, x: T)
    requires NoDup(keys) && x in keys
    ensures Hits(keys, x) == 1
    decreases |keys|
  {
    var rest := keys[1..];
    assert NoDup(rest) by {
      forall i, j | 0 <= i < j < |rest| ensures rest[i] != rest[j] {
        assert rest[i] == keys[i + 1] && rest[j] == keys[j + 1];
      }
    }
    if keys[0] == x {
      HitsNone(rest, x);
    } else {
      assert x in rest;
      HitsOnce(rest, x);
    }
  }

  lemma {:induction false} HitsNone<T(!new)>(keys: seq<T>, x: T)
    requires x !in keys
    ensures Hits(keys, x) == 0
    decreases |keys|
  {
    if |keys| > 0 {
      assert x !in keys[1..];
      HitsNone(keys[1..], x);
    }
  }

  /**
   * Counting every item of `s` once under a list of distinct keys that covers
   * them gives `|s|`: the counts of a `Counter` add up to the number of items.
   */
  lemma {:induction false} SumOccurrencesTotal<T(!new)>(keys: seq<T>, s: seq<T>)
    requires NoDup(keys) && forall i :: 0 <= i < |s| ==> s[i] in keys
    ensures SumOccurrences(keys, s) == |s|
    decreases |s|
  {
    if |s| == 0 {
      SumOccurrencesEmpty(keys, s);
    } else {
      var n := |s| - 1;
      SumOccurrencesTotal(keys, s[..n]);
      assert s == s[..n] + [s[n]];
      SumOccurrencesSnoc(keys, s[..n], s[n]);
      HitsOnce(keys, s[n]);
    }
  }
}
