/**
 * `sorted(...)` of a collection whose duplicates do not matter (a `set`, the
 * keys of a `Counter`): the distinct items in ascending order, for strings
 * compared code point by code point as Python compares `str`, and for ints.
 */
module Order {
  import opened Dedup

  /** A strict total order. */
  ghost predicate StrictTotal<T(!new)>(lt: (T, T) -> bool)
  {
    (forall a :: !lt(a, a)) &&
    (forall a, b, c :: lt(a, b) && lt(b, c) ==> lt(a, c)) &&
    (forall a, b :: a == b || lt(a, b) || lt(b, a))
  }

  /** Every item is smaller than every later one. */
  predicate StrictlySorted<T>(lt: (T, T) -> bool, s: seq<T>)
  {
    forall i, j :: 0 <= i < j < |s| ==> lt(s[i], s[j])
  }

  /** Python's `a < b` on `str`: the first differing code point decides, and a proper prefix is smaller. */
  predicate StringLess(a: string, b: string)
    decreases |a|
  {
    |b| > 0 && (|a| == 0 || a[0] < b[0] || (a[0] == b[0] && StringLess(a[1..], b[1..])))
  }

  predicate IntLess(a: int, b: int) { a < b }

  /** `x` put into its place in a strictly sorted list, unless it is there already. */
  function Insert<T(==,!new)>(lt: (T, T) -> bool, x: T, s: seq<T>): (r: seq<T>)
    ensures forall y :: y in r <==> y == x || y in s
    decreases |s|
  {
    if |s| == 0 then [x]
    else if x == s[0] then s
    else if lt(x, s[0]) then [x] + s
    else
      var rest := Insert(lt, x, s[1..]);
      assert forall y :: y in s <==> y == s[0] || y in s[1..];
      [s[0]] + rest
  }

  /** The distinct items of `xs`, ascending. */
  function SortUnique<T(==,!new)>(lt: (T, T) -> bool, xs: seq<T>): (r: seq<T>)
    ensures forall y :: y in r <==> y in xs
    decreases |xs|
  {
    if |xs| == 0 then []
    else
      var n := |xs| - 1;
      assert forall y :: y in xs <==> y == xs[n] || y in xs[..n];
      Insert(lt, xs[n], SortUnique(lt, xs[..n]))
  }

  /** Inserting keeps a list strictly sorted. */
  lemma {:induction false} InsertSorted<T(!new)>(lt: (T, T) -> bool, x: T, s: seq<T>)
    requires StrictTotal(lt) && StrictlySorted(lt, s)
    ensures StrictlySorted(lt, Insert(lt, x, s))
    decreases |s|
  {
    if |s| > 0 && x != s[0] && !lt(x, s[0]) {
      assert lt(s[0], x);
      InsertSorted(lt, x, s[1..]);
      var rest := Insert(lt, x, s[1..]);
      assert forall j :: 0 <= j < |rest| ==> lt(s[0], rest[j]) by {
        forall j | 0 <= j < |rest|
          ensures lt(s[0], rest[j])
        {
          assert rest[j] in rest;
          if rest[j] != x {
            var k :| 0 <= k < |s[1..]| && s[1..][k] == rest[j];
            assert s[k + 1] == rest[j];
          }
        }
      }
      var r := [s[0]] + rest;
      assert forall i, j :: 0 <= i < j < |r| ==> lt(r[i], r[j]) by {
        forall i, j | 0 <= i < j < |r| ensures lt(r[i], r[j]) {
          if i == 0 {
            assert r[j] == rest[j - 1];
          } else {
            assert r[i] == rest[i - 1] && r[j] == rest[j - 1];
          }
        }
      }
    } else if |s| > 0 && x != s[0] {
      var r := [x] + s;
      forall i, j | 0 <= i < j < |r| ensures lt(r[i], r[j]) {
        if i == 0 {
          if j > 1 {
            assert lt(s[0], s[j - 1]);
          }
        } else {
          assert r[i] == s[i - 1] && r[j] == s[j - 1];
        }
      }
    }
  }

  /** `sorted(set(xs))`: strictly ascending, so free of duplicates, and holding exactly the items of `xs`. */
  lemma {:induction false} SortUniqueSorted<T(!new)>(lt: (T, T) -> bool, xs: seq<T>)
    requires StrictTotal(lt)
    ensures StrictlySorted(lt, SortUnique(lt, xs))
    ensures NoDup(SortUnique(lt, xs))
    decreases |xs|
  {
    if |xs| > 0 {
      var n := |xs| - 1;
      SortUniqueSorted(lt, xs[..n]);
      InsertSorted(lt, xs[n], SortUnique(lt, xs[..n]));
    }
    var r := SortUnique(lt, xs);
    forall i, j | 0 <= i < j < |r| ensures r[i] != r[j] {
      assert lt(r[i], r[j]);
    }
  }

  /** `sorted(s)` of a set: its items, strictly ascending. */
  method SortSet<T(==,!new)>(lt: (T, T) -> bool, s: set<T>) returns (r: seq<T>)
    requires StrictTotal(lt)
    ensures StrictlySorted(lt, r)
    ensures forall x :: x in r <==> x in s
  {
    r := [];
    var rest := s;
    while rest != {}
      invariant StrictlySorted(lt, r)
      invariant forall x :: x in s <==> x in r || x in rest
      invariant forall x :: x in r ==> x in s
      decreases |rest|
    {
      var x :| x in rest;
      InsertSorted(lt, x, r);
      r := Insert(lt, x, r);
      rest := rest - {x};
    }
  }

  /** The string order is a strict total order. */
  lemma StringLessStrictTotal()
    ensures StrictTotal(StringLess)
  {
    forall a ensures !StringLess(a, a) { StringLessIrreflexive(a); }
    forall a, b, c | StringLess(a, b) && StringLess(b, c) ensures StringLess(a, c) { StringLessTrans(a, b, c); }
    forall a, b ensures a == b || StringLess(a, b) || StringLess(b, a) { StringLessTotal(a, b); }
  }

  lemma {:induction false} StringLessIrreflexive(a: string)
    ensures !StringLess(a, a)
    decreases |a|
  {
    if |a| > 0 {
      StringLessIrreflexive(a[1..]);
    }
  }

  lemma {:induction false} StringLessTrans(a: string, b: string, c: string)
    requires StringLess(a, b) && StringLess(b, c)
    ensures StringLess(a, c)
    decreases |a|
  {
    if |a| > 0 && a[0] == b[0] && b[0] == c[0] {
      StringLessTrans(a[1..], b[1..], c[1..]);
    }
  }

  lemma {:induction false} StringLessTotal(a: string, b: string)
    ensures a == b || StringLess(a, b) || StringLess(b, a)
    decreases |a|
  {
    if |a| > 0 && |b| > 0 && a[0] == b[0] {
      StringLessTotal(a[1..], b[1..]);
      if a[1..] == b[1..] {
        assert a == [a[0]] + a[1..] && b == [b[0]] + b[1..];
      }
    }
  }

  lemma IntLessStrictTotal()
    ensures StrictTotal(IntLess)
  {
  }
}
