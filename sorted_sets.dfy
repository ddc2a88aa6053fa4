/**
 * Rust's `BTreeSet`, modelled by the sequence its iterator yields: keys in
 * strictly ascending order. Collecting an iterator, `union`, `difference`
 * and `intersection` are the library calls the diff engine makes on it.
 */
module SortedSets {
  import opened Order

  /** Strictly ascending under `lt`: what iterating a `BTreeSet` yields. */
  ghost predicate Sorted<T>(lt: (T, T) -> bool, s: seq<T>) {
    forall i, j :: 0 <= i < j < |s| ==> lt(s[i], s[j])
  }

  /** A strictly ascending sequence holds no element twice. */
  lemma SortedDistinct<T(!new)>(lt: (T, T) -> bool, s: seq<T>, i: int, j: int)
    requires StrictTotal(lt) && Sorted(lt, s)
    requires 0 <= i < |s| && 0 <= j < |s| && i != j
    ensures s[i] != s[j]
  {
    if i < j {
      assert lt(s[i], s[j]);
    } else {
      assert lt(s[j], s[i]);
    }
  }

  /** The first element of a sorted sequence is below every later one. */
  lemma HeadBelowTail<T(!new)>(lt: (T, T) -> bool, s: seq<T>, y: T)
    requires Sorted(lt, s) && |s| > 0 && y in s[1..]
    ensures lt(s[0], y)
  {
    var k :| 0 <= k < |s[1..]| && s[1..][k] == y;
    assert s[k + 1] == y;
  }

  /** `BTreeSet::insert`: adds `x` at its place; an element already present leaves the set as it is. */
  function Insert<T(!new, ==)>(lt: (T, T) -> bool, s: seq<T>, x: T): (r: seq<T>)
    requires StrictTotal(lt) && Sorted(lt, s)
    ensures Sorted(lt, r)
    ensures forall y :: y in r <==> y in s || y == x
    ensures x in s ==> r == s
    decreases |s|
  {
    if s == [] then [x]
    else if x == s[0] then s
    else if lt(x, s[0]) then
      assert x !in s by {
        if x in s[1..] {
          HeadBelowTail(lt, s, x);
        }
        assert s == [s[0]] + s[1..];
      }
      [x] + s
    else
      var rest := Insert(lt, s[1..], x);
      assert forall y :: y in rest ==> lt(s[0], y) by {
        forall y | y in rest ensures lt(s[0], y) {
          if y != x {
            HeadBelowTail(lt, s, y);
          }
        }
      }
      assert s == [s[0]] + s[1..];
      [s[0]] + rest
  }

  /** `iter.collect::<BTreeSet<_>>()`: the elements of `xs`, duplicates dropped, in ascending order. */
  function FromSeq<T(!new, ==)>(lt: (T, T) -> bool, xs: seq<T>): (r: seq<T>)
    requires StrictTotal(lt)
    ensures Sorted(lt, r)
    ensures forall y :: y in r <==> y in xs
    decreases |xs|
  {
    if xs == [] then []
    else
      var prefix := xs[..|xs| - 1];
      assert xs == prefix + [xs[|xs| - 1]];
      Insert(lt, FromSeq(lt, prefix), xs[|xs| - 1])
  }

  /** A `BTreeSet<String>` collected from `xs`: no duplicates, ascending. */
  function StringSet(xs: seq<string>): (r: seq<string>)
    ensures Sorted(StrLess, r)
    ensures forall y :: y in r <==> y in xs
  {
    StrLessStrictTotal();
    FromSeq(StrLess, xs)
  }

  /** `a.difference(&b)` on two sets: the elements of `a` not in `b`, in `a`'s order. */
  function Difference<T(!new, ==)>(ghost lt: (T, T) -> bool, a: seq<T>, b: seq<T>): (r: seq<T>)
    requires Sorted(lt, a)
    ensures Sorted(lt, r)
    ensures forall y :: y in r <==> y in a && y !in b
    decreases |a|
  {
    if a == [] then []
    else
      var rest := Difference(lt, a[1..], b);
      assert forall y :: y in rest ==> lt(a[0], y) by {
        forall y | y in rest ensures lt(a[0], y) {
          HeadBelowTail(lt, a, y);
        }
      }
      assert a == [a[0]] + a[1..];
      if a[0] in b then rest else [a[0]] + rest
  }

  /** `a.intersection(&b)` on two sets: the elements of `a` also in `b`, in `a`'s order. */
  function Intersection<T(!new, ==)>(ghost lt: (T, T) -> bool, a: seq<T>, b: seq<T>): (r: seq<T>)
    requires Sorted(lt, a)
    ensures Sorted(lt, r)
    ensures forall y :: y in r <==> y in a && y in b
    decreases |a|
  {
    if a == [] then []
    else
      var rest := Intersection(lt, a[1..], b);
      assert forall y :: y in rest ==> lt(a[0], y) by {
        forall y | y in rest ensures lt(a[0], y) {
          HeadBelowTail(lt, a, y);
        }
      }
      assert a == [a[0]] + a[1..];
      if a[0] in b then [a[0]] + rest else rest
  }

  /** `a.union(&b).cloned().collect()` on two `BTreeSet<String>`s: every element of either, ascending. */
  function StringUnion(a: seq<string>, b: seq<string>): (r: seq<string>)
    ensures Sorted(StrLess, r)
    ensures forall y :: y in r <==> y in a || y in b
  {
    StrLessStrictTotal();
    FromSeq(StrLess, a + b)
  }

  /**
   * A set has one ascending enumeration: two sorted sequences with the same
   * elements are equal. This is what makes every ordered output above
   * determined by its element set alone.
   */
  lemma {:induction false} SortedUnique<T(!new)>(lt: (T, T) -> bool, a: seq<T>, b: seq<T>)
    requires StrictTotal(lt) && Sorted(lt, a) && Sorted(lt, b)
    requires forall y :: y in a <==> y in b
    ensures a == b
    decreases |a|
  {
    if |a| > 0 {
      assert a[0] in b;
      HeadIsLeast(lt, b, a[0]);
    }
    if |b| > 0 {
      assert b[0] in a;
      HeadIsLeast(lt, a, b[0]);
    }
    if |a| > 0 && |b| > 0 {
      assert a[0] == b[0];
      assert a == [a[0]] + a[1..] && b == [b[0]] + b[1..];
      forall y ensures y in a[1..] <==> y in b[1..] {
        if y in a[1..] {
          HeadBelowTail(lt, a, y);
          assert y != b[0] && y in b;
        }
        if y in b[1..] {
          HeadBelowTail(lt, b, y);
          assert y != a[0] && y in a;
        }
      }
      SortedUnique(lt, a[1..], b[1..]);
    }
  }

  /** Every element of a sorted sequence is its first element or above it. */
  lemma HeadIsLeast<T(!new)>(lt: (T, T) -> bool, s: seq<T>, y: T)
    requires Sorted(lt, s) && y in s
    ensures y == s[0] || lt(s[0], y)
  {
    if y != s[0] {
      assert s == [s[0]] + s[1..];
      HeadBelowTail(lt, s, y);
    }
  }

  /** `a.intersection(&b)` and `b.intersection(&a)` yield the same sequence. */
  lemma IntersectionSwap<T(!new)>(lt: (T, T) -> bool, a: seq<T>, b: seq<T>)
    requires StrictTotal(lt) && Sorted(lt, a) && Sorted(lt, b)
    ensures Intersection(lt, a, b) == Intersection(lt, b, a)
  {
    SortedUnique(lt, Intersection(lt, a, b), Intersection(lt, b, a));
  }
}
