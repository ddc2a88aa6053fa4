/**
 * The orders that Rust's `BTreeSet` and `BTreeMap` keep their keys in.
 *
 * Rust compares `String`s byte by byte over their UTF-8 encoding, which is
 * the same as comparing code point by code point; Dafny's `char` is a
 * Unicode scalar value, so `String` order is the lexicographic extension of
 * `<` on `char`. `Vec<String>` is ordered lexicographically by `String`
 * order, `bool` has `false < true`, and tuples compare component by
 * component. Dafny's own `<` on sequences means "proper prefix", so the
 * lexicographic order is defined here.
 */
module Order {

  /** `lt` is a strict total order: irreflexive, transitive and total. */
  ghost predicate StrictTotal<T(!new)>(lt: (T, T) -> bool) {
    && (forall x :: !lt(x, x))
    && (forall x, y, z :: lt(x, y) && lt(y, z) ==> lt(x, z))
    && (forall x, y :: x != y ==> lt(x, y) || lt(y, x))
  }

  /** Lexicographic extension of `lt` to sequences: a proper prefix is smaller. */
  predicate LexLess<T(==)>(lt: (T, T) -> bool, a: seq<T>, b: seq<T>)
    decreases |a|
  {
    if |a| == 0 then |b| > 0
    else |b| > 0 && (lt(a[0], b[0]) || (a[0] == b[0] && LexLess(lt, a[1..], b[1..])))
  }

  lemma {:induction false} LexIrreflexive<T(!new)>(lt: (T, T) -> bool, a: seq<T>)
    requires StrictTotal(lt)
    ensures !LexLess(lt, a, a)
    decreases |a|
  {
    if |a| > 0 {
      LexIrreflexive(lt, a[1..]);
    }
  }

  lemma {:induction false} LexTransitive<T(!new)>(lt: (T, T) -> bool, a: seq<T>, b: seq<T>, c: seq<T>)
    requires StrictTotal(lt)
    requires LexLess(lt, a, b) && LexLess(lt, b, c)
    ensures LexLess(lt, a, c)
    decreases |a|
  {
    if |a| > 0 && a[0] == b[0] && b[0] == c[0] {
      LexTransitive(lt, a[1..], b[1..], c[1..]);
    }
  }

  lemma {:induction false} LexTotal<T(!new)>(lt: (T, T) -> bool, a: seq<T>, b: seq<T>)
    requires StrictTotal(lt)
    requires a != b
    ensures LexLess(lt, a, b) || LexLess(lt, b, a)
    decreases |a|
  {
    if |a| > 0 && |b| > 0 && a[0] == b[0] {
      assert a == [a[0]] + a[1..] && b == [b[0]] + b[1..];
      LexTotal(lt, a[1..], b[1..]);
    }
  }

  /** An order that agrees with the lexicographic extension of a strict total order is one too. */
  lemma LexStrictTotal<T(!new)>(lt: (T, T) -> bool, lex: (seq<T>, seq<T>) -> bool)
    requires StrictTotal(lt)
    requires forall a, b :: lex(a, b) == LexLess(lt, a, b)
    ensures StrictTotal(lex)
  {
    forall a: seq<T> ensures !lex(a, a) {
      LexIrreflexive(lt, a);
    }
    forall a: seq<T>, b: seq<T>, c: seq<T> | lex(a, b) && lex(b, c)
      ensures lex(a, c)
    {
      LexTransitive(lt, a, b, c);
    }
    forall a: seq<T>, b: seq<T> | a != b ensures lex(a, b) || lex(b, a) {
      LexTotal(lt, a, b);
    }
  }

  predicate CharLess(a: char, b: char) {
    a < b
  }

  /** Rust's `Ord` on `String`. */
  predicate StrLess(a: string, b: string) {
    LexLess(CharLess, a, b)
  }

  /** Rust's `Ord` on `Vec<String>`. */
  predicate ListLess(a: seq<string>, b: seq<string>) {
    LexLess(StrLess, a, b)
  }

  /** Rust's `Ord` on `bool`: `false < true`. */
  predicate BoolLess(a: bool, b: bool) {
    !a && b
  }

  lemma StrLessStrictTotal()
    ensures StrictTotal(StrLess)
  {
    assert StrictTotal(CharLess);
    LexStrictTotal(CharLess, StrLess);
  }

  lemma ListLessStrictTotal()
    ensures StrictTotal(ListLess)
  {
    StrLessStrictTotal();
    LexStrictTotal(StrLess, ListLess);
  }
}
