/**
 * The one sort the application needs twice: Python's `sorted` on field
 * names (ascending) and SQLite's `ORDER BY calculated_at DESC` on ETc rows
 * (descending). Both order by a string key in code-point order; elements
 * with equal keys may come in any order.
 */
module Sorting {
  import opened Text

  /** Key `a` goes strictly before key `b`: code-point order, reversed when `descending`. */
  predicate Precedes(a: string, b: string, descending: bool)
  {
    if descending then Less(b, a) else Less(a, b)
  }

  lemma PrecedesIrreflexive(a: string, descending: bool)
    ensures !Precedes(a, a, descending)
  {
    LessIrreflexive(a);
  }

  lemma PrecedesAsymmetric(a: string, b: string, descending: bool)
    requires Precedes(a, b, descending)
    ensures !Precedes(b, a, descending)
  {
    if descending {
      LessAsymmetric(b, a);
    } else {
      LessAsymmetric(a, b);
    }
  }

  /** "Not before" is transitive. */
  lemma NotBeforeTransitive(a: string, b: string, c: string, descending: bool)
    requires !Precedes(b, a, descending) && !Precedes(c, b, descending)
    ensures !Precedes(c, a, descending)
  {
    if descending {
      AtLeastTransitive(a, b, c);
    } else {
      AtLeastTransitive(c, b, a);
    }
  }

  /** No element has a key that goes before the key of an earlier element. */
  predicate SortedBy<T>(xs: seq<T>, key: T -> string, descending: bool)
  {
    forall i, j | 0 <= i < j < |xs| :: !Precedes(key(xs[j]), key(xs[i]), descending)
  }

  lemma SortedCons<T>(y: T, xs: seq<T>, key: T -> string, descending: bool)
    requires SortedBy(xs, key, descending)
    requires NoneBefore(key(y), xs, key, descending)
    ensures SortedBy([y] + xs, key, descending)
  {
    var r := [y] + xs;
    forall i, j | 0 <= i < j < |r| ensures !Precedes(key(r[j]), key(r[i]), descending) {
      if i > 0 {
        assert r[i] == xs[i - 1] && r[j] == xs[j - 1];
      } else {
        assert r[j] in xs;
      }
    }
  }

  /** No element of `xs` has a key that goes before `k`. */
  predicate NoneBefore<T(==)>(k: string, xs: seq<T>, key: T -> string, descending: bool)
  {
    forall y | y in xs :: !Precedes(key(y), k, descending)
  }

  /** A key not after the first of a sorted list is not after any of them. */
  lemma FirstBoundsAll<T>(k: string, xs: seq<T>, key: T -> string, descending: bool)
    requires SortedBy(xs, key, descending)
    requires xs == [] || !Precedes(key(xs[0]), k, descending)
    ensures NoneBefore(k, xs, key, descending)
  {
    forall y | y in xs ensures !Precedes(key(y), k, descending) {
      var m :| 0 <= m < |xs| && xs[m] == y;
      if m > 0 {
        NotBeforeTransitive(k, key(xs[0]), key(y), descending);
      }
    }
  }

  /** A bound on every element of `a` and on `x` bounds every element of a permutation of `a + [x]`. */
  lemma BoundAfterInsert<T>(k: string, a: seq<T>, x: T, b: seq<T>, key: T -> string, descending: bool)
    requires NoneBefore(k, a, key, descending) && !Precedes(key(x), k, descending)
    requires multiset(b) == multiset(a) + multiset{x}
    ensures NoneBefore(k, b, key, descending)
  {
    forall y | y in b ensures !Precedes(key(y), k, descending) {
      assert y in multiset(b);
      if y != x {
        assert y in multiset(a);
      }
    }
  }

  /** Places `x` before the first element whose key does not go before its own. */
  function InsertBy<T(==)>(x: T, xs: seq<T>, key: T -> string, descending: bool): (r: seq<T>)
    requires SortedBy(xs, key, descending)
    ensures SortedBy(r, key, descending)
    ensures multiset(r) == multiset(xs) + multiset{x}
  {
    if xs == [] || !Precedes(key(xs[0]), key(x), descending) then
      FirstBoundsAll(key(x), xs, key, descending);
      SortedCons(x, xs, key, descending);
      [x] + xs
    else
      assert xs == [xs[0]] + xs[1..];
      var rest := InsertBy(x, xs[1..], key, descending);
      PrecedesIrreflexive(key(xs[0]), descending);
      FirstBoundsAll(key(xs[0]), xs, key, descending);
      assert NoneBefore(key(xs[0]), xs[1..], key, descending);
      PrecedesAsymmetric(key(xs[0]), key(x), descending);
      BoundAfterInsert(key(xs[0]), xs[1..], x, rest, key, descending);
      SortedCons(xs[0], rest, key, descending);
      [xs[0]] + rest
  }

  /** The same elements, sorted by `key`. */
  function SortBy<T(==)>(xs: seq<T>, key: T -> string, descending: bool): (r: seq<T>)
    ensures SortedBy(r, key, descending)
    ensures multiset(r) == multiset(xs)
  {
    if xs == [] then []
    else
      assert xs == [xs[0]] + xs[1..];
      InsertBy(xs[0], SortBy(xs[1..], key, descending), key, descending)
  }
}
