/** Orderings used by the queries and the worker: a sort by an integer key
    giving one admissible order for the `OrderBy(x => x.Created)` of the job
    queries (ties keep table order), and the ordinal order on strings with
    the sorted enumeration of a set of names (the `OrderBy(x => x.Name)` of
    the record listing). */
module Ordering {

  // ---------------------------------------------------------------------
  // Sorting by an integer key
  // ---------------------------------------------------------------------

  /** `s` is in ascending order of `key`. */
  predicate SortedBy<T>(s: seq<T>, key: T -> int)
  {
    forall i, j :: 0 <= i < j < |s| ==> key(s[i]) <= key(s[j])
  }

  /** Prepending an element no larger than the rest keeps a sequence sorted. */
  lemma SortedCons<T>(h: T, t: seq<T>, key: T -> int)
    requires SortedBy(t, key)
    requires forall j :: 0 <= j < |t| ==> key(h) <= key(t[j])
    ensures SortedBy([h] + t, key)
  {
    var r := [h] + t;
    forall i, j | 0 <= i < j < |r| ensures key(r[i]) <= key(r[j]) {
      assert r[j] == t[j - 1];
      if i > 0 {
        assert r[i] == t[i - 1];
      }
    }
  }

  /** Inserts `x` after every element whose key is not larger than its own. */
  function InsertByKey<T>(x: T, s: seq<T>, key: T -> int): (r: seq<T>)
    requires SortedBy(s, key)
    ensures SortedBy(r, key)
    ensures multiset(r) == multiset(s) + multiset{x}
    ensures forall i :: 0 <= i < |r| ==> r[i] == x || r[i] in s
    ensures |r| == |s| + 1
    decreases |s|, 2
  {
    if s == [] then [x]
    else if key(x) < key(s[0]) then
      SortedCons(x, s, key);
      [x] + s
    else
      InsertAfterHead(x, s, key);
      [s[0]] + InsertByKey(x, s[1..], key)
  }

  /** When `x` goes after the head of `s`, the head stays first and the
      result is again sorted, a permutation of `s` with `x`, and longer by
      one. */
  lemma InsertAfterHead<T>(x: T, s: seq<T>, key: T -> int)
    requires SortedBy(s, key) && s != [] && key(s[0]) <= key(x)
    ensures var r := [s[0]] + InsertByKey(x, s[1..], key);
            && SortedBy(r, key)
            && multiset(r) == multiset(s) + multiset{x}
            && (forall i :: 0 <= i < |r| ==> r[i] == x || r[i] in s)
            && |r| == |s| + 1
    decreases |s|, 1
  {
    assert s == [s[0]] + s[1..];
    var rest := InsertByKey(x, s[1..], key);
    HeadBelowInserted(x, s, key);
    SortedCons(s[0], rest, key);
    var r := [s[0]] + rest;
    assert multiset(r) == multiset{s[0]} + multiset(rest);
    forall i | 0 <= i < |r| ensures r[i] == x || r[i] in s {
      if i > 0 {
        assert r[i] == rest[i - 1];
      }
    }
  }

  /** Every element inserted after the head of `s` has a key no smaller than
      the head's, and is `x` or an element of `s`. */
  lemma HeadBelowInserted<T>(x: T, s: seq<T>, key: T -> int)
    requires SortedBy(s, key) && s != [] && key(s[0]) <= key(x)
    ensures forall j :: 0 <= j < |InsertByKey(x, s[1..], key)| ==>
              && key(s[0]) <= key(InsertByKey(x, s[1..], key)[j])
              && (InsertByKey(x, s[1..], key)[j] == x || InsertByKey(x, s[1..], key)[j] in s)
    decreases |s|, 0
  {
    var rest := InsertByKey(x, s[1..], key);
    forall j | 0 <= j < |rest| ensures key(s[0]) <= key(rest[j]) && (rest[j] == x || rest[j] in s) {
      if rest[j] != x {
        var k :| 0 <= k < |s[1..]| && s[1..][k] == rest[j];
        assert s[k + 1] == rest[j];
      }
    }
  }

  /** Stable insertion sort: elements with equal keys keep their relative
      order, which is one of the orders an `OrderBy` may return. */
  function SortByKey<T>(s: seq<T>, key: T -> int): (r: seq<T>)
    ensures SortedBy(r, key)
    ensures multiset(r) == multiset(s)
    ensures |r| == |s|
  {
    if s == [] then []
    else
      assert s == s[..|s| - 1] + [s[|s| - 1]];
      InsertByKey(s[|s| - 1], SortByKey(s[..|s| - 1], key), key)
  }

  /** No element occurs twice. */
  predicate Distinct<T(==)>(s: seq<T>)
  {
    forall i, j :: 0 <= i < j < |s| ==> s[i] != s[j]
  }

  /** In a sequence without repetitions every element occurs once. */
  lemma {:induction false} DistinctOccursOnce<T>(s: seq<T>, x: T)
    requires Distinct(s)
    ensures multiset(s)[x] <= 1
  {
    if s != [] {
      var init := s[..|s| - 1];
      assert s == init + [s[|s| - 1]];
      DistinctOccursOnce(init, x);
      if x == s[|s| - 1] {
        assert x !in init;
      }
    }
  }

  /** A permutation of a sequence without repetitions has none either. */
  lemma DistinctPermutation<T>(a: seq<T>, b: seq<T>)
    requires Distinct(a) && multiset(a) == multiset(b)
    ensures Distinct(b)
  {
    forall i, j | 0 <= i < j < |b| ensures b[i] != b[j] {
      var x := b[j];
      DistinctOccursOnce(a, x);
      assert b == b[..j] + [x] + b[j + 1..];
      assert multiset(b)[x] == multiset(b[..j])[x] + 1 + multiset(b[j + 1..])[x];
      assert x !in b[..j];
      assert b[..j][i] == b[i];
    }
  }

  // ---------------------------------------------------------------------
  // The ordinal order on strings
  // ---------------------------------------------------------------------

  /** Ordinal (character-code) order: `a` is a prefix of `b`, or at the first
      position where they differ `a` has the smaller character. */
  predicate StrLessEq(a: string, b: string)
  {
    a == [] || (b != [] && (a[0] < b[0] || (a[0] == b[0] && StrLessEq(a[1..], b[1..]))))
  }

  lemma {:induction false} StrLessEqReflexive(a: string)
    ensures StrLessEq(a, a)
  {
    if a != [] {
      StrLessEqReflexive(a[1..]);
    }
  }

  lemma {:induction false} StrLessEqTotal(a: string, b: string)
    ensures StrLessEq(a, b) || StrLessEq(b, a)
  {
    if a != [] && b != [] && a[0] == b[0] {
      StrLessEqTotal(a[1..], b[1..]);
    }
  }

  lemma {:induction false} StrLessEqAntisymmetric(a: string, b: string)
    requires StrLessEq(a, b) && StrLessEq(b, a)
    ensures a == b
  {
    if a != [] && b != [] {
      StrLessEqAntisymmetric(a[1..], b[1..]);
      assert a == [a[0]] + a[1..] && b == [b[0]] + b[1..];
    }
  }

  lemma {:induction false} StrLessEqTransitive(a: string, b: string, c: string)
    requires StrLessEq(a, b) && StrLessEq(b, c)
    ensures StrLessEq(a, c)
  {
    if a != [] && b != [] && c != [] && a[0] == b[0] && b[0] == c[0] {
      StrLessEqTransitive(a[1..], b[1..], c[1..]);
    }
  }

  /** Strict ordinal order. */
  predicate StrLess(a: string, b: string)
  {
    StrLessEq(a, b) && a != b
  }

  /** `m` is the least element of `names`. */
  predicate IsLeast(m: string, names: set<string>)
  {
    m in names && forall n :: n in names ==> StrLessEq(m, n)
  }

  /** Every finite non-empty set of strings has a least element. */
  lemma {:induction false} LeastExists(names: set<string>)
    requires names != {}
    ensures exists m :: IsLeast(m, names)
    decreases |names|
  {
    var x :| x in names;
    if names == {x} {
      StrLessEqReflexive(x);
      assert IsLeast(x, names);
    } else {
      LeastExists(names - {x});
      var m :| IsLeast(m, names - {x});
      StrLessEqTotal(m, x);
      if StrLessEq(m, x) {
        assert IsLeast(m, names);
      } else {
        forall n | n in names ensures StrLessEq(x, n) {
          if n != x {
            assert n in names - {x};
            StrLessEqTransitive(x, m, n);
          } else {
            StrLessEqReflexive(x);
          }
        }
        assert IsLeast(x, names);
      }
    }
  }

  /** A set has at most one least element. */
  lemma LeastUnique(names: set<string>)
    ensures forall m, m' :: IsLeast(m, names) && IsLeast(m', names) ==> m == m'
  {
    forall m, m' | IsLeast(m, names) && IsLeast(m', names) ensures m == m' {
      StrLessEqAntisymmetric(m, m');
    }
  }

  /** The elements of `names` listed in strictly ascending ordinal order. */
  function SortedNames(names: set<string>): (r: seq<string>)
    ensures |r| == |names|
    ensures forall i :: 0 <= i < |r| ==> r[i] in names
    ensures forall n :: n in names ==> n in r
    ensures forall i, j :: 0 <= i < j < |r| ==> StrLess(r[i], r[j])
    decreases |names|, 1
  {
    if names == {} then []
    else
      LeastExists(names);
      LeastUnique(names);
      var m :| IsLeast(m, names);
      LeastComesFirst(names, m);
      [m] + SortedNames(names - {m})
  }

  /** The least name precedes every name listed after it. */
  lemma LeastComesFirst(names: set<string>, m: string)
    requires IsLeast(m, names)
    ensures forall j :: 0 <= j < |SortedNames(names - {m})| ==> StrLess(m, SortedNames(names - {m})[j])
    decreases |names|, 0
  {
    var rest := SortedNames(names - {m});
    forall j | 0 <= j < |rest| ensures StrLess(m, rest[j]) {
      assert rest[j] in names - {m};
    }
  }
}
