/** Stable insertion sort by a "comes before" relation, the common model of the
    three ORDER BY clauses of the backend and of the frontend's `Array.sort`.

    SQL leaves the order of ties unspecified, so for the backend what is
    promised is only "a permutation of the rows, sorted"; JavaScript's sort is
    stable, and so is this one. */
module Sorting {

  /** `x` placed before the first element that does not come before it. */
  function Insert<T(==)>(x: T, s: seq<T>, before: (T, T) -> bool): (r: seq<T>)
    ensures multiset(r) == multiset(s) + multiset{x}
  {
    if |s| == 0 then [x]
    else if before(s[0], x) then
      assert s == [s[0]] + s[1..];
      [s[0]] + Insert(x, s[1..], before)
    else [x] + s
  }

  /** Insertion sort; equal elements keep their relative order. */
  function Sort<T(==)>(s: seq<T>, before: (T, T) -> bool): (r: seq<T>)
    ensures multiset(r) == multiset(s)
  {
    if |s| == 0 then []
    else
      assert s == [s[0]] + s[1..];
      Insert(s[0], Sort(s[1..], before), before)
  }

  /** No element comes before an element placed earlier. */
  ghost predicate SortedBy<T>(s: seq<T>, before: (T, T) -> bool) {
    forall i, j | 0 <= i < j < |s| :: !before(s[j], s[i])
  }

  /** On the elements of `u`, `before` is a strict weak order: irreflexive,
      transitive, and "incomparable" is transitive too (stated here as: if
      a comes before c, any b comes after a or before c). */
  ghost predicate StrictWeakOn<T>(before: (T, T) -> bool, u: seq<T>) {
    && (forall a | a in u :: !before(a, a))
    && (forall a, b, c | a in u && b in u && c in u :: before(a, b) && before(b, c) ==> before(a, c))
    && (forall a, b, c | a in u && b in u && c in u :: before(a, c) ==> before(a, b) || before(b, c))
  }

  lemma {:induction false} InsertSorted<T>(x: T, s: seq<T>, before: (T, T) -> bool, u: seq<T>)
    requires StrictWeakOn(before, u)
    requires x in u && forall y | y in s :: y in u
    requires SortedBy(s, before)
    ensures SortedBy(Insert(x, s, before), before)
    decreases |s|
  {
    if |s| == 0 {
    } else if before(s[0], x) {
      var rest := Insert(x, s[1..], before);
      InsertSorted(x, s[1..], before, u);
      forall j | 0 <= j < |rest| ensures !before(rest[j], s[0]) {
        assert rest[j] in multiset(rest);
        if rest[j] != x {
          assert rest[j] in s[1..];
          var k :| 0 <= k < |s[1..]| && s[1..][k] == rest[j];
          assert s[k + 1] == rest[j];
        }
      }
      var r := [s[0]] + rest;
      assert r == Insert(x, s, before);
      forall i, j | 0 <= i < j < |r| ensures !before(r[j], r[i]) {
        if i > 0 {
          assert r[i] == rest[i - 1] && r[j] == rest[j - 1];
        } else {
          assert r[j] == rest[j - 1];
        }
      }
    } else {
      var r := [x] + s;
      forall i, j | 0 <= i < j < |r| ensures !before(r[j], r[i]) {
        if i == 0 {
          assert r[j] == s[j - 1];
          if j > 1 {
            assert !before(s[j - 1], s[0]);
            assert s[0] in u && s[j - 1] in u;
          }
        } else {
          assert r[i] == s[i - 1] && r[j] == s[j - 1];
        }
      }
    }
  }

  /** Sorting by a strict weak order yields a sorted sequence. */
  lemma {:induction false} SortSorted<T>(s: seq<T>, before: (T, T) -> bool)
    requires StrictWeakOn(before, s)
    ensures SortedBy(Sort(s, before), before)
  {
    if |s| > 0 {
      var tail := s[1..];
      assert StrictWeakOn(before, tail);
      SortSorted(tail, before);
      var st := Sort(tail, before);
      forall y | y in st ensures y in s {
        assert y in multiset(st);
      }
      InsertSorted(s[0], st, before, s);
    }
  }

  /** Sorting never duplicates an element, so distinct rows stay distinct. */
  lemma {:induction false} SortDistinct<T>(s: seq<T>, before: (T, T) -> bool)
    requires forall i, j | 0 <= i < j < |s| :: s[i] != s[j]
    ensures var r := Sort(s, before); forall i, j | 0 <= i < j < |r| :: r[i] != r[j]
  {
    var r := Sort(s, before);
    forall x ensures multiset(r)[x] <= 1 {
      DistinctCount(s, x);
    }
    forall i, j | 0 <= i < j < |r| ensures r[i] != r[j] {
      TwoPositionsCount(r, i, j);
    }
  }

  /** Sorting keeps exactly the elements it was given. */
  lemma SortMembers<T>(u: seq<T>, before: (T, T) -> bool)
    ensures forall x :: x in Sort(u, before) <==> x in u
  {
    var r := Sort(u, before);
    forall x ensures x in r <==> x in u {
      assert x in r <==> x in multiset(r);
      assert x in u <==> x in multiset(u);
    }
  }

  /** Sorting keeps keys that were distinct distinct. */
  lemma SortKeepsKeysDistinct<T, K>(u: seq<T>, before: (T, T) -> bool, key: T -> K)
    requires forall i, j | 0 <= i < j < |u| :: key(u[i]) != key(u[j])
    ensures var r := Sort(u, before); forall i, j | 0 <= i < j < |r| :: key(r[i]) != key(r[j])
  {
    var r := Sort(u, before);
    assert forall i, j | 0 <= i < j < |u| :: u[i] != u[j];
    SortDistinct(u, before);
    forall i, j | 0 <= i < j < |r| ensures key(r[i]) != key(r[j]) {
      assert r[i] in multiset(r) && r[j] in multiset(r);
      assert r[i] in multiset(u) && r[j] in multiset(u);
      var a :| 0 <= a < |u| && u[a] == r[i];
      var b :| 0 <= b < |u| && u[b] == r[j];
      assert a != b;
    }
  }

  lemma TwoPositionsCount<T>(r: seq<T>, i: int, j: int)
    requires 0 <= i < j < |r|
    ensures r[i] == r[j] ==> multiset(r)[r[i]] >= 2
  {
    assert r == r[..j] + r[j..];
    assert r[i] in r[..j];
    assert r[j..] == [r[j]] + r[j + 1..];
  }

  lemma {:induction false} DistinctCount<T>(s: seq<T>, x: T)
    requires forall i, j | 0 <= i < j < |s| :: s[i] != s[j]
    ensures multiset(s)[x] <= 1
  {
    if |s| > 0 {
      assert s == [s[0]] + s[1..];
      DistinctCount(s[1..], x);
      if s[0] == x {
        assert x !in s[1..];
      }
    }
  }

  /** When no element comes before another, sorting changes nothing. */
  lemma {:induction false} SortUnordered<T>(s: seq<T>, before: (T, T) -> bool)
    requires forall a, b | a in s && b in s :: !before(a, b)
    ensures Sort(s, before) == s
  {
    if |s| > 0 {
      assert forall a | a in s[1..] :: a in s;
      SortUnordered(s[1..], before);
      assert s == [s[0]] + s[1..];
    }
  }

  /** Neither of `a` and `b` comes before the other. */
  predicate Tied<T>(a: T, b: T, before: (T, T) -> bool) {
    !before(a, b) && !before(b, a)
  }

  /** The elements of `s` tied with `z`, in the order `s` has them. */
  function TiedWith<T>(s: seq<T>, z: T, before: (T, T) -> bool): (r: seq<T>)
    ensures |r| <= |s|
    ensures forall y | y in r :: y in s && Tied(y, z, before)
  {
    if |s| == 0 then []
    else (if Tied(s[0], z, before) then [s[0]] else []) + TiedWith(s[1..], z, before)
  }

  /** Inserting `x` puts it in front of every element tied with it. */
  lemma {:induction false} InsertTies<T>(x: T, s: seq<T>, before: (T, T) -> bool, z: T, u: seq<T>)
    requires StrictWeakOn(before, u)
    requires x in u && z in u && forall y | y in s :: y in u
    ensures TiedWith(Insert(x, s, before), z, before)
              == (if Tied(x, z, before) then [x] else []) + TiedWith(s, z, before)
    decreases |s|
  {
    var r := Insert(x, s, before);
    var hx := if Tied(x, z, before) then [x] else [];
    if |s| == 0 {
      assert r == [x] && r[1..] == [];
    } else if before(s[0], x) {
      var h0 := if Tied(s[0], z, before) then [s[0]] else [];
      assert r == [s[0]] + Insert(x, s[1..], before);
      assert r[0] == s[0] && r[1..] == Insert(x, s[1..], before);
      assert TiedWith(r, z, before) == h0 + TiedWith(Insert(x, s[1..], before), z, before);
      InsertTies(x, s[1..], before, z, u);
      assert TiedWith(s, z, before) == h0 + TiedWith(s[1..], z, before);
      var rest := TiedWith(s[1..], z, before);
      if hx == [] {
        assert hx + rest == rest && hx + (h0 + rest) == h0 + rest;
      } else {
        assert h0 == [] by {
          assert s[0] in u;
          assert before(s[0], x) ==> before(s[0], z) || before(z, x);
        }
        assert h0 + (hx + rest) == hx + rest && h0 + rest == rest;
      }
    } else {
      assert r == [x] + s && r[0] == x && r[1..] == s;
    }
  }

  /** The sort is stable: the elements tied with any one element come out
      in the order they went in. */
  lemma {:induction false} SortStable<T>(s: seq<T>, before: (T, T) -> bool, z: T, u: seq<T>)
    requires StrictWeakOn(before, u)
    requires z in u && forall y | y in s :: y in u
    ensures TiedWith(Sort(s, before), z, before) == TiedWith(s, z, before)
  {
    if |s| > 0 {
      var st := Sort(s[1..], before);
      SortStable(s[1..], before, z, u);
      forall y | y in st ensures y in u {
        assert y in multiset(st);
        assert y in s[1..];
      }
      InsertTies(s[0], st, before, z, u);
    }
  }

  /** The total of `f` over a sequence. */
  function SumBy<T>(s: seq<T>, f: T -> int): (r: int) {
    if |s| == 0 then 0 else f(s[0]) + SumBy(s[1..], f)
  }

  lemma {:induction false} SumByInsert<T>(x: T, s: seq<T>, before: (T, T) -> bool, f: T -> int)
    ensures SumBy(Insert(x, s, before), f) == f(x) + SumBy(s, f)
  {
    if |s| > 0 && before(s[0], x) {
      SumByInsert(x, s[1..], before, f);
      assert Insert(x, s, before)[1..] == Insert(x, s[1..], before);
    } else {
      assert Insert(x, s, before)[1..] == s;
    }
  }

  /** Sorting leaves every total unchanged. */
  lemma {:induction false} SortSum<T>(s: seq<T>, before: (T, T) -> bool, f: T -> int)
    ensures SumBy(Sort(s, before), f) == SumBy(s, f)
  {
    if |s| > 0 {
      SortSum(s[1..], before, f);
      SumByInsert(s[0], Sort(s[1..], before), before, f);
    }
  }

  /** A strict total order on keys: irreflexive, transitive, and any two
      different keys are comparable. */
  ghost predicate StrictTotal<K(!new)>(less: (K, K) -> bool) {
    && (forall x :: !less(x, x))
    && (forall x, y, z :: less(x, y) && less(y, z) ==> less(x, z))
    && (forall x, y :: x == y || less(x, y) || less(y, x))
  }

  /** Comparing elements by a key under a strict total order is a strict weak
      order: elements with equal keys are the ties. */
  lemma ByKeyIsStrictWeak<T, K(!new)>(before: (T, T) -> bool, key: T -> K, less: (K, K) -> bool, u: seq<T>)
    requires StrictTotal(less)
    requires forall a, b | a in u && b in u :: before(a, b) == less(key(a), key(b))
    ensures StrictWeakOn(before, u)
  {
    forall a, b, c | a in u && b in u && c in u && before(a, c)
      ensures before(a, b) || before(b, c)
    {
      var ka, kb, kc := key(a), key(b), key(c);
      assert ka == kb || less(ka, kb) || less(kb, ka);
    }
  }
}
