/**
 Stable sorting, as `Array.prototype.sort` (section 23.1.3.30 of ECMA-262) and Python's `sorted`
 promise it: the result is ordered, and elements the order does not tell apart keep their input order.
 */
module Sorting {

  ghost predicate TotalPreorder<T(!new)>(le: (T, T) -> bool) {
    && (forall x, y :: le(x, y) || le(y, x))
    && (forall x, y, z :: le(x, y) && le(y, z) ==> le(x, z))
  }

  ghost predicate Antisymmetric<T(!new)>(le: (T, T) -> bool) {
    forall x, y :: le(x, y) && le(y, x) ==> x == y
  }

  predicate Sorted<T>(s: seq<T>, le: (T, T) -> bool) {
    forall i, j :: 0 <= i < j < |s| ==> le(s[i], s[j])
  }

  function Filter<T>(s: seq<T>, p: T -> bool): seq<T>
  {
    if s == [] then [] else (if p(s[0]) then [s[0]] else []) + Filter(s[1..], p)
  }

  /** The elements that `le` does not tell apart from `x`. */
  function Class<T>(x: T, le: (T, T) -> bool): T -> bool {
    y => le(x, y) && le(y, x)
  }

  /** Puts `x` before the first element of `s` that may follow it. */
  function Insert<T>(x: T, s: seq<T>, le: (T, T) -> bool): seq<T> {
    if s == [] || le(x, s[0]) then [x] + s else [s[0]] + Insert(x, s[1..], le)
  }

  function Sort<T>(s: seq<T>, le: (T, T) -> bool): seq<T> {
    if s == [] then [] else Insert(s[0], Sort(s[1..], le), le)
  }

  // ---- Filter ----

  lemma {:induction false} FilterConcat<T>(s: seq<T>, t: seq<T>, p: T -> bool)
    ensures Filter(s + t, p) == Filter(s, p) + Filter(t, p)
  {
    if s == [] {
      assert s + t == t;
    } else {
      var head := if p(s[0]) then [s[0]] else [];
      calc {
        Filter(s + t, p);
        { assert (s + t)[0] == s[0] && (s + t)[1..] == s[1..] + t; }
        head + Filter(s[1..] + t, p);
        { FilterConcat(s[1..], t, p); }
        head + (Filter(s[1..], p) + Filter(t, p));
        (head + Filter(s[1..], p)) + Filter(t, p);
        Filter(s, p) + Filter(t, p);
      }
    }
  }

  lemma {:induction false} FilterAll<T>(s: seq<T>, p: T -> bool)
    requires forall x <- s :: p(x)
    ensures Filter(s, p) == s
  {
    if s != [] {
      FilterAll(s[1..], p);
    }
  }

  lemma {:induction false} FilterNone<T>(s: seq<T>, p: T -> bool)
    requires forall x <- s :: !p(x)
    ensures Filter(s, p) == []
  {
    if s != [] {
      FilterNone(s[1..], p);
    }
  }

  lemma {:induction false} FilterMember<T>(s: seq<T>, p: T -> bool, x: T)
    ensures x in Filter(s, p) <==> x in s && p(x)
  {
    if s != [] {
      FilterMember(s[1..], p, x);
      assert s == [s[0]] + s[1..];
    }
  }

  /** Filtering by `p` and then by `q` keeps what satisfies both. */
  lemma {:induction false} FilterTwice<T>(s: seq<T>, p: T -> bool, q: T -> bool, both: T -> bool)
    requires forall x <- s :: both(x) == (p(x) && q(x))
    ensures Filter(Filter(s, p), q) == Filter(s, both)
  {
    if s != [] {
      FilterTwice(s[1..], p, q, both);
      FilterConcat(if p(s[0]) then [s[0]] else [], Filter(s[1..], p), q);
    }
  }

  lemma {:induction false} FilterAgrees<T>(s: seq<T>, p: T -> bool, q: T -> bool)
    requires forall x <- s :: p(x) == q(x)
    ensures Filter(s, p) == Filter(s, q)
  {
    if s != [] {
      FilterAgrees(s[1..], p, q);
    }
  }

  // ---- Sort is a stable sort ----

  lemma {:induction false} InsertMultiset<T>(x: T, s: seq<T>, le: (T, T) -> bool)
    ensures multiset(Insert(x, s, le)) == multiset(s) + multiset{x}
  {
    if s != [] && !le(x, s[0]) {
      InsertMultiset(x, s[1..], le);
      assert s == [s[0]] + s[1..];
    }
  }

  lemma {:induction false} InsertSorted<T(!new)>(x: T, s: seq<T>, le: (T, T) -> bool)
    requires TotalPreorder(le) && Sorted(s, le)
    ensures Sorted(Insert(x, s, le), le)
  {
    if s != [] && !le(x, s[0]) {
      InsertSorted(x, s[1..], le);
      InsertMultiset(x, s[1..], le);
      var rest := Insert(x, s[1..], le);
      forall j | 0 <= j < |rest| ensures le(s[0], rest[j]) {
        assert rest[j] in multiset(rest);
        assert rest[j] == x || rest[j] in s[1..];
      }
    }
  }

  lemma {:induction false} InsertFilter<T(!new)>(x: T, s: seq<T>, le: (T, T) -> bool, k: T)
    requires TotalPreorder(le) && Sorted(s, le)
    ensures Filter(Insert(x, s, le), Class(k, le)) == Filter([x] + s, Class(k, le))
  {
    var p := Class(k, le);
    if s == [] || le(x, s[0]) {
    } else {
      InsertFilter(x, s[1..], le, k);
      FilterConcat([x], s[1..], p);
      FilterConcat([x], s, p);
      assert !(p(x) && p(s[0]));
      assert Filter([x], p) == (if p(x) then [x] else []);
    }
  }

  /** `Sort` is a permutation, is ordered, and keeps the input order inside every class. */
  lemma {:induction false} SortIsStable<T(!new)>(s: seq<T>, le: (T, T) -> bool)
    requires TotalPreorder(le)
    ensures multiset(Sort(s, le)) == multiset(s)
    ensures Sorted(Sort(s, le), le)
    ensures forall k :: Filter(Sort(s, le), Class(k, le)) == Filter(s, Class(k, le))
  {
    if s != [] {
      SortIsStable(s[1..], le);
      var rest := Sort(s[1..], le);
      InsertMultiset(s[0], rest, le);
      InsertSorted(s[0], rest, le);
      assert s == [s[0]] + s[1..];
      forall k ensures Filter(Sort(s, le), Class(k, le)) == Filter(s, Class(k, le)) {
        InsertFilter(s[0], rest, le, k);
        FilterConcat([s[0]], rest, Class(k, le));
        FilterConcat([s[0]], s[1..], Class(k, le));
      }
    }
  }

  /** Ordered sequences with the same classes are the same sequence. */
  lemma {:induction false} SortedByClasses<T(!new)>(r: seq<T>, t: seq<T>, le: (T, T) -> bool)
    requires TotalPreorder(le) && Sorted(r, le) && Sorted(t, le)
    requires forall k :: Filter(r, Class(k, le)) == Filter(t, Class(k, le))
    ensures r == t
  {
    if r != [] {
      FilterMember(r, Class(r[0], le), r[0]);
      FilterMember(t, Class(r[0], le), r[0]);
    }
    if t != [] {
      FilterMember(t, Class(t[0], le), t[0]);
      FilterMember(r, Class(t[0], le), t[0]);
    }
    if r != [] {
      assert le(r[0], t[0]) && le(t[0], r[0]);
      assert Filter(r, Class(r[0], le))[0] == r[0] && Filter(t, Class(r[0], le))[0] == t[0];
      forall k ensures Filter(r[1..], Class(k, le)) == Filter(t[1..], Class(k, le)) {
        assert Filter(r, Class(k, le)) == Filter(t, Class(k, le));
        var head := if Class(k, le)(r[0]) then [r[0]] else [];
        assert Filter(r, Class(k, le)) == head + Filter(r[1..], Class(k, le));
        assert Filter(t, Class(k, le)) == head + Filter(t[1..], Class(k, le));
        assert (head + Filter(r[1..], Class(k, le)))[|head|..] == (head + Filter(t[1..], Class(k, le)))[|head|..];
      }
      SortedByClasses(r[1..], t[1..], le);
      assert r == [r[0]] + r[1..] && t == [t[0]] + t[1..];
    }
  }

  /** The stable sort is unique: being ordered and keeping every class decides the result. */
  lemma StableSortIsUnique<T(!new)>(r: seq<T>, s: seq<T>, le: (T, T) -> bool)
    requires TotalPreorder(le) && Sorted(r, le)
    requires forall k :: Filter(r, Class(k, le)) == Filter(s, Class(k, le))
    ensures r == Sort(s, le)
  {
    SortIsStable(s, le);
    SortedByClasses(r, Sort(s, le), le);
  }

  /** Under an antisymmetric order the sorted result does not depend on the input order. */
  lemma {:induction false} SortIgnoresOrder<T(!new)>(s: seq<T>, t: seq<T>, le: (T, T) -> bool)
    requires TotalPreorder(le) && Antisymmetric(le) && multiset(s) == multiset(t)
    ensures Sort(s, le) == Sort(t, le)
  {
    SortIsStable(s, le);
    SortIsStable(t, le);
    SortedPermutations(Sort(s, le), Sort(t, le), le);
  }

  lemma {:induction false} SortedPermutations<T(!new)>(r: seq<T>, t: seq<T>, le: (T, T) -> bool)
    requires Antisymmetric(le) && Sorted(r, le) && Sorted(t, le) && multiset(r) == multiset(t)
    ensures r == t
  {
    hide Sorted, Antisymmetric;
    assert |r| == |multiset(r)| && |t| == |multiset(t)|;
    if r != [] {
      HeadsAgree(r, t, le);
      TailOfSorted(r, le);
      TailOfSorted(t, le);
      SortedPermutations(r[1..], t[1..], le);
      assert r == [r[0]] + r[1..] && t == [t[0]] + t[1..];
    }
  }

  lemma HeadsAgree<T(!new)>(r: seq<T>, t: seq<T>, le: (T, T) -> bool)
    requires Antisymmetric(le) && Sorted(r, le) && Sorted(t, le) && multiset(r) == multiset(t)
    requires r != [] && t != []
    ensures r[0] == t[0]
  {
    assert r[0] in multiset(t) && t[0] in multiset(r);
    var i :| 0 <= i < |t| && t[i] == r[0];
    var j :| 0 <= j < |r| && r[j] == t[0];
  }

  lemma TailOfSorted<T(!new)>(s: seq<T>, le: (T, T) -> bool)
    requires s != [] && Sorted(s, le)
    ensures Sorted(s[1..], le) && multiset(s[1..]) == multiset(s) - multiset{s[0]}
  {
    assert s == [s[0]] + s[1..];
  }
}
