/** Sums, filters and stable sorting of sequences. */
module Sequences {

  /** The total weight of a sequence. */
  function Sum<T>(s: seq<T>, w: T -> nat): nat {
    if s == [] then 0 else w(s[0]) + Sum(s[1..], w)
  }

  lemma Regroup<T>(a: seq<T>, b: seq<T>, c: seq<T>)
    ensures a + (b + c) == a + b + c
  {
  }

  lemma {:induction false} SumAppend<T>(a: seq<T>, b: seq<T>, w: T -> nat)
    ensures Sum(a + b, w) == Sum(a, w) + Sum(b, w)
  {
    if a == [] {
      assert a + b == b;
    } else {
      SumAppend(a[1..], b, w);
      assert (a + b)[1..] == a[1..] + b;
    }
  }

  lemma SumPush<T>(a: seq<T>, x: T, w: T -> nat)
    ensures Sum(a + [x], w) == Sum(a, w) + w(x)
  {
    SumAppend(a, [x], w);
  }

  /** The sequence without its k-th element. */
  function Without<T>(s: seq<T>, k: nat): seq<T>
    requires k < |s|
  {
    s[..k] + s[k + 1..]
  }

  /** A permutation of a non-empty sequence a holds a[0] somewhere and permutes the rest. */
  lemma Uncons<T>(a: seq<T>, b: seq<T>) returns (k: nat)
    requires multiset(a) == multiset(b) && a != []
    ensures k < |b| && b[k] == a[0] && multiset(a[1..]) == multiset(Without(b, k))
  {
    assert a[0] in multiset(b);
    k :| 0 <= k < |b| && b[k] == a[0];
    RestOf(a);
    WithoutRest(b, k);
    Cancel(a[0], multiset(a[1..]), multiset(Without(b, k)));
  }

  lemma Cancel<T>(x: T, m: multiset<T>, n: multiset<T>)
    requires multiset{x} + m == multiset{x} + n
    ensures m == n
  {
    assert multiset{x} + m - multiset{x} == m;
    assert multiset{x} + n - multiset{x} == n;
  }

  lemma RestOf<T>(a: seq<T>)
    requires a != []
    ensures multiset(a) == multiset{a[0]} + multiset(a[1..])
  {
    assert a == [a[0]] + a[1..];
  }

  lemma WithoutRest<T>(b: seq<T>, k: nat)
    requires k < |b|
    ensures multiset(b) == multiset{b[k]} + multiset(Without(b, k))
  {
    assert b == b[..k] + [b[k]] + b[k + 1..];
  }

  lemma SumWithout<T>(s: seq<T>, k: nat, w: T -> nat)
    requires k < |s|
    ensures Sum(s, w) == w(s[k]) + Sum(Without(s, k), w)
  {
    assert s == s[..k] + s[k..];
    SumAppend(s[..k], s[k..], w);
    SumAppend(s[..k], s[k + 1..], w);
  }

  /** A sum does not depend on the order of what is summed. */
  lemma {:induction false} SumPermuted<T>(a: seq<T>, b: seq<T>, w: T -> nat)
    requires multiset(a) == multiset(b)
    ensures Sum(a, w) == Sum(b, w)
  {
    if a == [] {
      assert |multiset(b)| == 0;
    } else {
      var k := Uncons(a, b);
      SumPermuted(a[1..], Without(b, k), w);
      SumWithout(b, k, w);
    }
  }

  /** The elements that satisfy p, in their original order. */
  function Filter<T>(s: seq<T>, p: T -> bool): seq<T> {
    if s == [] then []
    else (if p(s[0]) then [s[0]] else []) + Filter(s[1..], p)
  }

  lemma {:induction false} FilterAppend<T>(a: seq<T>, b: seq<T>, p: T -> bool)
    ensures Filter(a + b, p) == Filter(a, p) + Filter(b, p)
  {
    if a == [] {
      assert a + b == b;
    } else {
      FilterAppend(a[1..], b, p);
      assert (a + b)[0] == a[0] && (a + b)[1..] == a[1..] + b;
      var head := if p(a[0]) then [a[0]] else [];
      assert head + (Filter(a[1..], p) + Filter(b, p)) == head + Filter(a[1..], p) + Filter(b, p);
    }
  }

  lemma FilterPush<T>(a: seq<T>, x: T, p: T -> bool)
    ensures Filter(a + [x], p) == Filter(a, p) + (if p(x) then [x] else [])
  {
    FilterAppend(a, [x], p);
    assert Filter([x], p) == if p(x) then [x] else [];
  }

  lemma {:induction false} FilterMembers<T>(s: seq<T>, p: T -> bool)
    ensures |Filter(s, p)| <= |s|
    ensures forall x :: x in Filter(s, p) <==> x in s && p(x)
  {
    if s != [] {
      FilterMembers(s[1..], p);
      assert s == [s[0]] + s[1..];
    }
  }

  lemma {:induction false} FilterAll<T>(s: seq<T>, p: T -> bool)
    requires forall x :: x in s ==> p(x)
    ensures Filter(s, p) == s
  {
    if s != [] {
      FilterAll(s[1..], p);
    }
  }

  /** Only the tests on the elements matter. */
  lemma {:induction false} FilterAlike<T>(s: seq<T>, p: T -> bool, q: T -> bool)
    requires forall x :: x in s ==> p(x) == q(x)
    ensures Filter(s, p) == Filter(s, q)
  {
    if s != [] {
      FilterAlike(s[1..], p, q);
    }
  }

  lemma {:induction false} FilterNone<T>(s: seq<T>, p: T -> bool)
    requires forall x :: x in s ==> !p(x)
    ensures Filter(s, p) == []
  {
    if s != [] {
      FilterNone(s[1..], p);
    }
  }

  lemma FilterWithout<T>(s: seq<T>, k: nat, p: T -> bool)
    requires k < |s|
    ensures multiset(Filter(s, p))
         == multiset(Filter(Without(s, k), p)) + (if p(s[k]) then multiset{s[k]} else multiset{})
  {
    assert s == s[..k] + s[k..];
    FilterAppend(s[..k], s[k..], p);
    FilterAppend(s[..k], s[k + 1..], p);
  }

  lemma {:induction false} FilterPermuted<T>(a: seq<T>, b: seq<T>, p: T -> bool)
    requires multiset(a) == multiset(b)
    ensures multiset(Filter(a, p)) == multiset(Filter(b, p))
  {
    if a == [] {
      assert |multiset(b)| == 0;
    } else {
      var k := Uncons(a, b);
      FilterPermuted(a[1..], Without(b, k), p);
      FilterWithout(b, k, p);
    }
  }

  /** Two disjoint filters split the sum of their union. */
  lemma {:induction false} SumUnion<T>(s: seq<T>, p: T -> bool, q: T -> bool, u: T -> bool, w: T -> nat)
    requires forall x :: x in s ==> u(x) == (p(x) || q(x)) && !(p(x) && q(x))
    ensures Sum(Filter(s, p), w) + Sum(Filter(s, q), w) == Sum(Filter(s, u), w)
  {
    if s != [] {
      SumUnion(s[1..], p, q, u, w);
      SumAppend(if p(s[0]) then [s[0]] else [], Filter(s[1..], p), w);
      SumAppend(if q(s[0]) then [s[0]] else [], Filter(s[1..], q), w);
      SumAppend(if u(s[0]) then [s[0]] else [], Filter(s[1..], u), w);
    }
  }

  /** An order in which any two elements compare, possibly with ties. */
  ghost predicate TotalPreorder<T(!new)>(leq: (T, T) -> bool) {
    && (forall x, y :: leq(x, y) || leq(y, x))
    && (forall x, y, z :: leq(x, y) && leq(y, z) ==> leq(x, z))
  }

  ghost predicate Sorted<T>(s: seq<T>, leq: (T, T) -> bool) {
    forall i, j :: 0 <= i < j < |s| ==> leq(s[i], s[j])
  }

  function Insert<T>(x: T, s: seq<T>, leq: (T, T) -> bool): seq<T> {
    if s == [] || leq(x, s[0]) then [x] + s
    else [s[0]] + Insert(x, s[1..], leq)
  }

  /** The library's stable sort: the lemmas below say it is sorted, a permutation, and keeps
      ties in their original order, and one sequence only has these three properties. */
  function SortBy<T>(s: seq<T>, leq: (T, T) -> bool): seq<T> {
    if s == [] then [] else Insert(s[0], SortBy(s[1..], leq), leq)
  }

  lemma {:induction false} InsertSorts<T(!new)>(x: T, s: seq<T>, leq: (T, T) -> bool)
    requires TotalPreorder(leq) && Sorted(s, leq)
    ensures Sorted(Insert(x, s, leq), leq)
    ensures multiset(Insert(x, s, leq)) == multiset{x} + multiset(s)
  {
    if s == [] || leq(x, s[0]) {
    } else {
      InsertSorts(x, s[1..], leq);
      var t := Insert(x, s[1..], leq);
      RestOf(s);
      forall y | y in t ensures leq(s[0], y) {
        assert y in multiset(t);
        assert y == x || y in s[1..];
      }
      SortedCons(s[0], t, leq);
    }
  }

  lemma SortedCons<T>(x: T, s: seq<T>, leq: (T, T) -> bool)
    requires Sorted(s, leq) && forall y :: y in s ==> leq(x, y)
    ensures Sorted([x] + s, leq)
  {
  }

  lemma {:induction false} SortBySorts<T(!new)>(s: seq<T>, leq: (T, T) -> bool)
    requires TotalPreorder(leq)
    ensures Sorted(SortBy(s, leq), leq)
    ensures multiset(SortBy(s, leq)) == multiset(s)
    ensures |SortBy(s, leq)| == |s|
  {
    if s != [] {
      SortBySorts(s[1..], leq);
      InsertSorts(s[0], SortBy(s[1..], leq), leq);
      assert s == [s[0]] + s[1..];
    }
    assert |multiset(SortBy(s, leq))| == |multiset(s)|;
  }

  /** Sorting what is already sorted changes nothing, ties included. */
  lemma {:induction false} SortBySorted<T>(s: seq<T>, leq: (T, T) -> bool)
    requires Sorted(s, leq)
    ensures SortBy(s, leq) == s
  {
    if s != [] {
      SortBySorted(s[1..], leq);
    }
  }

  /** The elements that tie with x. */
  function TiesWith<T>(x: T, leq: (T, T) -> bool): T -> bool {
    y => leq(x, y) && leq(y, x)
  }

  lemma {:induction false} InsertStable<T(!new)>(x: T, s: seq<T>, leq: (T, T) -> bool, t: T)
    requires TotalPreorder(leq)
    ensures Filter(Insert(x, s, leq), TiesWith(t, leq))
         == Filter([x], TiesWith(t, leq)) + Filter(s, TiesWith(t, leq))
  {
    var p := TiesWith(t, leq);
    if s == [] || leq(x, s[0]) {
      FilterAppend([x], s, p);
    } else {
      InsertStable(x, s[1..], leq, t);
      FilterAppend([s[0]], Insert(x, s[1..], leq), p);
      FilterAppend([s[0]], s[1..], p);
      assert s == [s[0]] + s[1..];
      assert !(p(x) && p(s[0]));
    }
  }

  /** Ties keep their original order. */
  lemma {:induction false} SortByStable<T(!new)>(s: seq<T>, leq: (T, T) -> bool, t: T)
    requires TotalPreorder(leq)
    ensures Filter(SortBy(s, leq), TiesWith(t, leq)) == Filter(s, TiesWith(t, leq))
  {
    if s != [] {
      SortByStable(s[1..], leq, t);
      InsertStable(s[0], SortBy(s[1..], leq), leq, t);
      FilterAppend([s[0]], s[1..], TiesWith(t, leq));
      assert s == [s[0]] + s[1..];
    }
  }

  lemma TailPermuted<T>(a: seq<T>, b: seq<T>)
    requires multiset(a) == multiset(b)
    requires a != [] && b != [] && a[0] == b[0]
    ensures multiset(a[1..]) == multiset(b[1..])
  {
    assert a == [a[0]] + a[1..] && b == [b[0]] + b[1..];
    assert multiset(a[1..]) == multiset(a) - multiset{a[0]};
    assert multiset(b[1..]) == multiset(b) - multiset{b[0]};
  }

  lemma HeadIsLeast<T>(s: seq<T>, leq: (T, T) -> bool, x: T)
    requires Sorted(s, leq) && x in s
    ensures x == s[0] || leq(s[0], x)
  {
  }

  /** Where equal rank means equal, the sorted order of given elements is unique. */
  lemma {:induction false} SortedUnique<T(!new)>(a: seq<T>, b: seq<T>, leq: (T, T) -> bool)
    requires multiset(a) == multiset(b)
    requires Sorted(a, leq) && Sorted(b, leq)
    requires forall x, y :: x in a && y in a && leq(x, y) && leq(y, x) ==> x == y
    ensures a == b
  {
    if a == [] {
      assert |multiset(b)| == 0;
    } else {
      assert a[0] in multiset(a) && |multiset(b)| > 0;
      assert a[0] in b && b[0] in multiset(b) && b[0] in a;
      HeadIsLeast(a, leq, b[0]);
      HeadIsLeast(b, leq, a[0]);
      TailPermuted(a, b);
      SortedUnique(a[1..], b[1..], leq);
    }
  }

  /** Sorting keeps exactly the same elements. */
  lemma SortByMembers<T(!new)>(s: seq<T>, leq: (T, T) -> bool)
    requires TotalPreorder(leq)
    ensures forall x :: x in SortBy(s, leq) <==> x in s
  {
    SortBySorts(s, leq);
    assert forall x :: x in SortBy(s, leq) <==> x in multiset(SortBy(s, leq));
    assert forall x :: x in s <==> x in multiset(s);
  }
}
