/** General sequence helpers shared by the store and the bot: an optional
    value, row filtering (a SQL WHERE clause), real-valued sums (SQL SUM and
    Python's sum) and a stable insertion sort (ORDER BY ... DESC and Python's
    sorted(..., reverse=True)). */
module Util {

  datatype Option<T> = None | Some(value: T)

  /** The elements of `s` that `keep` accepts, in their original order. */
  function Filter<T(!new)>(s: seq<T>, keep: T -> bool): (r: seq<T>)
    ensures |r| <= |s|
    ensures forall x :: multiset(r)[x] == if keep(x) then multiset(s)[x] else 0
  {
    if s == [] then []
    else
      assert s == [s[0]] + s[1..];
      (if keep(s[0]) then [s[0]] else []) + Filter(s[1..], keep)
  }

  /** The first element of `s` that `accept` accepts (SQL `fetchone()` on an unordered query). */
  function First<T(!new)>(s: seq<T>, accept: T -> bool): (r: Option<T>)
    ensures r.None? <==> forall x :: x in s ==> !accept(x)
    ensures r.Some? ==> exists i :: 0 <= i < |s| && s[i] == r.value && accept(r.value)
                           && forall j :: 0 <= j < i ==> !accept(s[j])
  {
    if s == [] then None
    else if accept(s[0]) then Some(s[0])
    else
      var r := First(s[1..], accept);
      assert r.Some? ==> exists i :: 0 <= i < |s| && s[i] == r.value && accept(r.value)
                            && forall j :: 0 <= j < i ==> !accept(s[j]) by {
        if r.Some? {
          var i :| 0 <= i < |s[1..]| && s[1..][i] == r.value && accept(r.value)
                   && forall j :: 0 <= j < i ==> !accept(s[1..][j]);
          assert s[i + 1] == r.value;
          forall j | 0 <= j < i + 1 ensures !accept(s[j]) {
            if j > 0 { assert s[j] == s[1..][j - 1]; }
          }
        }
      }
      r
  }

  /** An element survives a filter exactly when it is there and accepted. */
  lemma FilterMember<T(!new)>(s: seq<T>, keep: T -> bool, x: T)
    ensures x in Filter(s, keep) <==> x in s && keep(x)
  {
    assert x in Filter(s, keep) <==> x in multiset(Filter(s, keep));
    assert x in s <==> x in multiset(s);
  }

  /** A filter keeps the order of what it keeps: a relation that holds between
      every earlier and later element still holds afterwards. */
  lemma {:induction false} FilterPairwise<T(!new)>(s: seq<T>, keep: T -> bool, rel: (T, T) -> bool)
    requires forall i, j :: 0 <= i < j < |s| ==> rel(s[i], s[j])
    ensures forall i, j :: 0 <= i < j < |Filter(s, keep)| ==> rel(Filter(s, keep)[i], Filter(s, keep)[j])
  {
    if s != [] {
      var tail := Filter(s[1..], keep);
      FilterPairwise(s[1..], keep, rel);
      if keep(s[0]) {
        var r := [s[0]] + tail;
        forall i, j | 0 <= i < j < |r| ensures rel(r[i], r[j]) {
          if i == 0 {
            assert r[j] in tail;
            HeadBeforeRest(s, keep, rel, r[j]);
          } else {
            assert r[i] == tail[i - 1] && r[j] == tail[j - 1];
          }
        }
      }
    }
  }

  /** The head of `s` is related to everything a filter keeps of the rest. */
  lemma HeadBeforeRest<T(!new)>(s: seq<T>, keep: T -> bool, rel: (T, T) -> bool, y: T)
    requires forall i, j :: 0 <= i < j < |s| ==> rel(s[i], s[j])
    requires s != [] && y in Filter(s[1..], keep)
    ensures rel(s[0], y)
  {
    FilterMember(s[1..], keep, y);
    var k :| 0 <= k < |s[1..]| && s[1..][k] == y;
    assert s[k + 1] == y;
  }

  /** Two complementary filters split a sequence: what one keeps, the other drops. */
  lemma {:induction false} FilterComplement<T(!new)>(s: seq<T>, keep: T -> bool, drop: T -> bool)
    requires forall x :: drop(x) == !keep(x)
    ensures |Filter(s, keep)| + |Filter(s, drop)| == |s|
  {
    if s != [] {
      FilterComplement(s[1..], keep, drop);
    }
  }

  /** Sum of a sequence of reals, adding from the left. */
  function Sum(xs: seq<real>): real
  {
    if xs == [] then 0.0 else Sum(xs[..|xs| - 1]) + xs[|xs| - 1]
  }

  lemma SumAppend(xs: seq<real>, x: real)
    ensures Sum(xs + [x]) == Sum(xs) + x
  {
    assert (xs + [x])[..|xs|] == xs;
  }

  function Min(a: int, b: int): int
  {
    if a <= b then a else b
  }

  /** The first `n` elements of `s`, or all of it when it is shorter (Python's s[:n]). */
  function Take<T>(s: seq<T>, n: nat): (r: seq<T>)
    ensures |r| == Min(n, |s|)
    ensures forall i :: 0 <= i < |r| ==> r[i] == s[i]
  {
    s[..Min(n, |s|)]
  }

  /** What a prefix holds, the whole sequence holds. */
  lemma TakeMember<T>(s: seq<T>, n: nat, x: T)
    requires x in Take(s, n)
    ensures x in multiset(s)
  {
    var k :| 0 <= k < |Take(s, n)| && Take(s, n)[k] == x;
    assert s[k] == x;
  }

  /** `ge(a, b)` means that `a` may come before `b`: a total preorder. */
  ghost predicate TotalPreorder<T(!new)>(ge: (T, T) -> bool)
  {
    && (forall a, b :: ge(a, b) || ge(b, a))
    && (forall a, b, c :: ge(a, b) && ge(b, c) ==> ge(a, c))
  }

  ghost predicate Sorted<T>(s: seq<T>, ge: (T, T) -> bool)
  {
    forall i, j :: 0 <= i < j < |s| ==> ge(s[i], s[j])
  }

  /** Places `x` before the first element it may precede. */
  function Insert<T>(x: T, s: seq<T>, ge: (T, T) -> bool): (r: seq<T>)
    ensures multiset(r) == multiset(s) + multiset{x}
  {
    if s == [] then [x]
    else if ge(x, s[0]) then [x] + s
    else
      assert s == [s[0]] + s[1..];
      [s[0]] + Insert(x, s[1..], ge)
  }

  ghost predicate DistinctBy<T, K>(s: seq<T>, key: T -> K)
  {
    forall i, j :: 0 <= i < j < |s| ==> key(s[i]) != key(s[j])
  }

  /** Stable insertion sort: among elements that `ge` ranks alike, the earlier stays first. */
  function Sort<T(!new)>(s: seq<T>, ge: (T, T) -> bool): (r: seq<T>)
    ensures multiset(r) == multiset(s)
    ensures |r| == |s|
  {
    if s == [] then []
    else
      assert s == [s[0]] + s[1..];
      Insert(s[0], Sort(s[1..], ge), ge)
  }

  /** Sorting neither adds nor drops an element. */
  lemma SortMember<T(!new)>(s: seq<T>, ge: (T, T) -> bool, x: T)
    ensures x in Sort(s, ge) <==> x in s
  {
    assert x in Sort(s, ge) <==> x in multiset(Sort(s, ge));
    assert x in s <==> x in multiset(s);
  }

  lemma {:induction false} InsertSorted<T(!new)>(x: T, s: seq<T>, ge: (T, T) -> bool)
    requires TotalPreorder(ge)
    requires Sorted(s, ge)
    ensures Sorted(Insert(x, s, ge), ge)
  {
    if s != [] && !ge(x, s[0]) {
      var tail := Insert(x, s[1..], ge);
      InsertSorted(x, s[1..], ge);
      assert ge(s[0], x);
      InsertBelowHead(x, s, ge, tail);
      ConsSorted(s[0], tail, ge);
    }
  }

  /** An element that may precede everything in a sorted sequence can go in front of it. */
  lemma ConsSorted<T>(h: T, tail: seq<T>, ge: (T, T) -> bool)
    requires Sorted(tail, ge)
    requires forall y :: y in tail ==> ge(h, y)
    ensures Sorted([h] + tail, ge)
  {
    var r := [h] + tail;
    forall i, j | 0 <= i < j < |r|
      ensures ge(r[i], r[j])
    {
      if i == 0 {
        assert r[j] in tail;
      } else {
        assert r[i] == tail[i - 1] && r[j] == tail[j - 1];
      }
    }
  }

  /** In a sorted sequence, the head may precede everything that follows it,
      and so everything once an element it may precede is inserted. */
  lemma InsertBelowHead<T(!new)>(x: T, s: seq<T>, ge: (T, T) -> bool, tail: seq<T>)
    requires Sorted(s, ge)
    requires s != [] && ge(s[0], x)
    requires tail == Insert(x, s[1..], ge)
    ensures forall y :: y in tail ==> ge(s[0], y)
  {
    forall y | y in tail
      ensures ge(s[0], y)
    {
      assert y in multiset(s[1..]) + multiset{x};
      if y != x {
        var k :| 0 <= k < |s[1..]| && s[1..][k] == y;
        assert s[k + 1] == y;
      }
    }
  }

  lemma {:induction false} InsertDistinct<T(!new), K>(x: T, s: seq<T>, key: T -> K, ge: (T, T) -> bool)
    requires DistinctBy(s, key)
    requires forall y :: y in s ==> key(y) != key(x)
    ensures DistinctBy(Insert(x, s, ge), key)
  {
    if s != [] && !ge(x, s[0]) {
      var tail := Insert(x, s[1..], ge);
      InsertDistinct(x, s[1..], key, ge);
      var r := [s[0]] + tail;
      forall i, j | 0 <= i < j < |r|
        ensures key(r[i]) != key(r[j])
      {
        if i == 0 {
          assert r[j] in multiset(s[1..]) + multiset{x};
          if r[j] != x {
            var k :| 0 <= k < |s[1..]| && s[1..][k] == r[j];
            assert s[k + 1] == r[j];
          }
        } else {
          assert r[i] == tail[i - 1] && r[j] == tail[j - 1];
        }
      }
    }
  }

  /** Sorting keeps a sequence free of repeated keys. */
  lemma {:induction false} SortDistinct<T(!new), K>(s: seq<T>, key: T -> K, ge: (T, T) -> bool)
    requires DistinctBy(s, key)
    ensures DistinctBy(Sort(s, ge), key)
  {
    if s != [] {
      SortDistinct(s[1..], key, ge);
      forall y | y in Sort(s[1..], ge)
        ensures key(y) != key(s[0])
      {
        assert y in multiset(s[1..]);
        var k :| 0 <= k < |s[1..]| && s[1..][k] == y;
        assert s[k + 1] == y;
      }
      InsertDistinct(s[0], Sort(s[1..], ge), key, ge);
    }
  }

  lemma {:induction false} SortSorted<T(!new)>(s: seq<T>, ge: (T, T) -> bool)
    requires TotalPreorder(ge)
    ensures Sorted(Sort(s, ge), ge)
  {
    if s != [] {
      SortSorted(s[1..], ge);
      InsertSorted(s[0], Sort(s[1..], ge), ge);
    }
  }
}
