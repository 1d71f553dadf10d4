/** Stable sorting by a rank, and the k lowest-ranked elements of a list. */
module Ranking {

  predicate Sorted<T>(s: seq<T>, rank: T -> nat) {
    forall i, j :: 0 <= i < j < |s| ==> rank(s[i]) <= rank(s[j])
  }

  /** Puts `x` behind every element whose rank is not greater. */
  function Insert<T>(s: seq<T>, x: T, rank: T -> nat): (r: seq<T>)
    ensures |r| == |s| + 1
  {
    if s == [] then [x]
    else if rank(x) < rank(s[0]) then [x] + s
    else [s[0]] + Insert(s[1..], x, rank)
  }

  /** The stable sort of `xs`. */
  function SortBy<T>(xs: seq<T>, rank: T -> nat): (r: seq<T>)
    ensures |r| == |xs|
  {
    if xs == [] then []
    else Insert(SortBy(xs[..|xs| - 1], rank), xs[|xs| - 1], rank)
  }

  function Take<T>(s: seq<T>, k: nat): (r: seq<T>)
    ensures |r| == if |s| <= k then |s| else k
  {
    if |s| <= k then s else s[..k]
  }

  function TopK<T>(xs: seq<T>, k: nat, rank: T -> nat): seq<T> {
    Take(SortBy(xs, rank), k)
  }

  /** The elements of rank `v`, in order. */
  function WithRank<T>(s: seq<T>, v: nat, rank: T -> nat): seq<T> {
    if s == [] then []
    else (if rank(s[0]) == v then [s[0]] else []) + WithRank(s[1..], v, rank)
  }

  lemma {:induction false} InsertMultiset<T>(s: seq<T>, x: T, rank: T -> nat)
    ensures multiset(Insert(s, x, rank)) == multiset(s) + multiset{x}
  {
    if s != [] {
      InsertMultiset(s[1..], x, rank);
      assert s == [s[0]] + s[1..];
    }
  }

  lemma {:induction false} SortMultiset<T>(xs: seq<T>, rank: T -> nat)
    ensures multiset(SortBy(xs, rank)) == multiset(xs)
  {
    hide Insert;
    if xs != [] {
      var ys, x := xs[..|xs| - 1], xs[|xs| - 1];
      SortMultiset(ys, rank);
      InsertMultiset(SortBy(ys, rank), x, rank);
      assert multiset(xs) == multiset(ys) + multiset{x} by {
        assert xs == ys + [x];
      }
    }
  }

  lemma {:induction false} InsertSorted<T>(s: seq<T>, x: T, rank: T -> nat)
    requires Sorted(s, rank)
    ensures Sorted(Insert(s, x, rank), rank)
  {
    if s != [] && rank(s[0]) <= rank(x) {
      InsertSorted(s[1..], x, rank);
      InsertMultiset(s[1..], x, rank);
      var t := Insert(s[1..], x, rank);
      forall j | 0 <= j < |t|
        ensures rank(s[0]) <= rank(t[j])
      {
        assert t[j] in multiset(t);
        assert t[j] == x || t[j] in s[1..];
      }
    }
  }

  lemma {:induction false} SortSorted<T>(xs: seq<T>, rank: T -> nat)
    ensures Sorted(SortBy(xs, rank), rank)
  {
    if xs != [] {
      SortSorted(xs[..|xs| - 1], rank);
      InsertSorted(SortBy(xs[..|xs| - 1], rank), xs[|xs| - 1], rank);
    }
  }

  lemma {:induction false} InsertLast<T>(s: seq<T>, x: T, rank: T -> nat)
    requires forall i :: 0 <= i < |s| ==> rank(s[i]) <= rank(x)
    ensures Insert(s, x, rank) == s + [x]
  {
    if s != [] {
      InsertLast(s[1..], x, rank);
    }
  }

  lemma SortSnoc<T>(xs: seq<T>, y: T, rank: T -> nat)
    ensures SortBy(xs + [y], rank) == Insert(SortBy(xs, rank), y, rank)
  {
    assert (xs + [y])[..|xs|] == xs;
  }

  lemma {:induction false} SortOfSorted<T>(s: seq<T>, rank: T -> nat)
    requires Sorted(s, rank)
    ensures SortBy(s, rank) == s
  {
    if s != [] {
      SortOfSorted(s[..|s| - 1], rank);
      InsertLast(s[..|s| - 1], s[|s| - 1], rank);
    }
  }

  /** What was cut off behind position k never matters to the first k. */
  lemma {:induction false} InsertTake<T>(s: seq<T>, x: T, k: nat, rank: T -> nat)
    ensures Take(Insert(s, x, rank), k) == Take(Insert(Take(s, k), x, rank), k)
  {
    if |s| > k > 0 {
      var t := Take(s, k);
      assert t[0] == s[0] && t[1..] == Take(s[1..], k - 1);
      if rank(x) < rank(s[0]) {
        assert Take([x] + s, k) == Take([x] + t, k);
      } else {
        InsertTake(s[1..], x, k - 1, rank);
        TakeCons(s[0], Insert(s[1..], x, rank), k);
        TakeCons(s[0], Insert(t[1..], x, rank), k);
      }
    }
  }

  lemma TakeCons<T>(x: T, s: seq<T>, k: nat)
    requires k > 0
    ensures Take([x] + s, k) == [x] + Take(s, k - 1)
  {
  }

  /** Keeping only the k best and adding more is the same as adding first. */
  lemma {:induction false} TopKIncremental<T>(xs: seq<T>, ys: seq<T>, k: nat, rank: T -> nat)
    ensures TopK(TopK(xs, k, rank) + ys, k, rank) == TopK(xs + ys, k, rank)
  {
    var top := TopK(xs, k, rank);
    if ys == [] {
      SortSorted(xs, rank);
      SortOfSorted(top, rank);
      assert top + ys == top && xs + ys == xs;
    } else {
      var zs, y := ys[..|ys| - 1], ys[|ys| - 1];
      TopKIncremental(xs, zs, k, rank);
      assert top + ys == (top + zs) + [y] && xs + ys == (xs + zs) + [y];
      SortSnoc(top + zs, y, rank);
      SortSnoc(xs + zs, y, rank);
      InsertTake(SortBy(top + zs, rank), y, k, rank);
      InsertTake(SortBy(xs + zs, rank), y, k, rank);
    }
  }

  /** `r` lists, in order, the `k` elements of `xs` nobody left out outranks. */
  ghost predicate IsNearest<T>(r: seq<T>, xs: seq<T>, k: nat, rank: T -> nat) {
    && Sorted(r, rank)
    && |r| == (if |xs| <= k then |xs| else k)
    && multiset(r) <= multiset(xs)
    && forall a, b :: a in multiset(r) && b in multiset(xs) - multiset(r) ==> rank(a) <= rank(b)
  }

  lemma TopKPart<T>(xs: seq<T>, k: nat, rank: T -> nat)
    ensures Sorted(TopK(xs, k, rank), rank) && |TopK(xs, k, rank)| <= k
    ensures multiset(TopK(xs, k, rank)) <= multiset(xs)
  {
    SortSorted(xs, rank);
    SortMultiset(xs, rank);
    hide SortBy;
    SplitMultiset(SortBy(xs, rank), |TopK(xs, k, rank)|);
  }

  lemma TopKIsNearest<T>(xs: seq<T>, k: nat, rank: T -> nat)
    ensures IsNearest(TopK(xs, k, rank), xs, k, rank)
  {
    SortSorted(xs, rank);
    SortMultiset(xs, rank);
    SplitIsNearest(SortBy(xs, rank), xs, |TopK(xs, k, rank)|, k, rank);
  }

  lemma SplitIsNearest<T>(s: seq<T>, xs: seq<T>, n: nat, k: nat, rank: T -> nat)
    requires Sorted(s, rank) && multiset(s) == multiset(xs) && n <= |s|
    requires n == if |xs| <= k then |xs| else k
    ensures IsNearest(s[..n], xs, k, rank)
  {
    var r, rest := s[..n], s[n..];
    SplitMultiset(s, n);
    forall a, b | a in multiset(r) && b in multiset(xs) - multiset(r)
      ensures rank(a) <= rank(b)
    {
      var i :| 0 <= i < n && s[i] == a;
      assert b in rest;
      var j :| n <= j < |s| && s[j] == b;
    }
  }

  lemma SplitMultiset<T>(s: seq<T>, n: nat)
    requires n <= |s|
    ensures multiset(s[..n]) <= multiset(s) && multiset(s) - multiset(s[..n]) == multiset(s[n..])
  {
    assert s == s[..n] + s[n..];
  }

  // ----- who is kept, by counting -----

  /** How many elements rank below `v`. */
  function CountBelow<T>(s: seq<T>, v: nat, rank: T -> nat): nat {
    if s == [] then 0 else (if rank(s[0]) < v then 1 else 0) + CountBelow(s[1..], v, rank)
  }

  lemma {:induction false} InsertCount<T>(s: seq<T>, x: T, v: nat, rank: T -> nat)
    ensures CountBelow(Insert(s, x, rank), v, rank) == CountBelow(s, v, rank) + if rank(x) < v then 1 else 0
  {
    if s != [] && rank(s[0]) <= rank(x) {
      InsertCount(s[1..], x, v, rank);
    }
  }

  lemma {:induction false} CountSnoc<T>(s: seq<T>, x: T, v: nat, rank: T -> nat)
    ensures CountBelow(s + [x], v, rank) == CountBelow(s, v, rank) + if rank(x) < v then 1 else 0
  {
    if s != [] {
      CountSnoc(s[1..], x, v, rank);
      assert (s + [x])[1..] == s[1..] + [x];
    }
  }

  lemma {:induction false} SortCount<T>(xs: seq<T>, v: nat, rank: T -> nat)
    ensures CountBelow(SortBy(xs, rank), v, rank) == CountBelow(xs, v, rank)
  {
    if xs != [] {
      var ys, x := xs[..|xs| - 1], xs[|xs| - 1];
      SortCount(ys, v, rank);
      InsertCount(SortBy(ys, rank), x, v, rank);
      CountSnoc(ys, x, v, rank);
      assert xs == ys + [x];
    }
  }

  /** In a sorted list the elements below `v` are the first ones. */
  lemma {:induction false} SortedCount<T>(s: seq<T>, v: nat, rank: T -> nat, p: nat)
    requires Sorted(s, rank) && p < |s|
    ensures rank(s[p]) < v <==> p < CountBelow(s, v, rank)
  {
    if p > 0 {
      SortedCount(s[1..], v, rank, p - 1);
      assert rank(s[0]) <= rank(s[p]);
      if rank(s[0]) >= v {
        NoneBelow(s, v, rank);
      }
    } else if rank(s[0]) >= v {
      NoneBelow(s, v, rank);
    }
  }

  lemma {:induction false} NoneBelow<T>(s: seq<T>, v: nat, rank: T -> nat)
    requires forall i :: 0 <= i < |s| ==> rank(s[i]) >= v
    ensures CountBelow(s, v, rank) == 0
  {
    if s != [] {
      NoneBelow(s[1..], v, rank);
    }
  }

  ghost predicate HasRank<T>(s: seq<T>, v: nat, rank: T -> nat) {
    exists c :: c in s && rank(c) == v
  }

  /** A rank is kept among the first k exactly when it occurs and fewer than k
      elements rank below it. */
  lemma KeptExactly<T>(xs: seq<T>, k: nat, v: nat, rank: T -> nat)
    ensures HasRank(TopK(xs, k, rank), v, rank) <==> HasRank(xs, v, rank) && CountBelow(xs, v, rank) < k
  {
    hide SortBy, CountBelow;
    SortSorted(xs, rank);
    SortMultiset(xs, rank);
    SortCount(xs, v, rank);
    var s, top, n := SortBy(xs, rank), TopK(xs, k, rank), CountBelow(xs, v, rank);
    if c :| c in top && rank(c) == v {
      var p :| 0 <= p < |top| && top[p] == c;
      assert s[p] == c && c in multiset(s);
      SortedCount(s, v, rank, p);
    }
    if c :| c in xs && rank(c) == v && n < k {
      assert c in multiset(s);
      var q :| 0 <= q < |s| && s[q] == c;
      SortedCount(s, v, rank, q);
      SortedCount(s, v, rank, n);
      assert rank(s[n]) <= rank(s[q]);
      assert s[n] == top[n] && top[n] in top;
    }
  }

  // ----- the sort depends only on the order within each rank -----

  lemma {:induction false} NoneWithRank<T>(s: seq<T>, v: nat, rank: T -> nat)
    requires forall i :: 0 <= i < |s| ==> rank(s[i]) != v
    ensures WithRank(s, v, rank) == []
  {
    if s != [] {
      NoneWithRank(s[1..], v, rank);
    }
  }

  lemma WithRankCons<T>(x: T, s: seq<T>, v: nat, rank: T -> nat)
    ensures WithRank([x] + s, v, rank) == (if rank(x) == v then [x] else []) + WithRank(s, v, rank)
  {
    assert ([x] + s)[1..] == s;
  }

  lemma {:induction false} WithRankConcat<T>(s: seq<T>, t: seq<T>, v: nat, rank: T -> nat)
    ensures WithRank(s + t, v, rank) == WithRank(s, v, rank) + WithRank(t, v, rank)
  {
    hide WithRank;
    if s == [] {
      NoneWithRank(s, v, rank);
      assert s + t == t;
    } else {
      WithRankConcat(s[1..], t, v, rank);
      assert s == [s[0]] + s[1..] && s + t == [s[0]] + (s[1..] + t);
      WithRankCons(s[0], s[1..], v, rank);
      WithRankCons(s[0], s[1..] + t, v, rank);
    }
  }

  lemma {:induction false} InsertStable<T>(s: seq<T>, x: T, v: nat, rank: T -> nat)
    requires Sorted(s, rank)
    ensures WithRank(Insert(s, x, rank), v, rank) == WithRank(s, v, rank) + if rank(x) == v then [x] else []
  {
    if s == [] {
      WithRankCons(x, [], v, rank);
    } else if rank(x) < rank(s[0]) {
      WithRankCons(x, s, v, rank);
      if v == rank(x) {
        NoneWithRank(s, v, rank);
      }
    } else {
      InsertStable(s[1..], x, v, rank);
      WithRankCons(s[0], Insert(s[1..], x, rank), v, rank);
    }
  }

  lemma {:induction false} SortStable<T>(xs: seq<T>, v: nat, rank: T -> nat)
    ensures WithRank(SortBy(xs, rank), v, rank) == WithRank(xs, v, rank)
  {
    if xs != [] {
      var ys, x := xs[..|xs| - 1], xs[|xs| - 1];
      SortStable(ys, v, rank);
      SortSorted(ys, rank);
      InsertStable(SortBy(ys, rank), x, v, rank);
      WithRankConcat(ys, [x], v, rank);
      WithRankCons(x, [], v, rank);
      assert xs == ys + [x] && [x] + [] == [x];
    }
  }

  ghost predicate SameByRank<T>(s: seq<T>, t: seq<T>, rank: T -> nat) {
    forall v: nat :: WithRank(s, v, rank) == WithRank(t, v, rank)
  }

  lemma {:induction false} SortedDetermined<T>(s: seq<T>, t: seq<T>, rank: T -> nat)
    requires Sorted(s, rank) && Sorted(t, rank) && SameByRank(s, t, rank)
    ensures s == t
  {
    if s == [] {
      var v := if t == [] then 0 else rank(t[0]);
      assert WithRank(s, v, rank) == WithRank(t, v, rank);
    } else {
      SameHead(s, t, rank);
      forall v: nat
        ensures WithRank(s[1..], v, rank) == WithRank(t[1..], v, rank)
      {
        TailWithRank(s, v, rank);
        TailWithRank(t, v, rank);
        assert WithRank(s, v, rank) == WithRank(t, v, rank);
      }
      SortedDetermined(s[1..], t[1..], rank);
    }
  }

  lemma TailWithRank<T>(s: seq<T>, v: nat, rank: T -> nat)
    requires s != []
    ensures WithRank(s[1..], v, rank) ==
            if rank(s[0]) == v then WithRank(s, v, rank)[1..] else WithRank(s, v, rank)
  {
  }

  lemma SameHead<T>(s: seq<T>, t: seq<T>, rank: T -> nat)
    requires s != [] && Sorted(s, rank) && Sorted(t, rank) && SameByRank(s, t, rank)
    ensures t != [] && s[0] == t[0]
  {
    var v := rank(s[0]);
    assert WithRank(s, v, rank) == WithRank(t, v, rank);
    assert WithRank(s, v, rank)[0] == s[0];
    var w := rank(t[0]);
    assert WithRank(s, w, rank) == WithRank(t, w, rank);
    assert WithRank(t, w, rank)[0] == t[0];
    if w < v {
      NoneWithRank(s, w, rank);
    } else if v < w {
      NoneWithRank(t, v, rank);
    }
  }

  /** Rearranging the input without changing the order within any rank leaves
      the sorted list as it was. */
  lemma SortOrderFree<T>(xs: seq<T>, ys: seq<T>, rank: T -> nat)
    requires SameByRank(xs, ys, rank)
    ensures SortBy(xs, rank) == SortBy(ys, rank)
  {
    SortSorted(xs, rank);
    SortSorted(ys, rank);
    forall v: nat
      ensures WithRank(SortBy(xs, rank), v, rank) == WithRank(SortBy(ys, rank), v, rank)
    {
      SortStable(xs, v, rank);
      SortStable(ys, v, rank);
      assert WithRank(xs, v, rank) == WithRank(ys, v, rank);
    }
    SortedDetermined(SortBy(xs, rank), SortBy(ys, rank), rank);
  }
}
