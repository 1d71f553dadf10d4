/** The K nearest identifiers of a set, and when a list of the nearest heard is them. */
module NearestNodes {
  import opened NodeIds
  import opened Contacts
  import opened Ranking
  import opened RoutingTables
  import opened TableRuns
  import opened NodeLookup
  import opened LookupAnswers
  import opened LookupProperties

  /** Numeric distance of an identifier to a target. */
  function Far(id: NodeId, target: NodeId): nat {
    IdValue(Distance(id, target))
  }

  /** The identifiers of a set that are nearer the target than `v`. */
  function Nearer(ids: set<NodeId>, v: nat, target: NodeId): set<NodeId> {
    set x | x in ids && Far(x, target) < v
  }

  /** The K nearest identifiers of a set: those with fewer than K nearer ones. */
  function Nearest(ids: set<NodeId>, target: NodeId): set<NodeId> {
    set m | m in ids && |Nearer(ids, Far(m, target), target)| < K
  }

  lemma {:induction false} SubsetSize<T>(a: set<T>, b: set<T>)
    requires a <= b
    ensures |a| <= |b|
  {
    var rest := b - a;
    assert b == a + rest;
  }

  lemma FarInjective(x: NodeId, y: NodeId, target: NodeId)
    requires Far(x, target) == Far(y, target)
    ensures x == y
  {
    hide IdValue, Distance;
    DistanceInjective(x, y, target);
  }

  lemma NearerGrows(x: NodeId, ids: set<NodeId>, v: nat, target: NodeId)
    requires x !in ids
    ensures |Nearer({x} + ids, v, target)| == |Nearer(ids, v, target)| + if Far(x, target) < v then 1 else 0
  {
    hide Far;
    assert Nearer({x} + ids, v, target) == Nearer(ids, v, target) + if Far(x, target) < v then {x} else {};
  }

  lemma {:induction false} CountIsNearer(s: seq<Contact>, v: nat, target: NodeId)
    requires DistinctIds(s)
    ensures CountBelow(s, v, RankTo(target)) == |Nearer(IdsOf(s), v, target)|
  {
    hide IdValue, Distance, Nearer, IdsOf;
    if s == [] {
      NoneNearer(v, target);
    } else {
      CountIsNearer(s[1..], v, target);
      assert s == [s[0]] + s[1..];
      IdsOfConcat([s[0]], s[1..]);
      IdsOfOne(s[0]);
      FirstNotRepeated(s);
      NearerGrows(s[0].id, IdsOf(s[1..]), v, target);
    }
  }

  lemma NoneNearer(v: nat, target: NodeId)
    ensures Nearer(IdsOf([]), v, target) == {}
  {
  }

  lemma FirstNotRepeated(s: seq<Contact>)
    requires s != [] && DistinctIds(s)
    ensures s[0].id !in IdsOf(s[1..])
  {
  }

  /** An identifier is kept among the K nearest heard exactly when it was heard and
      fewer than K heard ones are nearer. */
  lemma KeptNearest(heard: seq<Contact>, target: NodeId)
    requires DistinctIds(heard)
    ensures IdsOf(TopK(heard, K, RankTo(target))) == Nearest(IdsOf(heard), target)
  {
    hide IdValue, Distance, TopK, CountBelow;
    var rank, top := RankTo(target), TopK(heard, K, RankTo(target));
    TopKPart(heard, K, rank);
    forall c | c in heard
      ensures c.id in IdsOf(top) <==> c.id in Nearest(IdsOf(heard), target)
    {
      KeptExactly(heard, K, rank(c), rank);
      CountIsNearer(heard, rank(c), target);
      assert HasRank(heard, rank(c), rank);
      if d :| d in top && rank(d) == rank(c) {
        RankInjective(target, c, d);
      }
      if d :| d in top && d.id == c.id {
        SameIdSameRank(target, c, d);
      }
    }
    forall d | d in top
      ensures d in heard
    {
      assert d in multiset(top);
    }
  }

  /** From a reachable table without duplicates, when every call succeeds, a lookup
      returns exactly the K nearest of all ids known at the start or named by anyone
      asked, the local one apart. */
  lemma FindNodeNearest(t: Table, target: NodeId, order: seq<nat>, answers: Answers)
    requires TableOk(t) && DistinctBuckets(t) && IsOrder(order, t)
    requires forall r: nat, i: nat, q :: answers(r, i, q).Ok?
    ensures var snapshot := ClosestTo(t, target, K, order);
            var start := Start(t.localId, snapshot);
            Sorted(snapshot, RankTo(target)) &&
            var s, named := Rounds(start, 0, target, answers).0, Named(start, 0, target, answers);
            && DistinctIds(s.closest) && Sorted(s.closest, RankTo(target))
            && IdsOf(s.closest) == Nearest(IdsOf(snapshot) + IdsOf(named) - {t.localId}, target)
  {
    hide RankTo, TableOk, TopK, Sourced, ClosestTo, IsNearest, Rounds, Named, Fresh, IdsOf, DistinctBuckets;
    hide DistinctIds, Nearest;
    FindNodeExact(t, target, order, answers);
    FindNodeResult(t, target, order, answers);
    SnapshotOk(t, target, order, answers);
    SnapshotDistinct(t, target, order);
    var snapshot := ClosestTo(t, target, K, order);
    var start := Start(t.localId, snapshot);
    var named, seen := Named(start, 0, target, answers), {t.localId} + IdsOf(snapshot);
    var s := Rounds(start, 0, target, answers).0;
    FreshAreNew(seen, named);
    IdsOfConcat(snapshot, Fresh(seen, named));
    assert IdsOf(s.heard) == IdsOf(snapshot) + IdsOf(named) - {t.localId};
    KeptNearest(s.heard, target);
  }

  lemma Farthest(ids: set<NodeId>, target: NodeId) returns (w: NodeId)
    requires ids != {}
    ensures w in ids && forall x :: x in ids ==> Far(x, target) <= Far(w, target)
    decreases |ids|
  {
    hide Far;
    w :| w in ids;
    var rest := ids - {w};
    if rest != {} {
      var u := Farthest(rest, target);
      if Far(w, target) < Far(u, target) {
        w := u;
      }
    }
  }

  /** A set of at least K identifiers has at least K nearest ones. */
  lemma {:induction false} EnoughNearest(ids: set<NodeId>, target: NodeId)
    requires |ids| >= K
    ensures |Nearest(ids, target)| >= K
    decreases |ids|
  {
    hide Far;
    if |ids| == K {
      forall m | m in ids
        ensures |Nearer(ids, Far(m, target), target)| < K
      {
        SubsetSize(Nearer(ids, Far(m, target), target), ids - {m});
      }
      assert Nearest(ids, target) == ids;
    } else {
      var w := Farthest(ids, target);
      var rest := ids - {w};
      EnoughNearest(rest, target);
      forall m | m in Nearest(rest, target)
        ensures m in Nearest(ids, target)
      {
        assert Nearer(ids, Far(m, target), target) == Nearer(rest, Far(m, target), target);
      }
      SubsetSize(Nearest(rest, target), Nearest(ids, target));
    }
  }

  /** The nearest of what was heard are the nearest of all exactly when all of those
      were heard. */
  lemma NearestHeardExactly(heard: set<NodeId>, all: set<NodeId>, target: NodeId)
    requires heard <= all
    ensures Nearest(heard, target) == Nearest(all, target) <==> Nearest(all, target) <= heard
  {
    hide Far;
    if Nearest(all, target) <= heard {
      forall m | m in Nearest(all, target)
        ensures m in Nearest(heard, target)
      {
        SubsetSize(Nearer(heard, Far(m, target), target), Nearer(all, Far(m, target), target));
      }
      forall m | m in Nearest(heard, target)
        ensures m in Nearest(all, target)
      {
        var nearer := Nearer(all, Far(m, target), target);
        if |nearer| >= K {
          EnoughNearest(nearer, target);
          NearestOfNearer(all, Far(m, target), target);
          SubsetSize(Nearest(nearer, target), Nearer(heard, Far(m, target), target));
        }
      }
    }
  }

  lemma NearestOfNearer(all: set<NodeId>, v: nat, target: NodeId)
    ensures Nearest(Nearer(all, v, target), target) <= Nearest(all, target)
  {
    hide Far;
    var nearer := Nearer(all, v, target);
    forall x | x in Nearest(nearer, target)
      ensures x in Nearest(all, target)
    {
      assert Nearer(all, Far(x, target), target) == Nearer(nearer, Far(x, target), target);
    }
  }
}
