/** Lookups in a static network of honest nodes. */
module StaticNetworks {
  import opened Wrappers
  import opened NodeIds
  import opened Contacts
  import opened Ranking
  import opened Buckets
  import opened BucketPolicy
  import opened ByteBits
  import opened RoutingTables
  import opened TableRuns
  import opened NodeLookup
  import opened LookupAnswers
  import opened LookupProperties
  import opened NearestNodes

  /** A fixed network of honest nodes other than the local one: each has a
      reachable table of its own, free of duplicates, naming only the network and
      possibly the local node. */
  ghost predicate Network(net: map<NodeId, Table>, local: NodeId) {
    && local !in net
    && forall id :: id in net ==>
         && net[id].localId == id && TableOk(net[id]) && DistinctBuckets(net[id])
         && forall i, c :: i in net[id].buckets && c in net[id].buckets[i].nodes ==> c.id == local || c.id in net
  }

  /** For every other node of the network a table knows some node, not the local
      one, in the bucket that node falls into. */
  ghost predicate Covers(t: Table, net: map<NodeId, Table>, local: NodeId) {
    forall m :: m in net && m != t.localId ==> KnowsBucketOf(t, m, local)
  }

  ghost predicate KnowsBucketOf(t: Table, m: NodeId, local: NodeId) {
    && BucketIndex(t.localId, m).Some?
    && BucketIndex(t.localId, m).value in t.buckets
    && exists c :: c in t.buckets[BucketIndex(t.localId, m).value].nodes && c.id != local
  }

  /** An honest answer to FIND_NODE: the K nearest contacts of the table. */
  ghost predicate HonestReply(t: Table, target: NodeId, reply: Reply) {
    exists order :: IsOrder(order, t) && reply == Ok(ClosestTo(t, target, K, order))
  }

  ghost predicate HonestAnswers(answers: Answers, net: map<NodeId, Table>, target: NodeId) {
    forall r: nat, i: nat, q: Contact :: q.id in net ==> HonestReply(net[q.id], target, answers(r, i, q))
  }

  lemma HeadRanksLowest(xs: seq<Contact>, k: nat, rank: Contact -> nat, x: Contact)
    requires k > 0 && x in xs
    ensures TopK(xs, k, rank) != [] && rank(TopK(xs, k, rank)[0]) <= rank(x)
  {
    SortSorted(xs, rank);
    SortMultiset(xs, rank);
    var s := SortBy(xs, rank);
    assert x in multiset(s);
    var i :| 0 <= i < |s| && s[i] == x;
    if i > 0 {
      assert rank(s[0]) <= rank(s[i]);
    }
  }

  /** Of two or more distinct contacts kept, one that is not the local node ranks
      no higher than any given such contact. */
  lemma KeptOther(all: seq<Contact>, local: NodeId, rank: Contact -> nat, x: Contact) returns (y: Contact)
    requires DistinctIds(all) && x in all && x.id != local
    ensures y in TopK(all, K, rank) && y.id != local && rank(y) <= rank(x)
  {
    SortSorted(all, rank);
    SortMultiset(all, rank);
    var s := SortBy(all, rank);
    DistinctSubset(s, all);
    assert x in multiset(s);
    var p :| 0 <= p < |s| && s[p] == x;
    var q := if p < K then p else if s[0].id != local then 0 else 1;
    assert rank(s[q]) <= rank(s[p]);
    y := s[q];
    assert TopK(all, K, rank)[q] == y;
  }

  lemma HonestNames(t: Table, target: NodeId, local: NodeId, reply: Reply, i: nat, x: Contact)
        returns (y: Contact)
    requires TableOk(t) && DistinctBuckets(t) && HonestReply(t, target, reply)
    requires i in t.buckets && x in t.buckets[i].nodes && x.id != local
    ensures reply.Ok? && y in reply.value && y.id != local && RankTo(target)(y) <= RankTo(target)(x)
  {
    hide RankTo, TableOk, DistinctBuckets, TopK;
    var order :| IsOrder(order, t) && reply == Ok(ClosestTo(t, target, K, order));
    ScanDistinct(t, order);
    ScanMembers(t, order, x);
    y := KeptOther(Scan(t, order), local, RankTo(target), x);
  }

  lemma HonestInside(net: map<NodeId, Table>, local: NodeId, target: NodeId, answers: Answers)
    requires Network(net, local) && HonestAnswers(answers, net, target)
    ensures AnswersInside(answers, (id: NodeId) => id in net, local)
  {
    hide RankTo, TableOk, DistinctBuckets, TopK;
    forall r: nat, i: nat, q: Contact | q.id in net
      ensures answers(r, i, q).Ok? && forall c :: c in answers(r, i, q).value ==> c.id == local || c.id in net
    {
      var t, reply := net[q.id], answers(r, i, q);
      assert HonestReply(t, target, reply);
      var order :| IsOrder(order, t) && reply == Ok(ClosestTo(t, target, K, order));
      TopKPart(Scan(t, order), K, RankTo(target));
      forall c | c in reply.value
        ensures c.id == local || c.id in net
      {
        assert c in multiset(reply.value);
        ScanMembers(t, order, c);
      }
    }
  }

  lemma {:induction false} ImprovedStays(s: Search, replies: seq<Reply>, n: nat, m: nat, target: NodeId)
    requires n <= m <= |replies| && AfterReplies(s, replies, n, target).improved
    ensures AfterReplies(s, replies, m, target).improved
  {
    hide OnReply;
    if n < m {
      ImprovedStays(s, replies, n, m - 1, target);
      ReplyKeepsImproved(AfterReplies(s, replies, m - 1, target), m - 1, replies[m - 1], target);
    }
  }

  lemma ReplyKeepsImproved(s: Search, i: nat, reply: Reply, target: NodeId)
    requires s.improved
    ensures OnReply(s, i, reply, target).improved
  {
  }

  /** A round that does not improve the head had asked the head, and everything the
      head named except the local node ranks no lower than the head. */
  lemma QuietRound(s: Search, round: nat, target: NodeId, local: NodeId, inside: NodeId -> bool,
        answers: Answers, x: Contact)
    requires Exact(s, inside, target) && s.closest != [] && s.seen == {local} + IdsOf(s.heard)
    requires !AfterRound(s, round, target, answers).improved
    requires answers(round, 0, s.closest[0]).Ok? && x in answers(round, 0, s.closest[0]).value && x.id != local
    ensures RankTo(target)(s.closest[0]) <= RankTo(target)(x)
  {
    hide RankTo, TopK;
    var rank, replies := RankTo(target), RepliesTo(s, round, answers);
    var s0, nodes := s.(improved := false), replies[0].value;
    assert replies[0] == answers(round, 0, s.closest[0]);
    assert AfterReplies(s0, replies, 1, target) == OnAnswer(s0, nodes, target);
    if OnAnswer(s0, nodes, target).improved {
      ImprovedStays(s0, replies, 1, |replies|, target);
      assert false;
    }
    if x.id in s.seen {
      var h :| h in s.heard && h.id == x.id;
      HeadRanksLowest(s.heard, K, rank, h);
      SameIdSameRank(target, h, x);
    } else {
      var added := Fresh(s.seen, nodes);
      FreshAreNew(s.seen, nodes);
      assert x.id in IdsOf(added);
      var f :| f in added && f.id == x.id;
      HeadRanksLowest(s.closest + added, K, rank, f);
      SameIdSameRank(target, f, x);
    }
  }

  /** No node of the network is nearer than the head of a quiet round. */
  lemma QuietHeadIsNearest(s: Search, round: nat, target: NodeId, local: NodeId, net: map<NodeId, Table>,
        answers: Answers, m: NodeId)
    requires Network(net, local) && HonestAnswers(answers, net, target)
    requires forall id :: id in net ==> Covers(net[id], net, local)
    requires Exact(s, (id: NodeId) => id in net, target) && s.closest != [] && s.seen == {local} + IdsOf(s.heard)
    requires !AfterRound(s, round, target, answers).improved && m in net
    ensures IdValue(Distance(s.closest[0].id, target)) <= IdValue(Distance(m, target))
  {
    hide IdValue, Distance, TableOk, DistinctBuckets, BucketIndex, HonestReply, AfterRound, TopK, IsOrder;
    var head := s.closest[0];
    TopKPart(s.heard, K, RankTo(target));
    assert head in multiset(s.closest) && head in s.heard;
    if IdValue(Distance(m, target)) < IdValue(Distance(head.id, target)) {
      var t := net[head.id];
      assert KnowsBucketOf(t, m, local);
      var i := BucketIndex(t.localId, m).value;
      var x :| x in t.buckets[i].nodes && x.id != local;
      LocalNowhere(t, i, x);
      NearerBucket(head.id, m, x.id, target);
      var reply := answers(round, 0, head);
      assert HonestReply(t, target, reply);
      var y := HonestNames(t, target, local, reply, i, x);
      QuietRound(s, round, target, local, (id: NodeId) => id in net, answers, y);
      assert false;
    }
  }

  /** Everything the head of a round named has been seen after it. */
  lemma HeadIsHeard(s: Search, round: nat, target: NodeId, answers: Answers, x: Contact)
    requires s.closest != []
    requires answers(round, 0, s.closest[0]).Ok? && x in answers(round, 0, s.closest[0]).value
    ensures x.id in AfterRound(s, round, target, answers).seen
  {
    hide AfterRound, OnReply;
    RoundHears(s, round, target, answers, 0, x);
  }

  // ----- the last round -----

  /** A network that answers honestly and is covered by its own tables. */
  ghost predicate Honest(net: map<NodeId, Table>, local: NodeId, target: NodeId, answers: Answers) {
    && Network(net, local) && HonestAnswers(answers, net, target)
    && forall id :: id in net ==> Covers(net[id], net, local)
  }

  /** A search under way inside a network, with its list exact. */
  ghost predicate Inside(s: Search, local: NodeId, snapshot: seq<Contact>, net: map<NodeId, Table>,
        target: NodeId, answers: Answers)
  {
    && SearchOk(s, local, snapshot, target, answers)
    && Exact(s, (id: NodeId) => id in net, target) && s.closest != []
  }

  lemma RoundStaysInside(s: Search, round: nat, local: NodeId, snapshot: seq<Contact>, net: map<NodeId, Table>,
        target: NodeId, answers: Answers)
    requires Honest(net, local, target, answers) && Inside(s, local, snapshot, net, target, answers)
    ensures Inside(AfterRound(s, round, target, answers), local, snapshot, net, target, answers)
    ensures s.heard <= AfterRound(s, round, target, answers).heard
  {
    hide RankTo, Network, HonestAnswers, Covers, Sourced, AnswersInside, TopK;
    HonestInside(net, local, target, answers);
    RepliesExact(s, round, |RepliesTo(s, round, answers)|, (id: NodeId) => id in net, local, target, answers);
    RoundKeeps(s, round, local, snapshot, target, answers);
  }

  /** The search ends after a round that did not improve the head. */
  lemma {:induction false} LastRound(s: Search, round: nat, local: NodeId, snapshot: seq<Contact>,
        net: map<NodeId, Table>, target: NodeId, answers: Answers) returns (p: Search, n: nat)
    requires Honest(net, local, target, answers) && Inside(s, local, snapshot, net, target, answers)
    ensures Inside(p, local, snapshot, net, target, answers)
    ensures AfterRound(p, n, target, answers) == Rounds(s, round, target, answers).0
    ensures !AfterRound(p, n, target, answers).improved
    decreases Unseen(s)
  {
    hide RankTo, Honest, Unseen, AfterRound, Exact, Sourced;
    RoundGrows(s, round, target, answers);
    RoundStaysInside(s, round, local, snapshot, net, target, answers);
    var s' := AfterRound(s, round, target, answers);
    if s'.improved {
      p, n := LastRound(s', round + 1, local, snapshot, net, target, answers);
    } else {
      p, n := s, round;
    }
  }

  /** After a quiet round the head is the one that was asked in it, and nobody in the
      network is nearer. */
  lemma QuietHead(p: Search, n: nat, local: NodeId, snapshot: seq<Contact>, net: map<NodeId, Table>,
        target: NodeId, answers: Answers)
    requires Honest(net, local, target, answers) && Inside(p, local, snapshot, net, target, answers)
    requires !AfterRound(p, n, target, answers).improved
    ensures var found := AfterRound(p, n, target, answers).closest;
            && found != [] && found[0].id == p.closest[0].id && found[0].id in net
            && forall m :: m in net ==> Far(found[0].id, target) <= Far(m, target)
  {
    hide IdValue, Distance, Network, HonestAnswers, Covers, AfterRound, TopK, Sourced;
    RoundStaysInside(p, n, local, snapshot, net, target, answers);
    var s' := AfterRound(p, n, target, answers);
    TopKPart(p.heard, K, RankTo(target));
    TopKPart(s'.heard, K, RankTo(target));
    var c, d := p.closest[0], s'.closest[0];
    assert c in multiset(p.closest) && c in p.heard && c in s'.heard;
    assert d in multiset(s'.closest) && d in s'.heard;
    HeadRanksLowest(s'.heard, K, RankTo(target), c);
    forall m | m in net
      ensures Far(c.id, target) <= Far(m, target)
    {
      QuietHeadIsNearest(p, n, target, local, net, answers, m);
    }
    assert Far(d.id, target) == Far(c.id, target);
    FarInjective(c.id, d.id, target);
  }

  /** A node among the K nearest that the nearest node's table knows is named in its
      honest answer: at most the local node can take a place before it. */
  lemma HeadNames(net: map<NodeId, Table>, local: NodeId, h: NodeId, target: NodeId, reply: Reply, m: NodeId)
    returns (y: Contact)
    requires Network(net, local) && h in net && m in net && m != h && HonestReply(net[h], target, reply)
    requires forall x :: x in net ==> Far(h, target) <= Far(x, target)
    requires m in Nearest(net.Keys, target) && TableContains(net[h], m)
    ensures reply.Ok? && y in reply.value && y.id == m
  {
    hide IdValue, Distance, TableOk, DistinctBuckets, TopK, CountBelow, TableContains;
    var t := net[h];
    var order :| IsOrder(order, t) && reply == Ok(ClosestTo(t, target, K, order));
    var all, rank := Scan(t, order), RankTo(target);
    ScanDistinct(t, order);
    ScanAgrees(t, 0, order, m);
    var c :| c in all && c.id == m;
    forall d | d in all
      ensures d.id != h && (d.id == local || d.id in net)
    {
      ScanMembers(t, order, d);
      var i :| i in order && d in t.buckets[i].nodes;
      LocalNowhere(t, i, d);
    }
    CountIsNearer(all, rank(c), target);
    FewNearer(IdsOf(all), net.Keys, local, h, m, target);
    assert HasRank(all, rank(c), rank);
    KeptExactly(all, K, rank(c), rank);
    y :| y in reply.value && rank(y) == rank(c);
    RankInjective(target, y, c);
  }

  lemma FewNearer(known: set<NodeId>, all: set<NodeId>, local: NodeId, h: NodeId, m: NodeId, target: NodeId)
    requires h !in known && known <= all + {local} && h in all && m in Nearest(all, target) && m != h
    requires Far(h, target) <= Far(m, target)
    ensures |Nearer(known, Far(m, target), target)| < K
  {
    hide Far;
    if Far(h, target) == Far(m, target) {
      FarInjective(h, m, target);
      assert false;
    }
    var v := Far(m, target);
    var others := Nearer(all, v, target) - {h};
    SubsetSize(Nearer(known, v, target), others + {local});
    assert |others + {local}| <= |others| + 1;
  }

  // ----- the lookup -----

  /** A table to look up from: at least one contact, all in the network. */
  ghost predicate Entry(t: Table, net: map<NodeId, Table>, order: seq<nat>) {
    && TableOk(t) && DistinctBuckets(t) && IsOrder(order, t)
    && Scan(t, order) != [] && forall c :: c in Scan(t, order) ==> c.id in net
  }

  lemma StartsInside(t: Table, net: map<NodeId, Table>, target: NodeId, order: seq<nat>, answers: Answers)
    requires Entry(t, net, order)
    ensures var snapshot := ClosestTo(t, target, K, order);
            && DistinctIds(snapshot)
            && Inside(Start(t.localId, snapshot), t.localId, snapshot, net, target, answers)
  {
    hide RankTo, TableOk, DistinctBuckets, TopK, Sourced, DistinctIds;
    SnapshotOk(t, target, order, answers);
    SnapshotDistinct(t, target, order);
    ClosestAreNearest(t, target, K, order);
  }

  /** In a static network of honest nodes whose tables know someone in every bucket
      that is not empty, a lookup from a table with at least one contact returns
      the network's nearest node to the target at the head of its list. */
  lemma LookupFindsNearest(t: Table, net: map<NodeId, Table>, target: NodeId, order: seq<nat>, answers: Answers)
    requires Entry(t, net, order) && Honest(net, t.localId, target, answers)
    ensures var snapshot := ClosestTo(t, target, K, order);
            Sorted(snapshot, RankTo(target)) &&
            var found := Rounds(Start(t.localId, snapshot), 0, target, answers).0.closest;
            found != [] && found[0].id in net && forall m :: m in net ==> Far(found[0].id, target) <= Far(m, target)
  {
    hide RankTo, Far, TableOk, DistinctBuckets, Honest, Exact, Sourced, ClosestTo, AfterRound, DistinctIds;
    StartsInside(t, net, target, order, answers);
    var snapshot := ClosestTo(t, target, K, order);
    var p, n := LastRound(Start(t.localId, snapshot), 0, t.localId, snapshot, net, target, answers);
    QuietHead(p, n, t.localId, snapshot, net, target, answers);
  }

  /** The list returned is, in order, exactly the K nearest nodes of the network if
      and only if the search heard of all of them; and it did whenever the table of
      the nearest node holds the others. */
  lemma LookupFindsAllNearest(t: Table, net: map<NodeId, Table>, target: NodeId, order: seq<nat>, answers: Answers)
    requires Entry(t, net, order) && Honest(net, t.localId, target, answers)
    ensures var snapshot := ClosestTo(t, target, K, order);
            Sorted(snapshot, RankTo(target)) &&
            var s := Rounds(Start(t.localId, snapshot), 0, target, answers).0;
            && s.closest != [] && s.closest[0].id in net
            && Sorted(s.closest, RankTo(target)) && DistinctIds(s.closest)
            && (IdsOf(s.closest) == Nearest(net.Keys, target) <==> Nearest(net.Keys, target) <= IdsOf(s.heard))
            && (HoldsNearest(net, s.closest[0].id, target) ==> IdsOf(s.closest) == Nearest(net.Keys, target))
  {
    hide RankTo, Far, TableOk, DistinctBuckets, Honest, Sourced, ClosestTo, AfterRound;
    hide DistinctIds, Nearest, IdsOf, HoldsNearest, TopK;
    StartsInside(t, net, target, order, answers);
    var snapshot := ClosestTo(t, target, K, order);
    var p, n := LastRound(Start(t.localId, snapshot), 0, t.localId, snapshot, net, target, answers);
    QuietHead(p, n, t.localId, snapshot, net, target, answers);
    RoundStaysInside(p, n, t.localId, snapshot, net, target, answers);
    var s := AfterRound(p, n, target, answers);
    DistinctSubset(s.closest, s.heard);
    KeptNearest(s.heard, target);
    HeardInside(s, net, target);
    NearestHeardExactly(IdsOf(s.heard), net.Keys, target);
    if HoldsNearest(net, s.closest[0].id, target) {
      NearestAreHeard(p, n, t.localId, snapshot, net, target, answers);
    }
  }

  /** The table of a node knows all others of the K nearest nodes of the network. */
  ghost predicate HoldsNearest(net: map<NodeId, Table>, h: NodeId, target: NodeId)
    requires h in net
  {
    forall m :: m in Nearest(net.Keys, target) && m != h ==> TableContains(net[h], m)
  }

  lemma HeardInside(s: Search, net: map<NodeId, Table>, target: NodeId)
    requires Exact(s, (id: NodeId) => id in net, target)
    ensures IdsOf(s.heard) <= net.Keys
  {
    hide RankTo, TopK;
  }

  lemma NearestAreHeard(p: Search, n: nat, local: NodeId, snapshot: seq<Contact>, net: map<NodeId, Table>,
        target: NodeId, answers: Answers)
    requires Honest(net, local, target, answers) && Inside(p, local, snapshot, net, target, answers)
    requires !AfterRound(p, n, target, answers).improved
    requires p.closest[0].id in net && HoldsNearest(net, p.closest[0].id, target)
    ensures Nearest(net.Keys, target) <= IdsOf(AfterRound(p, n, target, answers).heard)
  {
    hide RankTo, Far, Sourced, AfterRound, Covers, TopK, TableContains, IsOrder;
    QuietHead(p, n, local, snapshot, net, target, answers);
    RoundStaysInside(p, n, local, snapshot, net, target, answers);
    var s, head := AfterRound(p, n, target, answers), p.closest[0];
    forall m | m in Nearest(net.Keys, target)
      ensures m in IdsOf(s.heard)
    {
      assert m in net.Keys;
      if m == head.id {
        HeadIsListed(s, target);
      } else {
        var reply := answers(n, 0, head);
        assert HonestReply(net[head.id], target, reply);
        var y := HeadNames(net, local, head.id, target, reply, m);
        HeadIsHeard(p, n, target, answers, y);
        assert m in s.seen;
      }
    }
  }

  lemma HeadIsListed(s: Search, target: NodeId)
    requires s.closest != [] && multiset(s.closest) <= multiset(s.heard)
    ensures s.closest[0].id in IdsOf(s.heard)
  {
    assert s.closest[0] in multiset(s.closest);
    assert s.closest[0] in s.heard;
  }

  // ----- a covered network in which a near node is missed -----

  function Person(id: NodeId): Contact {
    Contact(id, 0, At(0), ResponseStats(0, 0))
  }

  /** The bucket of `owner` that holds `id` alone. */
  function Only(owner: NodeId, id: NodeId): Bucket
    requires owner != id
  {
    BucketIndexNone(owner, id);
    Bucket(owner, K, BucketIndex(owner, id).value, [Person(id)], [])
  }

  function One(owner: NodeId, x: NodeId): Table
    requires owner != x
  {
    BucketIndexNone(owner, x);
    Table(owner, K, map[BucketIndex(owner, x).value := Only(owner, x)])
  }

  function Two(owner: NodeId, x: NodeId, y: NodeId): Table
    requires owner != x && owner != y
  {
    BucketIndexNone(owner, x);
    BucketIndexNone(owner, y);
    Table(owner, K, map[BucketIndex(owner, x).value := Only(owner, x), BucketIndex(owner, y).value := Only(owner, y)])
  }

  /** Three nodes: `a` knows `b` alone, though `c` is in the same bucket; `b` and `c`
      know everyone. */
  function Three(a: NodeId, b: NodeId, c: NodeId): map<NodeId, Table>
    requires a != b && a != c && b != c
  {
    map[a := One(a, b), b := Two(b, a, c), c := Two(c, a, b)]
  }

  /** What each of them answers to a search for `a`. */
  function ThreeAnswers(a: NodeId, b: NodeId, c: NodeId): Answers {
    (round: nat, i: nat, q: Contact) =>
      if q.id == a then Ok([Person(b)])
      else if q.id == b then Ok(TopK([Person(a)] + [Person(c)], K, RankTo(a)))
      else Ok(TopK([Person(a)] + [Person(b)], K, RankTo(a)))
  }

  lemma OnlyOk(owner: NodeId, x: NodeId)
    requires owner != x
    ensures BucketIndex(owner, x).Some? && BucketIndex(owner, x).value < KEY_LENGTH_BITS
    ensures BucketOk(Only(owner, x)) && DistinctIds(Only(owner, x).nodes)
  {
    BucketIndexNone(owner, x);
    BucketIndexBound(owner, x);
    hide BucketIndex;
    assert Belongs(Only(owner, x), Person(x));
  }

  lemma OneOk(owner: NodeId, x: NodeId)
    requires owner != x
    ensures BucketIndex(owner, x).Some?
    ensures TableOk(One(owner, x)) && DistinctBuckets(One(owner, x))
    ensures IsOrder([BucketIndex(owner, x).value], One(owner, x))
    ensures Scan(One(owner, x), [BucketIndex(owner, x).value]) == [Person(x)]
  {
    hide BucketOk, BucketIndex;
    OnlyOk(owner, x);
    var t, i := One(owner, x), BucketIndex(owner, x).value;
    assert t.buckets[i].nodes + Scan(t, []) == [Person(x)];
    assert [i][1..] == [];
  }

  lemma TwoOk(owner: NodeId, x: NodeId, y: NodeId)
    requires owner != x && owner != y && BucketIndex(owner, x) != BucketIndex(owner, y)
    ensures BucketIndex(owner, x).Some? && BucketIndex(owner, y).Some?
    ensures TableOk(Two(owner, x, y)) && DistinctBuckets(Two(owner, x, y))
    ensures var order := [BucketIndex(owner, x).value, BucketIndex(owner, y).value];
            IsOrder(order, Two(owner, x, y)) && Scan(Two(owner, x, y), order) == [Person(x)] + [Person(y)]
  {
    hide BucketOk, BucketIndex;
    OnlyOk(owner, x);
    OnlyOk(owner, y);
    var t, i, j := Two(owner, x, y), BucketIndex(owner, x).value, BucketIndex(owner, y).value;
    assert [i, j][1..] == [j] && [j][1..] == [];
    assert Scan(t, [j]) == t.buckets[j].nodes + Scan(t, []);
    assert Scan(t, [i, j]) == t.buckets[i].nodes + Scan(t, [j]);
  }

  /** Of two nodes in one bucket of a third, each has the other two in different
      buckets. */
  lemma SharedBucketSeparates(a: NodeId, b: NodeId, c: NodeId)
    requires a != b && a != c && b != c && BucketIndex(a, b) == BucketIndex(a, c)
    ensures BucketIndex(b, a) != BucketIndex(b, c)
  {
    hide ByteBit, IdValue, Distance;
    BucketIndexNone(a, b);
    BucketIndexBound(a, b);
    var i := BucketIndex(a, b).value;
    BucketIndexMeaning(a, b, i);
    BucketIndexMeaning(a, c, i);
    BucketIndexMeaning(b, c, i);
  }

  lemma ThreeHonest(local: NodeId, a: NodeId, b: NodeId, c: NodeId)
    requires a != b && a != c && b != c && local !in {a, b, c} && BucketIndex(a, b) == BucketIndex(a, c)
    ensures Honest(Three(a, b, c), local, a, ThreeAnswers(a, b, c))
  {
    hide BucketIndex, HonestReply, Covers, Network, ThreeAnswers, One, Two;
    ThreeCovered(local, a, b, c);
    ThreeNetwork(local, a, b, c);
    forall r: nat, i: nat, q: Contact | q.id in Three(a, b, c)
      ensures HonestReply(Three(a, b, c)[q.id], a, ThreeAnswers(a, b, c)(r, i, q))
    {
      ThreeReplies(a, b, c, r, i, q);
    }
  }

  lemma ThreeNetwork(local: NodeId, a: NodeId, b: NodeId, c: NodeId)
    requires a != b && a != c && b != c && local !in {a, b, c} && BucketIndex(a, b) == BucketIndex(a, c)
    ensures Network(Three(a, b, c), local)
  {
    hide BucketIndex, TableOk, DistinctBuckets, IsOrder, Scan;
    SharedBucketSeparates(a, b, c);
    SharedBucketSeparates(a, c, b);
    OneOk(a, b);
    TwoOk(b, a, c);
    TwoOk(c, a, b);
  }

  lemma ThreeReplies(a: NodeId, b: NodeId, c: NodeId, r: nat, i: nat, q: Contact)
    requires a != b && a != c && b != c && BucketIndex(a, b) == BucketIndex(a, c) && q.id in {a, b, c}
    ensures HonestReply(Three(a, b, c)[q.id], a, ThreeAnswers(a, b, c)(r, i, q))
  {
    hide BucketIndex, TableOk, DistinctBuckets, RankTo, TopK, IsOrder, Scan, One, Two;
    SharedBucketSeparates(a, b, c);
    SharedBucketSeparates(a, c, b);
    if q.id == a {
      OneOk(a, b);
      OneClosest(b, a);
      HonestBy(One(a, b), a, [BucketIndex(a, b).value]);
    } else if q.id == b {
      TwoOk(b, a, c);
      HonestBy(Two(b, a, c), a, [BucketIndex(b, a).value, BucketIndex(b, c).value]);
    } else {
      TwoOk(c, a, b);
      HonestBy(Two(c, a, b), a, [BucketIndex(c, a).value, BucketIndex(c, b).value]);
    }
  }

  lemma HonestBy(t: Table, target: NodeId, order: seq<nat>)
    requires IsOrder(order, t)
    ensures HonestReply(t, target, Ok(TopK(Scan(t, order), K, RankTo(target))))
  {
    hide RankTo, TopK, Scan;
    assert Ok(TopK(Scan(t, order), K, RankTo(target))) == Ok(ClosestTo(t, target, K, order));
  }

  lemma OneClosest(x: NodeId, target: NodeId)
    ensures TopK([Person(x)], K, RankTo(target)) == [Person(x)]
  {
    hide RankTo;
    SortOfSorted([Person(x)], RankTo(target));
  }

  lemma ThreeCovered(local: NodeId, a: NodeId, b: NodeId, c: NodeId)
    requires a != b && a != c && b != c && local !in {a, b, c} && BucketIndex(a, b) == BucketIndex(a, c)
    ensures forall id :: id in Three(a, b, c) ==> Covers(Three(a, b, c)[id], Three(a, b, c), local)
  {
    hide BucketIndex;
    SharedBucketSeparates(a, b, c);
    SharedBucketSeparates(a, c, b);
    OnlyOk(a, b);
    OnlyOk(b, a);
    OnlyOk(b, c);
    OnlyOk(c, a);
    OnlyOk(c, b);
    assert Person(a) in [Person(a)] && Person(b) in [Person(b)] && Person(c) in [Person(c)];
  }

  /** Only the head is guaranteed.  In this honest and covered network of three nodes
      a search for `a`, from a table that holds `a`, returns `a` and `b`: `c` is
      among the K nearest nodes and missing. */
  lemma OnlyTheHeadIsGuaranteed(local: NodeId, a: NodeId, b: NodeId, c: NodeId)
    requires a != b && a != c && b != c && local !in {a, b, c} && BucketIndex(a, b) == BucketIndex(a, c)
    ensures var net, answers, t := Three(a, b, c), ThreeAnswers(a, b, c), One(local, a);
            && BucketIndex(local, a).Some?
            && var order := [BucketIndex(local, a).value];
            && Entry(t, net, order) && Honest(net, local, a, answers)
            && var snapshot := ClosestTo(t, a, K, order);
            && Sorted(snapshot, RankTo(a))
            && var found := Rounds(Start(local, snapshot), 0, a, answers).0.closest;
            && found == [Person(a), Person(b)]
            && c in Nearest(net.Keys, a) && c !in IdsOf(found)
  {
    hide BucketIndex, TableOk, DistinctBuckets, RankTo, IsOrder, Honest, Scan;
    OneOk(local, a);
    ThreeHonest(local, a, b, c);
    OneClosest(a, a);
    AllThreeNearest(a, b, c);
    StopsAfterTwo(local, a, b, ThreeAnswers(a, b, c));
  }

  lemma AllThreeNearest(a: NodeId, b: NodeId, c: NodeId)
    requires a != b && a != c && b != c
    ensures c in Nearest(Three(a, b, c).Keys, a)
  {
    hide Far;
    var all := Three(a, b, c).Keys;
    assert all == {a, b, c};
    SubsetSize(Nearer(all, Far(c, a), a), all);
  }

  /** From the target itself, which names `b`, the search stops at once. */
  lemma StopsAfterTwo(local: NodeId, a: NodeId, b: NodeId, answers: Answers)
    requires a != b && local != a && local != b
    requires answers(0, 0, Person(a)) == Ok([Person(b)])
    ensures Sorted([Person(a)], RankTo(a))
    ensures Rounds(Start(local, [Person(a)]), 0, a, answers).0.closest == [Person(a), Person(b)]
  {
    hide RankTo, Fresh;
    var rank, s, pa, pb := RankTo(a), Start(local, [Person(a)]), Person(a), Person(b);
    NearestIsTarget(a, b);
    var replies := RepliesTo(s, 0, answers);
    assert replies == [Ok([pb])];
    IdsOfOne(pa);
    FreshOne(s.seen, pb);
    assert [pa] + [pb] == [pa, pb];
    SortOfSorted([pa, pb], rank);
    var s0 := s.(improved := false);
    assert AfterReplies(s0, replies, 1, a) == OnAnswer(s0, [pb], a);
    assert OnAnswer(s0, [pb], a).closest == [pa, pb];
  }

  lemma FreshOne(seen: set<NodeId>, c: Contact)
    requires c.id !in seen
    ensures Fresh(seen, [c]) == [c]
  {
  }

  lemma NearestIsTarget(a: NodeId, b: NodeId)
    requires a != b
    ensures RankTo(a)(Person(a)) < RankTo(a)(Person(b))
  {
    hide IdValue, Distance;
    DistanceZero(a, a);
    DistanceZero(b, a);
  }

  /** Such identifiers exist: bytes 0x00, 0x80 and 0xC0 first, and a local node that
      differs from all three. */
  lemma SuchNodesExist() returns (local: NodeId, a: NodeId, b: NodeId, c: NodeId)
    ensures a != b && a != c && b != c && local !in {a, b, c} && BucketIndex(a, b) == BucketIndex(a, c)
  {
    a := seq(KEY_LENGTH_BYTES, _ => 0);
    b, c, local := a[0 := 128], a[0 := 192], a[0 := 1];
    assert a[0] == 0 && b[0] == 128 && c[0] == 192 && local[0] == 1;
    assert !BitAt(a, 0) && BitAt(b, 0) && BitAt(c, 0);
    BucketIndexMeaning(a, b, 0);
    BucketIndexMeaning(a, c, 0);
  }
}
