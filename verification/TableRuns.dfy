/** What holds of every table reachable from the empty one. */
module TableRuns {
  import opened Wrappers
  import opened NodeIds
  import opened Contacts
  import opened Ranking
  import opened Buckets
  import opened BucketPolicy
  import opened RoutingTables

  /** Every bucket holds and caches only contacts of its own index, within capacity. */
  ghost predicate TableOk(t: Table) {
    && t.k >= 1
    && forall i :: i in t.buckets ==>
         && i < KEY_LENGTH_BITS
         && t.buckets[i].k == t.k && t.buckets[i].localId == t.localId && t.buckets[i].prefixLen == i
         && BucketOk(t.buckets[i])
  }

  /** Every bucket is ordered by last-seen times not after `now`. */
  ghost predicate InTimeOrder(t: Table, now: nat) {
    forall i :: i in t.buckets ==> Chronological(t.buckets[i].nodes, now)
  }

  // ----- the split branch is dead -----

  /** The members of a bucket agree on the bit it would be split on. */
  lemma NeverSplits(b: Bucket)
    requires BucketOk(b) && b.prefixLen < KEY_LENGTH_BITS
    ensures !ShouldSplit(b)
  {
    forall i | 0 <= i < |b.nodes|
      ensures BitAt(b.nodes[i].id, b.prefixLen) != BitAt(b.localId, b.prefixLen)
    {
      assert Belongs(b, b.nodes[i]);
      BucketIndexMeaning(b.localId, b.nodes[i].id, b.prefixLen);
    }
  }

  /** An update of one bucket, with no split and no recursion. */
  function PlainUpdate(t: Table, node: Contact, now: nat): (Table, Result<UpdateStatus>)
    requires Uniform(t)
  {
    match BucketIndex(t.localId, node.id)
    case None => (t, Ok(Unchanged))
    case Some(i) =>
      var (b, r) := BucketUpdate(BucketAt(t, i), node, now);
      (t.(buckets := t.buckets[i := b]), r)
  }

  /** On every reachable table the update with its split branch is the plain one;
      it keeps the table reachable in shape and never fails. */
  lemma UpdateIsPlain(t: Table, node: Contact, now: nat)
    requires TableOk(t)
    ensures Uniform(t)
    ensures TableUpdate(t, node, now) == PlainUpdate(t, node, now)
    ensures TableOk(TableUpdate(t, node, now).0)
    ensures TableUpdate(t, node, now).1.Ok?
    ensures TableUpdate(t, node, now).1 == Ok(Unchanged) <==> node.id == t.localId
  {
    hide BucketIndex;
    BucketIndexNone(t.localId, node.id);
    BucketIndexBound(t.localId, node.id);
    if node.id != t.localId {
      var i := BucketIndex(t.localId, node.id).value;
      var b := BucketAt(t, i);
      UpdateKeepsOk(b, node, now);
      NeverSplits(BucketUpdate(b, node, now).0);
    }
  }

  lemma TouchKeepsOk(t: Table, id: NodeId, change: Contact -> Contact, now: nat)
    requires TableOk(t)
    requires forall c: Contact :: change(c).id == c.id
    ensures Uniform(t)
    ensures TableOk(Touch(t, id, change, now).0)
    ensures Touch(t, id, change, now).1 == Ok(())
  {
    hide BucketIndex;
    BucketIndexNone(t.localId, id);
    if BucketIndex(t.localId, id).Some? {
      var i := BucketIndex(t.localId, id).value;
      if i in t.buckets {
        var found := Lookup(t.buckets[i], id);
        if found.Some? {
          UpdateKeepsOk(t.buckets[i], change(found.value), now);
        }
      }
    }
  }

  lemma RemovalKeepsOk(t: Table, id: NodeId, now: nat)
    requires TableOk(t)
    ensures TableOk(TableRemove(t, id, now).0)
  {
    hide BucketIndex;
    if BucketIndex(t.localId, id).Some? {
      var i := BucketIndex(t.localId, id).value;
      if i in t.buckets {
        RemoveKeepsOk(t.buckets[i], id, now);
      }
    }
  }

  // ----- time order -----

  lemma OrderedLater(t: Table, was: nat, now: nat)
    requires InTimeOrder(t, was) && was <= now
    ensures InTimeOrder(t, now)
  {
  }

  lemma UpdateStaysInOrder(t: Table, node: Contact, was: nat, now: nat)
    requires TableOk(t) && InTimeOrder(t, was) && was <= now && Uniform(t)
    ensures InTimeOrder(TableUpdate(t, node, now).0, now)
  {
    hide BucketIndex, BucketUpdate, TableUpdate, Chronological;
    UpdateIsPlain(t, node, now);
    OrderedLater(t, was, now);
    if BucketIndex(t.localId, node.id).Some? {
      var b := BucketAt(t, BucketIndex(t.localId, node.id).value);
      assert Chronological(b.nodes, was) by {
        EmptyInOrder(was);
      }
      UpdateKeepsOrder(b, node, was, now);
    }
  }

  lemma EmptyInOrder(now: nat)
    ensures Chronological([], now)
  {
  }

  lemma TouchStaysInOrder(t: Table, id: NodeId, change: Contact -> Contact, was: nat, now: nat)
    requires Uniform(t) && InTimeOrder(t, was) && was <= now
    ensures InTimeOrder(Touch(t, id, change, now).0, now)
  {
    hide BucketIndex, BucketUpdate, Chronological;
    OrderedLater(t, was, now);
    if BucketIndex(t.localId, id).Some? && BucketIndex(t.localId, id).value in t.buckets {
      var b := t.buckets[BucketIndex(t.localId, id).value];
      var found := Lookup(b, id);
      if found.Some? {
        UpdateKeepsOrder(b, change(found.value), was, now);
      }
    }
  }

  lemma RemovalStaysInOrder(t: Table, id: NodeId, was: nat, now: nat)
    requires InTimeOrder(t, was) && was <= now
    ensures InTimeOrder(TableRemove(t, id, now).0, now)
  {
    hide BucketIndex, BucketRemove, Chronological;
    OrderedLater(t, was, now);
    if BucketIndex(t.localId, id).Some? && BucketIndex(t.localId, id).value in t.buckets {
      RemoveKeepsOrder(t.buckets[BucketIndex(t.localId, id).value], id, was, now);
    }
  }

  // ----- runs -----

  datatype TableOp =
    | Update(node: Contact)
    | Seen(id: NodeId)
    | Succeeded(id: NodeId)
    | Failed(id: NodeId)
    | Remove(id: NodeId)

  datatype Event = Event(op: TableOp, time: nat)

  function Apply(t: Table, e: Event): (r: Table)
    requires Uniform(t)
    ensures Uniform(r) && r.localId == t.localId && r.k == t.k
  {
    match e.op
    case Update(node) => TableUpdate(t, node, e.time).0
    case Seen(id) => Touch(t, id, SeenChange(e.time), e.time).0
    case Succeeded(id) => Touch(t, id, SuccessChange(e.time), e.time).0
    case Failed(id) => Touch(t, id, FailureChange(), e.time).0
    case Remove(id) => TableRemove(t, id, e.time).0
  }

  function Run(t: Table, events: seq<Event>): (r: Table)
    requires Uniform(t)
    ensures Uniform(r) && r.localId == t.localId && r.k == t.k
  {
    if events == [] then t else Apply(Run(t, events[..|events| - 1]), events[|events| - 1])
  }

  ghost predicate ClockForward(events: seq<Event>) {
    forall i, j :: 0 <= i < j < |events| ==> events[i].time <= events[j].time
  }

  function LastTime(events: seq<Event>): nat {
    if events == [] then 0 else events[|events| - 1].time
  }

  lemma ApplyKeepsOk(t: Table, e: Event)
    requires TableOk(t)
    ensures Uniform(t) && TableOk(Apply(t, e))
  {
    hide BucketIndex, BucketUpdate, TableUpdate, Touch, TableRemove, BucketOk;
    match e.op
    case Update(node) => UpdateIsPlain(t, node, e.time);
    case Seen(id) => TouchKeepsOk(t, id, SeenChange(e.time), e.time);
    case Succeeded(id) => TouchKeepsOk(t, id, SuccessChange(e.time), e.time);
    case Failed(id) => TouchKeepsOk(t, id, FailureChange(), e.time);
    case Remove(id) => RemovalKeepsOk(t, id, e.time);
  }

  lemma ApplyStaysInOrder(t: Table, e: Event, was: nat)
    requires TableOk(t) && InTimeOrder(t, was) && was <= e.time && Uniform(t)
    ensures InTimeOrder(Apply(t, e), e.time)
  {
    hide BucketIndex, BucketUpdate, TableUpdate, Touch, TableRemove, BucketOk, InTimeOrder;
    match e.op
    case Update(node) => UpdateStaysInOrder(t, node, was, e.time);
    case Seen(id) => TouchStaysInOrder(t, id, SeenChange(e.time), was, e.time);
    case Succeeded(id) => TouchStaysInOrder(t, id, SuccessChange(e.time), was, e.time);
    case Failed(id) => TouchStaysInOrder(t, id, FailureChange(), was, e.time);
    case Remove(id) => RemovalStaysInOrder(t, id, was, e.time);
  }

  /** Every table reached from the empty one by any operations, whatever the clock
      reads, satisfies the table invariant. */
  lemma {:induction false} ReachableOk(local: NodeId, k: nat, events: seq<Event>)
    requires k >= 1
    ensures TableOk(Run(EmptyTable(local, k), events))
  {
    hide Apply;
    if events != [] {
      var n := |events| - 1;
      ReachableOk(local, k, events[..n]);
      ApplyKeepsOk(Run(EmptyTable(local, k), events[..n]), events[n]);
    }
  }

  /** When the clock does not run backwards its buckets are also in time order. */
  lemma {:induction false} ReachableInOrder(local: NodeId, k: nat, events: seq<Event>)
    requires k >= 1 && ClockForward(events)
    ensures InTimeOrder(Run(EmptyTable(local, k), events), LastTime(events))
  {
    hide Apply;
    if events != [] {
      var n := |events| - 1;
      ReachableOk(local, k, events[..n]);
      ReachableInOrder(local, k, events[..n]);
      assert LastTime(events[..n]) <= events[n].time;
      ApplyStaysInOrder(Run(EmptyTable(local, k), events[..n]), events[n], LastTime(events[..n]));
    }
  }

  /** No update of any run takes the split branch: it is the update of one bucket. */
  lemma SplitNeverTaken(local: NodeId, k: nat, events: seq<Event>, node: Contact, now: nat)
    requires k >= 1
    ensures var t := Run(EmptyTable(local, k), events);
            && TableUpdate(t, node, now) == PlainUpdate(t, node, now)
            && forall i :: i in t.buckets ==> !ShouldSplit(t.buckets[i])
  {
    hide BucketIndex, ShouldSplit, TableUpdate, PlainUpdate, BucketOk;
    ReachableOk(local, k, events);
    var t := Run(EmptyTable(local, k), events);
    UpdateIsPlain(t, node, now);
    forall i | i in t.buckets
      ensures !ShouldSplit(t.buckets[i])
    {
      NeverSplits(t.buckets[i]);
    }
  }

  /** In a reachable table the local id is nowhere, and buckets are within capacity. */
  lemma LocalNowhere(t: Table, i: nat, c: Contact)
    requires TableOk(t) && i in t.buckets
    requires c in t.buckets[i].nodes || c in t.buckets[i].cache
    ensures c.id != t.localId && BucketIndex(t.localId, c.id) == Some(i) && |t.buckets[i].nodes| <= t.k
  {
    hide BucketIndex;
    BucketIndexNone(t.localId, c.id);
    if c in t.buckets[i].nodes {
      var j :| 0 <= j < |t.buckets[i].nodes| && t.buckets[i].nodes[j] == c;
      assert Belongs(t.buckets[i], t.buckets[i].nodes[j]);
    } else {
      var j :| 0 <= j < |t.buckets[i].cache| && t.buckets[i].cache[j] == c;
      assert Belongs(t.buckets[i], t.buckets[i].cache[j]);
    }
  }

  // ----- statistics -----

  /** Whatever the change to the stored copy, only the time and the place in the
      queue are updated: recording a success or a failure is the same as noting
      the contact as seen, so no counter in the table ever changes. */
  lemma RecordsOnlyRecency(t: Table, id: NodeId, now: nat)
    requires Uniform(t)
    ensures Touch(t, id, SuccessChange(now), now) == Touch(t, id, SeenChange(now), now)
    ensures Touch(t, id, FailureChange(), now) == Touch(t, id, SeenChange(now), now)
  {
    hide BucketIndex, BucketUpdate;
    if BucketIndex(t.localId, id).Some? && BucketIndex(t.localId, id).value in t.buckets {
      var b := t.buckets[BucketIndex(t.localId, id).value];
      var found := Lookup(b, id);
      if found.Some? {
        SameIdSameUpdate(b, SuccessChange(now)(found.value), SeenChange(now)(found.value), now);
        SameIdSameUpdate(b, FailureChange()(found.value), SeenChange(now)(found.value), now);
      }
    }
  }

  lemma SameIdSameUpdate(b: Bucket, c: Contact, d: Contact, now: nat)
    requires b.k >= 1 && c.id == d.id && Holds(b, c.id)
    ensures BucketUpdate(b, c, now) == BucketUpdate(b, d, now)
  {
  }

  /** Noting a stored contact as seen puts it last in its bucket with the time
      `now` and its old statistics, and leaves the order of the others, the cache
      and every other bucket alone. */
  lemma TouchRefreshes(t: Table, id: NodeId, change: Contact -> Contact, now: nat)
    requires Uniform(t) && TableContains(t, id) && id != t.localId
    requires forall c: Contact :: change(c).id == c.id
    ensures var i := BucketIndex(t.localId, id).value;
            var b, t' := t.buckets[i], Touch(t, id, change, now).0;
            var pos := IndexOf(b.nodes, id);
            && t' == t.(buckets := t.buckets[i := b.(nodes := t'.buckets[i].nodes)])
            && t'.buckets[i].nodes == Without(b.nodes, pos) + [b.nodes[pos].(lastSeen := At(now))]
  {
    hide BucketIndex;
  }

  // ----- who leaves -----

  /** Over any step of any run, a contact leaves a bucket only as the first
      unreliable member or the inactive front when a newcomer meets a full bucket,
      or because it was itself removed. */
  lemma LeavesOnlyBy(t: Table, e: Event, y: NodeId)
    requires TableOk(t)
    requires Uniform(t) && TableContains(t, y) && !TableContains(Apply(t, e), y)
    ensures e.op == Remove(y) ||
            (e.op.Update? && BucketIndex(t.localId, e.op.node.id) == BucketIndex(t.localId, y) &&
             Evicts(t.buckets[BucketIndex(t.localId, y).value], e.op.node, e.time, y))
  {
    hide BucketIndex, TableUpdate, BucketUpdate, BucketRemove;
    var i := BucketIndex(t.localId, y).value;
    var b := t.buckets[i];
    assert b.nodes[IndexOf(b.nodes, y)].id == y;
    match e.op
    case Update(node) =>
      UpdateIsPlain(t, node, e.time);
      UpdateEvicts(b, node, e.time, y);
    case Seen(id) => TouchKeepsMembers(t, id, SeenChange(e.time), e.time, y);
    case Succeeded(id) => TouchKeepsMembers(t, id, SuccessChange(e.time), e.time, y);
    case Failed(id) => TouchKeepsMembers(t, id, FailureChange(), e.time, y);
    case Remove(id) =>
      if Holds(b, id) && id != y {
        RemoveMembers(b, id, e.time, y);
      } else if !Holds(b, id) {
        RemoveMissing(b, id, e.time);
      }
  }

  /** The same, said of any step of any run from the empty table. */
  lemma LeavesOnlyByOverRuns(local: NodeId, k: nat, events: seq<Event>, n: nat, y: NodeId)
    requires k >= 1 && n < |events|
    requires TableContains(Run(EmptyTable(local, k), events[..n]), y)
    requires !TableContains(Run(EmptyTable(local, k), events[..n + 1]), y)
    ensures var t, e := Run(EmptyTable(local, k), events[..n]), events[n];
            e.op == Remove(y) ||
            (e.op.Update? && BucketIndex(local, e.op.node.id) == BucketIndex(local, y) &&
             Evicts(t.buckets[BucketIndex(local, y).value], e.op.node, e.time, y))
  {
    hide BucketIndex, Apply, Evicts;
    ReachableOk(local, k, events[..n]);
    assert events[..n + 1][..n] == events[..n];
    LeavesOnlyBy(Run(EmptyTable(local, k), events[..n]), events[n], y);
  }

  lemma RemoveMissing(b: Bucket, id: NodeId, now: nat)
    requires !Holds(b, id)
    ensures BucketRemove(b, id, now) == (b, None)
  {
  }

  /** Noting a contact as seen, with success or with failure changes no membership. */
  lemma TouchKeepsMembers(t: Table, id: NodeId, change: Contact -> Contact, now: nat, y: NodeId)
    requires Uniform(t)
    requires forall c: Contact :: change(c).id == c.id
    ensures TableContains(Touch(t, id, change, now).0, y) <==> TableContains(t, y)
  {
    hide BucketIndex, BucketUpdate;
    if BucketIndex(t.localId, id).Some? && BucketIndex(t.localId, id).value in t.buckets {
      var b := t.buckets[BucketIndex(t.localId, id).value];
      var found := Lookup(b, id);
      if found.Some? {
        if Holds(b, y) {
          UpdateEvicts(b, change(found.value), now, y);
        } else {
          UpdateAdmits(b, change(found.value), now, y);
        }
      }
    }
  }

  /** A pending ping means that nobody entered or left. */
  lemma PendingPingKeepsMembers(t: Table, node: Contact, now: nat, y: NodeId)
    requires TableOk(t) && Uniform(t)
    requires TableUpdate(t, node, now).1.Ok? && TableUpdate(t, node, now).1.value.PendingPing?
    ensures TableContains(TableUpdate(t, node, now).0, y) <==> TableContains(t, y)
    ensures !TableContains(t, node.id)
    ensures TableContains(t, TableUpdate(t, node, now).1.value.front.id)
  {
    hide BucketIndex, BucketUpdate, TableUpdate;
    UpdateIsPlain(t, node, now);
    var i := BucketIndex(t.localId, node.id).value;
    PendingPingShape(BucketAt(t, i), node, now);
    var front := TableUpdate(t, node, now).1.value.front;
    assert Belongs(t.buckets[i], t.buckets[i].nodes[0]);
  }

  lemma PendingPingShape(b: Bucket, node: Contact, now: nat)
    requires b.k >= 1
    requires BucketUpdate(b, node, now).1.Ok? && BucketUpdate(b, node, now).1.value.PendingPing?
    ensures !Holds(b, node.id) && b.nodes != [] && b.nodes[0] == BucketUpdate(b, node, now).1.value.front
    ensures BucketUpdate(b, node, now).0 == b.(cache := Cached(b.cache, node, now))
    ensures Holds(b, b.nodes[0].id)
  {
  }

  // ----- one bucket is enough -----

  function IdRank(id: NodeId): Contact -> nat {
    (c: Contact) => if c.id == id then 0 else 1
  }

  /** When only bucket `i` has contacts of some rank, a scan in any order sees
      exactly that bucket's contacts of the rank, in the bucket's order. */
  lemma {:induction false} ScanOfOneBucket(t: Table, order: seq<nat>, v: nat, rank: Contact -> nat, i: nat)
    requires forall j :: j in order ==> j in t.buckets
    requires forall j, l :: 0 <= j < l < |order| ==> order[j] != order[l]
    requires forall j :: j in t.buckets && j != i ==> WithRank(t.buckets[j].nodes, v, rank) == []
    ensures WithRank(Scan(t, order), v, rank) == if i in order then WithRank(t.buckets[i].nodes, v, rank) else []
  {
    if order != [] {
      ScanOfOneBucket(t, order[1..], v, rank, i);
      WithRankConcat(t.buckets[order[0]].nodes, Scan(t, order[1..]), v, rank);
    }
  }

  lemma {:induction false} WithIdOf(s: seq<Contact>, id: NodeId)
    ensures var w, n := WithRank(s, 0, IdRank(id)), IndexOf(s, id);
            if n < |s| then w != [] && w[0] == s[n] else w == []
  {
    if s != [] {
      WithIdOf(s[1..], id);
    }
  }

  lemma OtherBucketsLack(t: Table, id: NodeId, j: nat)
    requires TableOk(t) && j in t.buckets && BucketIndex(t.localId, id) != Some(j)
    ensures WithRank(t.buckets[j].nodes, 0, IdRank(id)) == []
  {
    hide BucketIndex;
    var s := t.buckets[j].nodes;
    forall n | 0 <= n < |s|
      ensures IdRank(id)(s[n]) != 0
    {
      assert Belongs(t.buckets[j], s[n]);
    }
    NoneWithRank(s, 0, IdRank(id));
  }

  function ScanFor(all: seq<Contact>, id: NodeId): Option<Contact> {
    var n := IndexOf(all, id);
    if n < |all| then Some(all[n]) else None
  }

  /** A scan of all contacts finds what the bucket of the id holds. */
  lemma ScanFinds(t: Table, order: seq<nat>, id: NodeId)
    requires TableOk(t) && IsOrder(order, t)
    ensures ScanFor(Scan(t, order), id) == TableLookup(t, id)
  {
    hide BucketIndex, IsOrder, WithRank, IndexOf, Scan, TableOk;
    BucketIndexBound(t.localId, id);
    var i := if BucketIndex(t.localId, id).Some? then BucketIndex(t.localId, id).value else KEY_LENGTH_BITS;
    forall j | j in t.buckets && j != i
      ensures WithRank(t.buckets[j].nodes, 0, IdRank(id)) == []
    {
      IndexInRange(t, j);
      OtherBucketsLack(t, id, j);
    }
    OrderIsKeys(t, order);
    ScanOfOneBucket(t, order, 0, IdRank(id), i);
    WithIdOf(Scan(t, order), id);
    if i in t.buckets {
      IndexInRange(t, i);
      WithIdOf(t.buckets[i].nodes, id);
    }
  }

  lemma OrderIsKeys(t: Table, order: seq<nat>)
    requires IsOrder(order, t)
    ensures forall i :: i in order <==> i in t.buckets
    ensures forall i, j :: 0 <= i < j < |order| ==> order[i] != order[j]
  {
  }

  lemma IndexInRange(t: Table, i: nat)
    requires TableOk(t) && i in t.buckets
    ensures i < KEY_LENGTH_BITS
  {
  }

  /** In a reachable table, looking up, testing and removing an id through its one
      bucket agree with a linear scan of all contacts in any order. */
  lemma ScanAgrees(t: Table, now: nat, order: seq<nat>, id: NodeId)
    requires TableOk(t) && IsOrder(order, t)
    ensures TableContains(t, id) <==> exists c :: c in Scan(t, order) && c.id == id
    ensures TableLookup(t, id) == ScanFor(Scan(t, order), id)
    ensures TableRemove(t, id, now).1 == ScanFor(Scan(t, order), id)
  {
    hide BucketIndex, Scan, TableOk;
    ScanFinds(t, order, id);
    var all := Scan(t, order);
    assert (exists c :: c in all && c.id == id) <==> IndexOf(all, id) < |all| by {
      var n := IndexOf(all, id);
      if n < |all| {
        assert all[n] in all;
      }
    }
  }

  // ----- closest contacts -----

  lemma RankInjective(target: NodeId, c: Contact, d: Contact)
    requires RankTo(target)(c) == RankTo(target)(d)
    ensures c.id == d.id
  {
    hide IdValue, Distance;
    DistanceInjective(c.id, d.id, target);
  }

  lemma SameIdSameRank(target: NodeId, c: Contact, d: Contact)
    requires c.id == d.id
    ensures RankTo(target)(c) == RankTo(target)(d)
  {
    hide IdValue, Distance;
  }

  lemma SameRankSameBucket(t: Table, target: NodeId, v: nat, i: nat, c: Contact, j: nat)
    requires TableOk(t) && i in t.buckets && j in t.buckets && i != j
    requires c in t.buckets[i].nodes && RankTo(target)(c) == v
    ensures WithRank(t.buckets[j].nodes, v, RankTo(target)) == []
  {
    hide BucketIndex, RankTo;
    LocalNowhere(t, i, c);
    var s := t.buckets[j].nodes;
    forall n | 0 <= n < |s|
      ensures RankTo(target)(s[n]) != v
    {
      if RankTo(target)(s[n]) == v {
        RankInjective(target, c, s[n]);
        LocalNowhere(t, j, s[n]);
      }
    }
    NoneWithRank(s, v, RankTo(target));
  }

  /** The closest contacts do not depend on the order in which the hash map
      hands out the buckets. */
  lemma ClosestOrderFree(t: Table, target: NodeId, count: nat, one: seq<nat>, two: seq<nat>)
    requires TableOk(t) && IsOrder(one, t) && IsOrder(two, t)
    ensures ClosestTo(t, target, count, one) == ClosestTo(t, target, count, two)
  {
    hide RankTo, BucketIndex;
    var rank := RankTo(target);
    forall v: nat
      ensures WithRank(Scan(t, one), v, rank) == WithRank(Scan(t, two), v, rank)
    {
      var i := OneBucketPerRank(t, target, v);
      ScanOfOneBucket(t, one, v, rank, i);
      ScanOfOneBucket(t, two, v, rank, i);
    }
    SortOrderFree(Scan(t, one), Scan(t, two), rank);
  }

  lemma OneBucketPerRank(t: Table, target: NodeId, v: nat) returns (i: nat)
    requires TableOk(t)
    ensures forall j :: j in t.buckets && j != i ==> WithRank(t.buckets[j].nodes, v, RankTo(target)) == []
  {
    hide RankTo, BucketIndex;
    var rank := RankTo(target);
    if i', c :| i' in t.buckets && c in t.buckets[i'].nodes && rank(c) == v {
      i := i';
      forall j | j in t.buckets && j != i
        ensures WithRank(t.buckets[j].nodes, v, rank) == []
      {
        SameRankSameBucket(t, target, v, i, c, j);
      }
    } else {
      i := 0;
      forall j | j in t.buckets
        ensures WithRank(t.buckets[j].nodes, v, rank) == []
      {
        NoneWithRank(t.buckets[j].nodes, v, rank);
      }
    }
  }

  /** The closest contacts are, in order, the `count` nearest of all contacts; and
      with a positive count there are none only in an empty table. */
  lemma ClosestAreNearest(t: Table, target: NodeId, count: nat, order: seq<nat>)
    requires forall i :: i in order ==> i in t.buckets
    ensures IsNearest(ClosestTo(t, target, count, order), Scan(t, order), count, RankTo(target))
    ensures count > 0 ==> (ClosestTo(t, target, count, order) == [] <==> Scan(t, order) == [])
  {
    TopKIsNearest(Scan(t, order), count, RankTo(target));
  }
}
