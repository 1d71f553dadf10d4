/** What recording a contact comes to: without a ping, after an answered one, and
    after one that was not answered. */
module PingOutcomes {
  import opened Wrappers
  import opened NodeIds
  import opened Contacts
  import opened Buckets
  import opened BucketPolicy
  import opened Replacements
  import opened RoutingTables
  import opened TableRuns
  import opened ContactProtocol

  // ----- without a ping -----

  /** A newcomer has to wait for a ping exactly when its bucket is full and nobody in
      it is unhealthy.  Otherwise the contact is in the table afterwards, last in its
      bucket with the time of the update, and is reported as new unless it was known. */
  lemma WaitsExactly(t: Table, node: Contact, ping: Ping, times: Times, i: nat)
    requires TableOk(t) && Uniform(t) && InTimeOrder(t, times.update)
    requires BucketIndex(t.localId, node.id) == Some(i)
    ensures var b := BucketAt(t, i);
            var waits := |b.nodes| >= b.k && forall c :: c in b.nodes ==> c.id != node.id && Healthy(c, times.update);
            var r := TableUpdate(t, node, times.update).1;
            && (waits <==> r.Ok? && r.value.PendingPing?)
            && (waits ==> r == Ok(PendingPing(b.nodes[0])))
            && (!waits ==> KeptLast(AfterContact(t, node, ping, times).0, i, node.id, times.update) &&
                           AfterContact(t, node, ping, times).1 == Ok(!TableContains(t, node.id)))
  {
    hide BucketIndex, BucketUpdate, TableUpdate, Healthy, Chronological, Holds, BucketOk;
    UpdateIsPlain(t, node, times.update);
    BucketIndexNone(t.localId, node.id);
    BucketIndexBound(t.localId, node.id);
    var b := BucketAt(t, i);
    assert BucketOk(b) && Chronological(b.nodes, times.update) by {
      EmptyInOrder(times.update);
      NewIsOk(t, i);
    }
    UpdateOutcome(b, node, times.update);
    if BucketUpdate(b, node, times.update).1 == Ok(Updated) {
      UpdatedIsLast(b, node, times.update);
    }
  }

  ghost predicate KeptLast(t: Table, i: nat, id: NodeId, now: nat) {
    && i in t.buckets && t.buckets[i].nodes != []
    && var last := t.buckets[i].nodes[|t.buckets[i].nodes| - 1];
       last.id == id && last.lastSeen == At(now)
  }

  lemma NewIsOk(t: Table, i: nat)
    requires TableOk(t)
    ensures BucketOk(BucketAt(t, i))
  {
  }

  lemma UpdatedIsLast(b: Bucket, node: Contact, now: nat)
    requires b.k >= 1 && BucketUpdate(b, node, now).1 == Ok(Updated)
    ensures var s := BucketUpdate(b, node, now).0.nodes;
            s != [] && s[|s| - 1].id == node.id && s[|s| - 1].lastSeen == At(now)
  {
    hide BucketUpdate;
    var moved, out, c := UpdateShape(b, node, now);
  }

  // ----- the bucket after a ping -----

  /** Touching a member of a bucket without duplicates moves it to the end with the new
      time and changes nothing else. */
  lemma TouchMoves(t: Table, id: NodeId, change: Contact -> Contact, now: nat, i: nat, c: Contact)
    requires Uniform(t) && id != t.localId && BucketIndex(t.localId, id) == Some(i) && i in t.buckets
    requires DistinctIds(t.buckets[i].nodes) && c in t.buckets[i].nodes && c.id == id
    requires forall d: Contact :: change(d).id == d.id
    ensures var b := t.buckets[i];
            Touch(t, id, change, now) ==
            (t.(buckets := t.buckets[i := b.(nodes := Others(b.nodes, id) + [c.(lastSeen := At(now))])]), Ok(()))
  {
    hide BucketIndex;
    var s := t.buckets[i].nodes;
    var p :| 0 <= p < |s| && s[p] == c;
    assert IndexOf(s, id) == p;
    WithoutIsOthers(s, id);
    TouchRefreshes(t, id, change, now);
  }

  lemma OthersAgain(s: seq<Contact>, c: Contact)
    requires DistinctIds(s)
    ensures var r := Others(s, c.id) + [c];
            DistinctIds(r) && c in r && Others(r, c.id) == Others(s, c.id)
    ensures forall d :: d in Others(s, c.id) ==> d in s && d.id != c.id
  {
    OthersMeans(s, c.id);
    OthersDistinct(s, c.id);
    var r := Others(s, c.id);
    OthersOfAbsent(r, c.id);
    OthersOfLast(r, c);
  }

  lemma {:induction false} OthersMeans(s: seq<Contact>, id: NodeId)
    ensures forall d :: d in Others(s, id) <==> d in s && d.id != id
  {
    if s != [] {
      OthersMeans(s[1..], id);
      assert s == [s[0]] + s[1..];
    }
  }

  lemma {:induction false} OthersDistinct(s: seq<Contact>, id: NodeId)
    requires DistinctIds(s)
    ensures DistinctIds(Others(s, id))
  {
    if s != [] {
      OthersDistinct(s[1..], id);
      OthersMeans(s[1..], id);
    }
  }

  lemma {:induction false} OthersOfLast(s: seq<Contact>, c: Contact)
    requires forall d :: d in s ==> d.id != c.id
    ensures Others(s + [c], c.id) == s
  {
    if s == [] {
      assert Others([c], c.id) == [] + Others([], c.id);
    } else {
      assert (s + [c])[1..] == s[1..] + [c];
      OthersOfLast(s[1..], c);
    }
  }

  /** A health check that gets an answer or times out moves the contact to the end with
      the time of the check; one broken off changes nothing. */
  lemma HealthCheckRefreshes(t: Table, c: Contact, ping: Ping, now: nat, i: nat)
    requires Uniform(t) && c.id != t.localId && BucketIndex(t.localId, c.id) == Some(i) && i in t.buckets
    requires DistinctIds(t.buckets[i].nodes) && c in t.buckets[i].nodes
    ensures var b := t.buckets[i];
            HealthCheck(t, c.id, ping, now) ==
            if ping.Broken? then t
            else t.(buckets := t.buckets[i := b.(nodes := Others(b.nodes, c.id) + [c.(lastSeen := At(now))])])
  {
    hide BucketIndex, Touch, Others, DistinctIds;
    if ping.Answered? {
      TouchMoves(t, c.id, SuccessChange(now), now, i, c);
    } else if ping.TimedOut? {
      TouchMoves(t, c.id, FailureChange(), now, i, c);
    }
  }

  /** The bucket with everyone behind the front moved up and `c` put last. */
  function Advanced(b: Bucket, c: Contact): Bucket
    requires b.nodes != []
  {
    b.(nodes := b.nodes[1..] + [c])
  }

  /** A pending ping: the front is asked about, and the newcomer waits last. */
  lemma PendingIs(t: Table, node: Contact, now: nat, front: Contact, i: nat)
    requires TableOk(t) && Uniform(t)
    requires TableUpdate(t, node, now).1 == Ok(PendingPing(front))
    requires BucketIndex(t.localId, node.id) == Some(i) && i in t.buckets
    ensures var b := t.buckets[i];
            && b.nodes != [] && front == b.nodes[0]
            && BucketIndex(t.localId, front.id) == Some(i) && front.id != t.localId && node.id != t.localId
            && TableUpdate(t, node, now).0 == t.(buckets := t.buckets[i := b.(cache := NowWaiting(b, node, now))])
            && |b.nodes| >= b.k && (forall c :: c in b.nodes ==> Reliable(c) && c.id != node.id)
  {
    hide BucketIndex, Reliable, IsActive;
    UpdateIsPlain(t, node, now);
    var b := t.buckets[i];
    UpdateCaches(b, node, now);
    PendingPingShape(b, node, now);
    LocalNowhere(t, i, front);
  }

  /** Who waits once `node` has been told to. */
  ghost function NowWaiting(b: Bucket, node: Contact, now: nat): seq<Contact> {
    Others(b.cache, node.id) + [node.(lastSeen := At(now))]
  }

  /** An answered ping in a bucket without duplicates: the front goes last with the
      time at which it was noted as seen, the other members keep their order, the
      newcomer waits last, and nothing else changes. */
  lemma AnsweredPingMovesFront(t: Table, node: Contact, times: Times, front: Contact, i: nat)
    requires TableOk(t) && Uniform(t)
    requires TableUpdate(t, node, times.update).1 == Ok(PendingPing(front))
    requires BucketIndex(t.localId, node.id) == Some(i) && i in t.buckets && DistinctIds(t.buckets[i].nodes)
    ensures t.buckets[i].nodes != []
    ensures var b := t.buckets[i];
            var b' := Advanced(b, front.(lastSeen := At(times.settle))).(cache := NowWaiting(b, node, times.update));
            AfterContact(t, node, Answered, times) == (t.(buckets := t.buckets[i := b']), Ok(false))
  {
    hide BucketIndex, TableUpdate, Touch, HealthCheck, Others, DistinctIds, BucketOk;
    PendingIs(t, node, times.update, front, i);
    var t1 := TableUpdate(t, node, times.update).0;
    FrontTouchedTwice(t1, front, times, i);
    TwoWrites(t.buckets, i, t1.buckets[i], Advanced(t1.buckets[i], front.(lastSeen := At(times.settle))));
  }

  lemma TwoWrites(m: map<nat, Bucket>, i: nat, b: Bucket, c: Bucket)
    ensures m[i := b][i := c] == m[i := c]
  {
  }

  lemma FrontTouchedTwice(t: Table, front: Contact, times: Times, i: nat)
    requires Uniform(t) && front.id != t.localId && BucketIndex(t.localId, front.id) == Some(i) && i in t.buckets
    requires DistinctIds(t.buckets[i].nodes) && t.buckets[i].nodes != [] && front == t.buckets[i].nodes[0]
    ensures var checked := HealthCheck(t, front.id, Answered, times.ping);
            Touch(checked, front.id, SeenChange(times.settle), times.settle) ==
            (t.(buckets := t.buckets[i := Advanced(t.buckets[i], front.(lastSeen := At(times.settle)))]), Ok(()))
  {
    hide BucketIndex, Touch, Others, DistinctIds;
    var s := t.buckets[i].nodes;
    FirstOthers(s);
    HealthCheckRefreshes(t, front, Answered, times.ping, i);
    var pinged := front.(lastSeen := At(times.ping));
    OthersAgain(s, pinged);
    var t' := HealthCheck(t, front.id, Answered, times.ping);
    TouchMoves(t', front.id, SeenChange(times.settle), times.settle, i, pinged);
    TwoWrites(t.buckets, i, t'.buckets[i], Advanced(t.buckets[i], front.(lastSeen := At(times.settle))));
  }

  /** After an answered ping the next newcomer asks about the contact that was second,
      if that one is still active then. */
  lemma NextPingIsForTheSecond(t: Table, node: Contact, times: Times, front: Contact, i: nat, other: Contact, now: nat)
    requires TableOk(t) && Uniform(t)
    requires TableUpdate(t, node, times.update).1 == Ok(PendingPing(front))
    requires BucketIndex(t.localId, node.id) == Some(i) && i in t.buckets && DistinctIds(t.buckets[i].nodes)
    requires BucketIndex(t.localId, other.id) == Some(i) && !TableContains(t, other.id)
    requires |t.buckets[i].nodes| >= 2 && Healthy(t.buckets[i].nodes[1], now)
    ensures var t' := AfterContact(t, node, Answered, times).0;
            TableUpdate(t', other, now).1 == Ok(PendingPing(t.buckets[i].nodes[1]))
  {
    hide BucketIndex, TableUpdate, Others, DistinctIds, BucketOk, Reliable, IsActive, Healthy, Settle;
    AnsweredPingMovesFront(t, node, times, front, i);
    InsertedMeansNew(t, node, Answered, times);
    PendingIs(t, node, times.update, front, i);
    var t' := AfterContact(t, node, Answered, times).0;
    var s, b' := t.buckets[i].nodes, t'.buckets[i];
    UpdateIsPlain(t', other, now);
    HealthyExactly(s[1], now);
    BucketIndexNone(t.localId, other.id);
    assert forall c :: c in b'.nodes ==> Reliable(c) by {
      SameStats(front, times.settle);
    }
    NotInside(s, other.id);
    assert !Holds(b', other.id);
    FullAndReliable(b', other, now);
  }

  lemma SameStats(c: Contact, now: nat)
    ensures Reliable(c.(lastSeen := At(now))) == Reliable(c)
  {
  }

  lemma NotInside(s: seq<Contact>, id: NodeId)
    requires IndexOf(s, id) == |s|
    ensures forall c :: c in s ==> c.id != id
  {
  }

  lemma FullAndReliable(b: Bucket, node: Contact, now: nat)
    requires b.k >= 1 && |b.nodes| >= b.k && node.id != b.localId && !Holds(b, node.id)
    requires (forall c :: c in b.nodes ==> Reliable(c)) && IsActive(b.nodes[0], now)
    ensures BucketUpdate(b, node, now).1 == Ok(PendingPing(b.nodes[0]))
  {
    hide Reliable, IsActive;
    assert forall j :: 0 <= j < |b.nodes| ==> Reliable(b.nodes[j]);
  }

  /** The bucket of the front once the front has been removed: the next in line has
      its place. */
  ghost function Replaced(b: Bucket, waiting: seq<Contact>, now: nat): Bucket
    requires b.nodes != [] && waiting != []
  {
    Advanced(b, waiting[0].(lastSeen := At(now))).(cache := waiting[1..])
  }

  /** A ping that is not answered, in a bucket without duplicates: the front is gone,
      whoever is next in line has entered, and then the newcomer is tried once more. */
  lemma UnansweredPingReplacesFront(t: Table, node: Contact, ping: Ping, times: Times, front: Contact, i: nat)
    requires TableOk(t) && Uniform(t) && !ping.Answered?
    requires TableUpdate(t, node, times.update).1 == Ok(PendingPing(front))
    requires BucketIndex(t.localId, node.id) == Some(i) && i in t.buckets && DistinctIds(t.buckets[i].nodes)
    ensures t.buckets[i].nodes != []
    ensures var b := t.buckets[i];
            var b' := Replaced(b, NowWaiting(b, node, times.update), times.settle);
            AfterContact(t, node, ping, times).0 ==
            t.(buckets := t.buckets[i := BucketUpdate(b', node, times.retry).0])
  {
    hide BucketIndex, TableUpdate, Touch, TableRemove, BucketUpdate, Others, DistinctIds, BucketOk;
    PendingIs(t, node, times.update, front, i);
    UpdateIsPlain(t, node, times.update);
    var b, t1 := t.buckets[i], TableUpdate(t, node, times.update).0;
    FirstOthers(b.nodes);
    var checked := HealthCheck(t1, front.id, ping, times.ping);
    HealthCheckKeeps(t1, front.id, ping, times.ping, front.id);
    HealthCheckRefreshes(t1, front, ping, times.ping, i);
    RemovalKeepsOk(checked, front.id, times.settle);
    FrontRemoved(b, front, ping, times, NowWaiting(b, node, times.update));
    var t2 := WithoutFront(t1, front.id, ping, times);
    var b' := Replaced(b, NowWaiting(b, node, times.update), times.settle);
    assert t2 == t.(buckets := t.buckets[i := b']) by {
      RemovedAt(checked, front.id, times.settle, i);
    }
    UpdateIsPlain(t2, node, times.retry);
  }

  lemma RemovedAt(t: Table, id: NodeId, now: nat, i: nat)
    requires BucketIndex(t.localId, id) == Some(i) && i in t.buckets
    ensures TableRemove(t, id, now).0 == t.(buckets := t.buckets[i := BucketRemove(t.buckets[i], id, now).0])
  {
  }

  /** The removal itself, whether the health check had moved the front or not. */
  lemma FrontRemoved(b: Bucket, front: Contact, ping: Ping, times: Times, waiting: seq<Contact>)
    requires b.nodes != [] && front == b.nodes[0] && DistinctIds(b.nodes) && waiting != [] && !ping.Answered?
    ensures var moved := Advanced(b, front.(lastSeen := At(times.ping)));
            var checked := (if ping.TimedOut? then moved else b).(cache := waiting);
            BucketRemove(checked, front.id, times.settle).0 == Replaced(b, waiting, times.settle)
  {
    FirstOthers(b.nodes);
    var pinged := front.(lastSeen := At(times.ping));
    OthersAgain(b.nodes, pinged);
    var s := if ping.TimedOut? then b.nodes[1..] + [pinged] else b.nodes;
    assert pinged in b.nodes[1..] + [pinged];
    WithoutIsOthers(s, front.id);
    assert s[if ping.TimedOut? then |s| - 1 else 0].id == front.id;
    assert IndexOf(s, front.id) < |s|;
  }

  /** When nobody else waits the newcomer takes the place of the front. */
  lemma NewcomerTakesThePlace(t: Table, node: Contact, ping: Ping, times: Times, front: Contact, i: nat)
    requires TableOk(t) && Uniform(t) && !ping.Answered?
    requires TableUpdate(t, node, times.update).1 == Ok(PendingPing(front))
    requires BucketIndex(t.localId, node.id) == Some(i) && i in t.buckets && DistinctIds(t.buckets[i].nodes)
    requires forall c :: c in t.buckets[i].cache ==> c.id == node.id
    ensures t.buckets[i].nodes != []
    ensures var b := t.buckets[i];
            AfterContact(t, node, ping, times) ==
            (t.(buckets := t.buckets[i := Advanced(b, node.(lastSeen := At(times.retry))).(cache := [])]), Ok(true))
  {
    hide BucketIndex, TableUpdate, DistinctIds, BucketOk, AfterContact, BucketUpdate, TableContains, Reliable;
    UnansweredPingReplacesFront(t, node, ping, times, front, i);
    InsertedMeansNew(t, node, ping, times);
    PendingIs(t, node, times.update, front, i);
    PendingPingKeepsMembers(t, node, times.update, node.id);
    var b := t.buckets[i];
    NoOthers(b.cache, node.id);
    var b' := Replaced(b, NowWaiting(b, node, times.update), times.settle);
    KnownLast(b', b.nodes[1..], node, times.settle, times.retry);
    LastIsContained(AfterContact(t, node, ping, times).0, i, node.id);
  }

  lemma LastIsContained(t: Table, i: nat, id: NodeId)
    requires BucketIndex(t.localId, id) == Some(i) && i in t.buckets && t.buckets[i].nodes != []
    requires t.buckets[i].nodes[|t.buckets[i].nodes| - 1].id == id
    ensures TableContains(t, id)
  {
  }

  lemma {:induction false} NoOthers(s: seq<Contact>, id: NodeId)
    requires forall c :: c in s ==> c.id == id
    ensures Others(s, id) == []
  {
    if s != [] {
      NoOthers(s[1..], id);
    }
  }

  lemma KnownLast(b: Bucket, s: seq<Contact>, node: Contact, was: nat, now: nat)
    requires b.k >= 1 && b.nodes == s + [node.(lastSeen := At(was))] && node.id != b.localId
    requires forall c :: c in s ==> c.id != node.id
    ensures BucketUpdate(b, node, now).0 == b.(nodes := s + [node.(lastSeen := At(now))])
  {
    assert b.nodes[|s|].id == node.id;
    assert forall j :: 0 <= j < |s| ==> b.nodes[j] == s[j];
    assert IndexOf(b.nodes, node.id) == |s|;
  }

  // ----- who is a member after a ping -----

  /** What a pending ping comes to in a bucket without duplicates.  Answered: the
      front stays and the newcomer is not let in.  Not answered: the
      front leaves unless its own cached copy is next in line, and the newcomer
      takes the place when nobody else is waiting. */
  lemma PingDecides(t: Table, node: Contact, ping: Ping, times: Times, front: Contact, i: nat)
    requires TableOk(t) && Uniform(t)
    requires TableUpdate(t, node, times.update).1 == Ok(PendingPing(front))
    requires BucketIndex(t.localId, node.id) == Some(i) && i in t.buckets && DistinctIds(t.buckets[i].nodes)
    ensures var (t', r) := AfterContact(t, node, ping, times);
            var waiting := NowWaiting(t.buckets[i], node, times.update);
            && (ping.Answered? ==> TableContains(t', front.id) && !TableContains(t', node.id) && r == Ok(false))
            && (!ping.Answered? && waiting[0].id != front.id ==> !TableContains(t', front.id))
            && (!ping.Answered? && |waiting| == 1 ==> TableContains(t', node.id) && r == Ok(true))
  {
    hide BucketIndex, TableUpdate, BucketUpdate, DistinctIds, BucketOk, AfterContact, Others;
    PendingIs(t, node, times.update, front, i);
    var b := t.buckets[i];
    if ping.Answered? {
      AnsweredPingMovesFront(t, node, times, front, i);
      LastHolds(b.nodes[1..], front.(lastSeen := At(times.settle)), node.id);
      LastHolds(b.nodes[1..], front.(lastSeen := At(times.settle)), front.id);
    } else {
      UnansweredPingReplacesFront(t, node, ping, times, front, i);
      var waiting := NowWaiting(b, node, times.update);
      if waiting[0].id != front.id {
        FirstOthers(b.nodes);
        OthersMeans(b.nodes, front.id);
        var b' := Replaced(b, waiting, times.settle);
        LastHolds(b.nodes[1..], waiting[0].(lastSeen := At(times.settle)), front.id);
        UpdateAdmits(b', node, times.retry, front.id);
      }
      if |waiting| == 1 {
        OthersMeans(b.cache, node.id);
        NewcomerTakesThePlace(t, node, ping, times, front, i);
        LastHolds(b.nodes[1..], node.(lastSeen := At(times.retry)), node.id);
      }
    }
  }

  lemma LastHolds(s: seq<Contact>, c: Contact, id: NodeId)
    ensures IndexOf(s + [c], id) < |s| + 1 <==> c.id == id || exists d :: d in s && d.id == id
  {
    SnocHolds(s, c, id);
    if IndexOf(s, id) < |s| {
      assert s[IndexOf(s, id)] in s;
    }
  }
}
