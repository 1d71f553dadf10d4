/** What the bucket policy guarantees. */
module BucketPolicy {
  import opened Wrappers
  import opened NodeIds
  import opened Contacts
  import opened Buckets

  /** Every contact carries a time not after `now`, in queue order. */
  ghost predicate Chronological(nodes: seq<Contact>, now: nat) {
    && (forall i :: 0 <= i < |nodes| ==> nodes[i].lastSeen.At? && nodes[i].lastSeen.seconds <= now)
    && forall i, j :: 0 <= i < j < |nodes| ==> nodes[i].lastSeen.seconds <= nodes[j].lastSeen.seconds
  }

  ghost predicate Belongs(b: Bucket, c: Contact) {
    BucketIndex(b.localId, c.id) == Some(b.prefixLen)
  }

  ghost predicate AllBelong(b: Bucket, s: seq<Contact>) {
    forall i :: 0 <= i < |s| ==> Belongs(b, s[i])
  }

  /** What every reachable bucket satisfies, whatever the clock did. */
  ghost predicate BucketOk(b: Bucket) {
    && 1 <= b.k && |b.nodes| <= b.k
    && AllBelong(b, b.nodes)
    && AllBelong(b, b.cache)
    && DistinctIds(b.cache)
  }

  // ----- the queue step -----

  /** The queue with position `out` dropped, if there is one, and `c` put last. */
  ghost function Requeued(s: seq<Contact>, out: nat, c: Contact, now: nat): seq<Contact>
    requires out <= |s|
  {
    (if out < |s| then Without(s, out) else s) + [SeenAt(c, now)]
  }

  /** Every update either leaves the queue alone or is one queue step for the id. */
  lemma UpdateShape(b: Bucket, node: Contact, now: nat) returns (moved: bool, out: nat, c: Contact)
    requires b.k >= 1
    ensures moved <==> BucketUpdate(b, node, now).1 == Ok(Updated)
    ensures !moved ==> BucketUpdate(b, node, now).0.nodes == b.nodes
    ensures moved ==> out <= |b.nodes| && c.id == node.id != b.localId && (out == |b.nodes| ==> |b.nodes| < b.k)
    ensures moved ==> BucketUpdate(b, node, now).0 == b.(nodes := Requeued(b.nodes, out, c, now))
    ensures moved ==> out == if Holds(b, node.id) then IndexOf(b.nodes, node.id)
                             else if |b.nodes| < b.k then |b.nodes|
                             else if FirstUnreliable(b.nodes) < |b.nodes| then FirstUnreliable(b.nodes) else 0
    ensures moved ==> (Holds(b, node.id) ==> c == b.nodes[out]) && (!Holds(b, node.id) ==> c == node)
  {
    moved := BucketUpdate(b, node, now).1 == Ok(Updated);
    var pos, bad := IndexOf(b.nodes, node.id), FirstUnreliable(b.nodes);
    out := if pos < |b.nodes| then pos else if |b.nodes| < b.k then |b.nodes| else if bad < |b.nodes| then bad else 0;
    c := if pos < |b.nodes| then b.nodes[pos] else node;
    if |b.nodes| > 0 {
      assert Without(b.nodes, 0) == b.nodes[1..];
    }
  }

  lemma RequeuedChronological(s: seq<Contact>, out: nat, c: Contact, was: nat, now: nat)
    requires Chronological(s, was) && was <= now && out <= |s|
    ensures Chronological(Requeued(s, out, c, now), now)
  {
    var w := if out < |s| then Without(s, out) else s;
    forall i | 0 <= i < |w|
      ensures w[i] == s[if i < out then i else i + 1]
    {
    }
  }

  lemma DropChronological(s: seq<Contact>, out: nat, was: nat, now: nat)
    requires Chronological(s, was) && was <= now && out < |s|
    ensures Chronological(Without(s, out), now)
  {
    RequeuedChronological(s, out, s[out], was, now);
    var w := Without(s, out);
    assert w == (w + [SeenAt(s[out], now)])[..|w|];
  }

  lemma CachedBelongs(b: Bucket, node: Contact, now: nat)
    requires AllBelong(b, b.cache) && Belongs(b, node)
    ensures AllBelong(b, Cached(b.cache, node, now))
  {
    hide BucketIndex;
  }

  lemma RequeuedBelongs(b: Bucket, out: nat, c: Contact, now: nat)
    requires AllBelong(b, b.nodes) && Belongs(b, c) && out <= |b.nodes|
    ensures AllBelong(b, Requeued(b.nodes, out, c, now))
  {
    hide BucketIndex;
  }

  /** An update keeps capacity, placement and a cache free of duplicates. */
  lemma UpdateKeepsOk(b: Bucket, node: Contact, now: nat)
    requires BucketOk(b) && Belongs(b, node)
    ensures BucketOk(BucketUpdate(b, node, now).0)
  {
    hide BucketIndex, BucketUpdate, DistinctIds;
    UpdateKeepsDistinct(b, node, now);
    var moved, out, c := UpdateShape(b, node, now);
    if moved {
      RequeuedBelongs(b, out, c, now);
    } else {
      CachedBelongs(b, node, now);
      UnmovedUpdate(b, node, now);
    }
  }

  /** While the clock does not step back an update keeps the queue in time order. */
  lemma UpdateKeepsOrder(b: Bucket, node: Contact, was: nat, now: nat)
    requires b.k >= 1 && Chronological(b.nodes, was) && was <= now
    ensures Chronological(BucketUpdate(b, node, now).0.nodes, now)
  {
    hide BucketUpdate;
    var moved, out, c := UpdateShape(b, node, now);
    if moved {
      RequeuedChronological(b.nodes, out, c, was, now);
    }
  }

  lemma UnmovedUpdate(b: Bucket, node: Contact, now: nat)
    requires b.k >= 1 && BucketUpdate(b, node, now).1 != Ok(Updated)
    ensures BucketUpdate(b, node, now).0 == b || BucketUpdate(b, node, now).0 == b.(cache := Cached(b.cache, node, now))
  {
  }

  /** So does a removal. */
  lemma RemoveKeepsOk(b: Bucket, id: NodeId, now: nat)
    requires BucketOk(b)
    ensures BucketOk(BucketRemove(b, id, now).0)
  {
    hide BucketIndex;
  }

  lemma RemoveKeepsOrder(b: Bucket, id: NodeId, was: nat, now: nat)
    requires Chronological(b.nodes, was) && was <= now
    ensures Chronological(BucketRemove(b, id, now).0.nodes, now)
  {
    var pos := IndexOf(b.nodes, id);
    if pos < |b.nodes| {
      DropChronological(b.nodes, pos, was, now);
      if b.cache != [] {
        RequeuedChronological(b.nodes, pos, b.cache[0], was, now);
      }
    }
  }

  // ----- splitting -----

  /** The members whose bit at `prefixLen` is `bit`, in order, with the time `now`. */
  ghost function OnSide(s: seq<Contact>, prefixLen: nat, bit: bool, now: nat): seq<Contact> {
    if s == [] then []
    else
      var last := s[|s| - 1];
      OnSide(s[..|s| - 1], prefixLen, bit, now) +
      if BitAt(last.id, prefixLen) == bit then [last.(lastSeen := At(now))] else []
  }

  lemma {:induction false} OnSideMeans(s: seq<Contact>, prefixLen: nat, bit: bool, now: nat, id: NodeId)
    ensures (exists c :: c in OnSide(s, prefixLen, bit, now) && c.id == id) <==>
            (exists c :: c in s && c.id == id) && BitAt(id, prefixLen) == bit
    ensures |OnSide(s, prefixLen, bit, now)| <= |s|
  {
    hide BitAt;
    if s != [] {
      var most, last := s[..|s| - 1], s[|s| - 1];
      OnSideMeans(most, prefixLen, bit, now, id);
      assert s == most + [last];
      var moved := last.(lastSeen := At(now));
      var side, rest := OnSide(s, prefixLen, bit, now), OnSide(most, prefixLen, bit, now);
      if BitAt(last.id, prefixLen) == bit {
        assert side == rest + [moved] && moved in side;
        assert forall c :: c in side <==> c in rest || c == moved;
      } else {
        assert side == rest;
      }
    }
  }

  /** Splitting a bucket without duplicates puts each member, in order, into the half of
      its bit, and nobody into a cache. */
  lemma {:induction false} SplitParts(b: Bucket, bit: bool, count: nat, now: nat)
    requires 1 <= b.k && |b.nodes| <= b.k && DistinctIds(b.nodes) && count <= |b.nodes|
    requires forall c :: c in b.nodes ==> c.id != b.localId
    ensures SplitHalf(b, bit, count, now) ==
            Bucket(b.localId, b.k, b.prefixLen + 1, OnSide(b.nodes[..count], b.prefixLen, bit, now), [])
  {
    hide BitAt, BucketUpdate;
    if count > 0 {
      SplitParts(b, bit, count - 1, now);
      var node, r := b.nodes[count - 1], SplitHalf(b, bit, count - 1, now);
      assert b.nodes[..count][..count - 1] == b.nodes[..count - 1];
      OnSideMeans(b.nodes[..count - 1], b.prefixLen, bit, now, node.id);
      NewcomerAppended(r, node, now);
    }
  }

  /** A bucket is to be split exactly when it is full and both halves would get members. */
  lemma SplitsExactly(b: Bucket, now: nat)
    requires b.k >= 1
    ensures ShouldSplit(b) <==>
            |b.nodes| >= b.k &&
            OnSide(b.nodes, b.prefixLen, false, now) != [] && OnSide(b.nodes, b.prefixLen, true, now) != []
  {
    hide BitAt;
    SideTaken(b.nodes, b.prefixLen, false, now);
    SideTaken(b.nodes, b.prefixLen, true, now);
  }

  lemma {:induction false} SideTaken(s: seq<Contact>, prefixLen: nat, bit: bool, now: nat)
    ensures OnSide(s, prefixLen, bit, now) != [] <==> exists i :: 0 <= i < |s| && BitAt(s[i].id, prefixLen) == bit
  {
    hide BitAt;
    if s != [] {
      SideTaken(s[..|s| - 1], prefixLen, bit, now);
    }
  }

  lemma NewcomerAppended(b: Bucket, node: Contact, now: nat)
    requires |b.nodes| < b.k && node.id != b.localId && forall c :: c in b.nodes ==> c.id != node.id
    ensures BucketUpdate(b, node, now).0 == b.(nodes := b.nodes + [node.(lastSeen := At(now))])
  {
    var i := IndexOf(b.nodes, node.id);
    assert forall j :: 0 <= j < |b.nodes| ==> b.nodes[j] in b.nodes;
  }

  // ----- inactivity -----

  /** Looking at the front of the queue decides whether any member is inactive. */
  lemma FrontDecidesInactivity(b: Bucket, now: nat)
    requires Chronological(b.nodes, now) && b.nodes != []
    ensures !IsActive(b.nodes[0], now) <==> exists c :: c in b.nodes && !IsActive(c, now)
  {
    assert b.nodes[0] in b.nodes;
    forall c | c in b.nodes && !IsActive(c, now)
      ensures !IsActive(b.nodes[0], now)
    {
      var i :| 0 <= i < |b.nodes| && b.nodes[i] == c;
      if i > 0 {
        assert b.nodes[0].lastSeen.seconds <= b.nodes[i].lastSeen.seconds;
      }
    }
  }

  /** Neither unreliable nor inactive, in counters and seconds. */
  ghost predicate Healthy(c: Contact, now: nat) {
    && (c.stats.successes >= c.stats.failures || c.stats.successes + c.stats.failures >= WORD)
    && c.lastSeen.At? && now <= c.lastSeen.seconds + 900
  }

  lemma HealthyExactly(c: Contact, now: nat)
    ensures Healthy(c, now) <==> Reliable(c) && IsActive(c, now)
  {
    hide Reliable, IsActive;
    ReliableExactly(c);
    ActiveExactly(c, now);
  }

  /** What an update answers, by what a scan of all members would say. */
  lemma UpdateOutcome(b: Bucket, node: Contact, now: nat)
    requires BucketOk(b) && Chronological(b.nodes, now) && Belongs(b, node)
    ensures var r := BucketUpdate(b, node, now).1;
            var known := exists c :: c in b.nodes && c.id == node.id;
            var allHealthy := forall c :: c in b.nodes ==> Healthy(c, now);
            && (r == Ok(Updated) || (b.nodes != [] && r == Ok(PendingPing(b.nodes[0]))))
            && (r == Ok(Updated) <==> known || |b.nodes| < b.k || !allHealthy)
  {
    hide Reliable, IsActive, Healthy, BucketIndex;
    forall c | c in b.nodes
      ensures Healthy(c, now) <==> Reliable(c) && IsActive(c, now)
    {
      HealthyExactly(c, now);
    }
    BucketIndexNone(b.localId, node.id);
    if b.nodes != [] {
      FrontDecidesInactivity(b, now);
    }
    var i := IndexOf(b.nodes, node.id);
    assert i < |b.nodes| ==> b.nodes[i] in b.nodes;
    var u := FirstUnreliable(b.nodes);
    assert u < |b.nodes| ==> b.nodes[u] in b.nodes;
  }

  // ----- who leaves and who enters -----

  /** After dropping position `i` an id is left exactly when it has another copy. */
  lemma WithoutHolds(s: seq<Contact>, i: nat, id: NodeId)
    requires i < |s|
    ensures IndexOf(Without(s, i), id) < |s| - 1 <==> exists j :: 0 <= j < |s| && j != i && s[j].id == id
  {
    var w := Without(s, i);
    if j :| 0 <= j < |s| && j != i && s[j].id == id {
      assert w[if j < i then j else j - 1].id == id;
    }
    var n := IndexOf(w, id);
    if n < |w| {
      assert s[if n < i then n else n + 1].id == id;
    }
  }

  lemma SnocHolds(s: seq<Contact>, c: Contact, id: NodeId)
    ensures IndexOf(s + [c], id) < |s| + 1 <==> IndexOf(s, id) < |s| || c.id == id
  {
    var n := IndexOf(s, id);
    if n < |s| {
      assert (s + [c])[n].id == id;
    } else if c.id == id {
      assert (s + [c])[|s|].id == id;
    }
  }

  lemma RequeuedHolds(s: seq<Contact>, out: nat, c: Contact, now: nat, id: NodeId)
    requires out <= |s|
    ensures IndexOf(Requeued(s, out, c, now), id) < |Requeued(s, out, c, now)| <==>
            c.id == id || exists j :: 0 <= j < |s| && j != out && s[j].id == id
  {
    if out < |s| {
      WithoutHolds(s, out, id);
    }
    SnocHolds(if out < |s| then Without(s, out) else s, SeenAt(c, now), id);
  }

  /** The only two ways an update makes a member leave. */
  ghost predicate Evicts(b: Bucket, node: Contact, now: nat, y: NodeId) {
    && node.id != b.localId && !Holds(b, node.id) && |b.nodes| >= b.k
    && var bad := FirstUnreliable(b.nodes);
       if bad < |b.nodes| then b.nodes[bad].id == y
       else b.nodes != [] && b.nodes[0].id == y && !IsActive(b.nodes[0], now)
  }

  /** A member leaves on an update only as the first unreliable member, or as the
      inactive front when all are reliable; with distinct ids, exactly then. */
  lemma UpdateEvicts(b: Bucket, node: Contact, now: nat, y: NodeId)
    requires b.k >= 1 && Holds(b, y)
    ensures !Holds(BucketUpdate(b, node, now).0, y) ==> Evicts(b, node, now, y)
    ensures DistinctIds(b.nodes) ==> (!Holds(BucketUpdate(b, node, now).0, y) <==> Evicts(b, node, now, y))
  {
    var moved, out, c := UpdateShape(b, node, now);
    if moved {
      RequeuedHolds(b.nodes, out, c, now, y);
    }
  }

  /** Nobody leaves a bucket on an update but for bad statistics or age: a member
      that leaves has failed more often than it answered or has not been seen for
      more than 900 seconds, and the bucket was full. */
  lemma LeavesUnhealthy(b: Bucket, node: Contact, now: nat, c: Contact)
    requires b.k >= 1 && c in b.nodes && !Holds(BucketUpdate(b, node, now).0, c.id)
    ensures !Healthy(c, now) && |b.nodes| >= b.k
  {
    hide Reliable, IsActive, Healthy, BucketUpdate;
    HealthyExactly(c, now);
    var p :| 0 <= p < |b.nodes| && b.nodes[p] == c;
    var moved, out, d := UpdateShape(b, node, now);
    assert Holds(b, b.nodes[p].id);
    RequeuedHolds(b.nodes, out, d, now, c.id);
    MovedFor(b, node, now);
  }

  /** When a newcomer displaces a member of a full bucket, that member is unreliable
      or inactive. */
  lemma MovedFor(b: Bucket, node: Contact, now: nat)
    requires b.k >= 1 && BucketUpdate(b, node, now).1 == Ok(Updated) && !Holds(b, node.id) && |b.nodes| >= b.k
    ensures var u := FirstUnreliable(b.nodes);
            if u < |b.nodes| then !Reliable(b.nodes[u]) else !IsActive(b.nodes[0], now)
  {
    hide Reliable, IsActive;
  }

  /** Only the updated contact can enter on an update, and it does exactly when
      the update says so. */
  lemma UpdateAdmits(b: Bucket, node: Contact, now: nat, z: NodeId)
    requires b.k >= 1 && !Holds(b, z)
    ensures Holds(BucketUpdate(b, node, now).0, z) <==>
            z == node.id && BucketUpdate(b, node, now).1 == Ok(Updated)
  {
    var moved, out, c := UpdateShape(b, node, now);
    if moved {
      RequeuedHolds(b.nodes, out, c, now, z);
    }
  }

  /** Who is in the bucket after a removal. */
  lemma RemoveMembers(b: Bucket, id: NodeId, now: nat, y: NodeId)
    requires Holds(b, id)
    ensures Holds(BucketRemove(b, id, now).0, y) <==>
            || (exists j :: 0 <= j < |b.nodes| && j != IndexOf(b.nodes, id) && b.nodes[j].id == y)
            || (b.cache != [] && b.cache[0].id == y)
  {
    var pos := IndexOf(b.nodes, id);
    WithoutHolds(b.nodes, pos, y);
    if b.cache != [] {
      SnocHolds(Without(b.nodes, pos), SeenAt(b.cache[0], now), y);
    }
  }

  // ----- distinct ids -----

  lemma WithoutDistinct(s: seq<Contact>, i: nat)
    requires i < |s| && DistinctIds(s)
    ensures DistinctIds(Without(s, i))
  {
    var w := Without(s, i);
    forall j, l | 0 <= j < l < |w|
      ensures w[j].id != w[l].id
    {
      var j', l' := if j < i then j else j + 1, if l < i then l else l + 1;
      assert w[j] == s[j'] && w[l] == s[l'];
    }
  }

  lemma SnocDistinct(s: seq<Contact>, c: Contact)
    requires DistinctIds(s)
    ensures DistinctIds(s + [c]) <==> IndexOf(s, c.id) == |s|
  {
    var n := IndexOf(s, c.id);
    if n < |s| {
      assert (s + [c])[n].id == (s + [c])[|s|].id;
    }
  }

  lemma RequeuedDistinct(s: seq<Contact>, out: nat, c: Contact, now: nat)
    requires out <= |s| && DistinctIds(s)
    ensures DistinctIds(Requeued(s, out, c, now)) <==> !exists j :: 0 <= j < |s| && j != out && s[j].id == c.id
  {
    if out < |s| {
      WithoutDistinct(s, out);
      WithoutHolds(s, out, c.id);
    }
    SnocDistinct(if out < |s| then Without(s, out) else s, SeenAt(c, now));
  }

  /** An update never puts one id twice into a bucket, nor into its cache. */
  lemma UpdateKeepsDistinct(b: Bucket, node: Contact, now: nat)
    requires b.k >= 1
    ensures DistinctIds(b.nodes) ==> DistinctIds(BucketUpdate(b, node, now).0.nodes)
    ensures DistinctIds(b.cache) ==> DistinctIds(BucketUpdate(b, node, now).0.cache)
  {
    var moved, out, c := UpdateShape(b, node, now);
    if moved && DistinctIds(b.nodes) {
      RequeuedDistinct(b.nodes, out, c, now);
    }
    if DistinctIds(b.cache) {
      RequeuedDistinct(b.cache, IndexOf(b.cache, node.id), node, now);
    }
  }

  /** A removal keeps ids distinct exactly when the promoted contact is not
      already a member. */
  lemma RemoveKeepsDistinctExactly(b: Bucket, id: NodeId, now: nat)
    requires DistinctIds(b.nodes) && Holds(b, id)
    ensures DistinctIds(BucketRemove(b, id, now).0.nodes) <==>
            b.cache == [] || b.cache[0].id == id || !Holds(b, b.cache[0].id)
  {
    var pos := IndexOf(b.nodes, id);
    if b.cache == [] {
      WithoutDistinct(b.nodes, pos);
    } else {
      RequeuedDistinct(b.nodes, pos, b.cache[0], now);
    }
  }

  /** A removal leaves the id a member exactly when its own cached copy is promoted. */
  lemma RemoveRemovesExactly(b: Bucket, id: NodeId, now: nat)
    requires DistinctIds(b.nodes) && Holds(b, id)
    ensures !Holds(BucketRemove(b, id, now).0, id) <==> b.cache == [] || b.cache[0].id != id
  {
    RemoveMembers(b, id, now, id);
  }

  /** A run of one bucket of capacity two from empty: `a` and `b` enter, `c` is
      cached, and `c` enters once the front has gone inactive. */
  function CachedMember(local: NodeId, prefixLen: nat, a: Contact, b: Contact, c: Contact): Bucket
  {
    var s1 := BucketUpdate(NewBucket(local, prefixLen, 2), a, 0).0;
    var s2 := BucketUpdate(s1, b, 0).0;
    var s3 := BucketUpdate(s2, c, 0).0;
    BucketUpdate(s3, c, NODE_TIMEOUT + 1).0
  }

  lemma CachedMemberIs(local: NodeId, prefixLen: nat, a: Contact, b: Contact, c: Contact)
    requires a.id != local && b.id != local && c.id != local
    requires a.id != b.id && a.id != c.id && b.id != c.id
    requires Reliable(a) && Reliable(b)
    ensures CachedMember(local, prefixLen, a, b, c) ==
            Bucket(local, 2, prefixLen, [SeenAt(b, 0), SeenAt(c, NODE_TIMEOUT + 1)], [SeenAt(c, 0)])
  {
    var s1 := BucketUpdate(NewBucket(local, prefixLen, 2), a, 0).0;
    assert s1.nodes == [SeenAt(a, 0)];
    var s2 := BucketUpdate(s1, b, 0).0;
    assert s2.nodes == [SeenAt(a, 0), SeenAt(b, 0)];
    var s3 := BucketUpdate(s2, c, 0).0;
    assert s3 == s2.(cache := [SeenAt(c, 0)]);
    var s4 := BucketUpdate(s3, c, NODE_TIMEOUT + 1).0;
    assert s4.nodes == [SeenAt(b, 0), SeenAt(c, NODE_TIMEOUT + 1)];
  }

  /** Removing `c` from that bucket returns it and leaves it a member: its own
      cached copy is promoted. */
  lemma RemoveCanLeaveTheRemoved(local: NodeId, prefixLen: nat, a: Contact, b: Contact, c: Contact)
    requires a.id != local && b.id != local && c.id != local
    requires a.id != b.id && a.id != c.id && b.id != c.id
    requires Reliable(a) && Reliable(b)
    ensures var s := CachedMember(local, prefixLen, a, b, c);
            var (s', removed) := BucketRemove(s, c.id, NODE_TIMEOUT + 1);
            && DistinctIds(s.nodes) && removed == Some(SeenAt(c, NODE_TIMEOUT + 1))
            && s'.nodes == [SeenAt(b, 0), SeenAt(c, NODE_TIMEOUT + 1)] && Holds(s', c.id)
  {
    hide CachedMember;
    CachedMemberIs(local, prefixLen, a, b, c);
    var s := CachedMember(local, prefixLen, a, b, c);
    assert s.nodes[1..] == [SeenAt(c, NODE_TIMEOUT + 1)];
    assert IndexOf(s.nodes, c.id) == 1;
    RemoveMembers(s, c.id, NODE_TIMEOUT + 1, c.id);
  }

  /** Removing `b` from it instead promotes `c` once more: one id twice. */
  lemma RemoveCanDuplicate(local: NodeId, prefixLen: nat, a: Contact, b: Contact, c: Contact)
    requires a.id != local && b.id != local && c.id != local
    requires a.id != b.id && a.id != c.id && b.id != c.id
    requires Reliable(a) && Reliable(b)
    ensures BucketRemove(CachedMember(local, prefixLen, a, b, c), b.id, NODE_TIMEOUT + 1).0.nodes ==
            [SeenAt(c, NODE_TIMEOUT + 1), SeenAt(c, NODE_TIMEOUT + 1)]
  {
    hide CachedMember;
    CachedMemberIs(local, prefixLen, a, b, c);
  }
}
