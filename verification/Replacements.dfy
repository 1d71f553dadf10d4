/** The replacement cache of a bucket: contacts that wait for a place, in the order
    in which they were last recorded. */
module Replacements {
  import opened Wrappers
  import opened NodeIds
  import opened Contacts
  import opened Buckets
  import opened BucketPolicy

  /** The contacts with other ids, in their order. */
  ghost function Others(s: seq<Contact>, id: NodeId): seq<Contact> {
    if s == [] then [] else (if s[0].id == id then [] else [s[0]]) + Others(s[1..], id)
  }

  lemma {:induction false} OthersOfAbsent(s: seq<Contact>, id: NodeId)
    requires forall i :: 0 <= i < |s| ==> s[i].id != id
    ensures Others(s, id) == s
  {
    if s != [] {
      OthersOfAbsent(s[1..], id);
    }
  }

  /** Without duplicates, dropping the first copy drops the only one. */
  lemma {:induction false} WithoutIsOthers(s: seq<Contact>, id: NodeId)
    requires DistinctIds(s)
    ensures Others(s, id) == if IndexOf(s, id) < |s| then Without(s, IndexOf(s, id)) else s
  {
    hide Without, IndexOf;
    if s == [] {
    } else if s[0].id == id {
      OthersOfAbsent(s[1..], id);
      FirstWithout(s, id);
    } else {
      WithoutIsOthers(s[1..], id);
      LaterWithout(s, id);
    }
  }

  lemma FirstWithout(s: seq<Contact>, id: NodeId)
    requires s != [] && s[0].id == id
    ensures IndexOf(s, id) == 0 && Without(s, 0) == s[1..]
  {
  }

  lemma LaterWithout(s: seq<Contact>, id: NodeId)
    requires s != [] && s[0].id != id
    ensures IndexOf(s, id) == 1 + IndexOf(s[1..], id)
    ensures IndexOf(s[1..], id) < |s| - 1 ==>
            Without(s, IndexOf(s, id)) == [s[0]] + Without(s[1..], IndexOf(s[1..], id))
  {
  }

  // ----- who waits, and who is next -----

  /** A newcomer that has to wait goes last, and the others keep their order; no other
      update touches the cache. */
  lemma UpdateCaches(b: Bucket, node: Contact, now: nat)
    requires BucketOk(b)
    ensures var (b', r) := BucketUpdate(b, node, now);
            if r.Ok? && r.value.PendingPing?
            then b' == b.(cache := Others(b.cache, node.id) + [node.(lastSeen := At(now))])
            else b'.cache == b.cache
  {
    hide BucketIndex, IndexOf, FirstUnreliable, Reliable, IsActive, AllBelong;
    WithoutIsOthers(b.cache, node.id);
  }

  /** A removal promotes the contact that waited longest: it becomes the last member
      with the time of the removal and waits no longer, while the rest keep waiting
      in their order.  When nobody waits the cache stays empty. */
  lemma RemovePromotes(b: Bucket, id: NodeId, now: nat)
    requires BucketOk(b) && Holds(b, id)
    ensures var b' := BucketRemove(b, id, now).0;
            if b.cache == [] then b'.cache == [] && |b'.nodes| == |b.nodes| - 1
            else
              var next := b.cache[0];
              && |b'.nodes| == |b.nodes| && b'.nodes[|b.nodes| - 1] == next.(lastSeen := At(now))
              && b'.cache == Others(b.cache, next.id) && |b'.cache| == |b.cache| - 1
              && next.id !in IdsOf(b'.cache)
    ensures DistinctIds(b.nodes) ==> Others(b.nodes, id) <= BucketRemove(b, id, now).0.nodes
  {
    hide BucketIndex;
    if DistinctIds(b.nodes) {
      WithoutIsOthers(b.nodes, id);
    }
    if b.cache != [] {
      WithoutIsOthers(b.cache, b.cache[0].id);
      assert forall i :: 0 < i < |b.cache| ==> b.cache[i].id != b.cache[0].id;
    }
  }

  /** A removal of a member, at a time. */
  datatype Removal = Removal(id: NodeId, time: nat)

  function AfterRemovals(b: Bucket, removals: seq<Removal>): Bucket {
    if removals == [] then b
    else
      var last := removals[|removals| - 1];
      BucketRemove(AfterRemovals(b, removals[..|removals| - 1]), last.id, last.time).0
  }

  /** Each removal finds a member. */
  ghost predicate AllFound(b: Bucket, removals: seq<Removal>) {
    forall n :: 0 <= n < |removals| ==> Holds(AfterRemovals(b, removals[..n]), removals[n].id)
  }

  /** Whoever waits is promoted in turn: after n removals the first n are gone from the
      cache, and the one promoted last is the last member. */
  lemma {:induction false} PromotedInOrder(b: Bucket, removals: seq<Removal>)
    requires BucketOk(b) && AllFound(b, removals) && |removals| <= |b.cache|
    ensures var b', n := AfterRemovals(b, removals), |removals|;
            && BucketOk(b') && |b'.nodes| == |b.nodes| && b'.cache == b.cache[n..]
            && (n > 0 ==> b'.nodes != [] &&
                          b'.nodes[|b'.nodes| - 1] == b.cache[n - 1].(lastSeen := At(removals[n - 1].time)))
  {
    hide BucketRemove, BucketOk, Holds, AllFound;
    if removals != [] {
      var n := |removals| - 1;
      FoundEarlier(b, removals);
      PromotedInOrder(b, removals[..n]);
      PromotesNext(AfterRemovals(b, removals[..n]), removals[n]);
    }
  }

  lemma FoundEarlier(b: Bucket, removals: seq<Removal>)
    requires AllFound(b, removals) && removals != []
    ensures var n := |removals| - 1;
            AllFound(b, removals[..n]) && Holds(AfterRemovals(b, removals[..n]), removals[n].id)
  {
    hide Holds, AfterRemovals;
    var most := removals[..|removals| - 1];
    forall m | 0 <= m < |most|
      ensures Holds(AfterRemovals(b, most[..m]), most[m].id)
    {
      assert most[..m] == removals[..m];
    }
  }

  lemma PromotesNext(b: Bucket, r: Removal)
    requires BucketOk(b) && Holds(b, r.id) && b.cache != []
    ensures var b' := BucketRemove(b, r.id, r.time).0;
            && BucketOk(b') && |b'.nodes| == |b.nodes| > 0 && b'.cache == b.cache[1..]
            && b'.nodes[|b'.nodes| - 1] == b.cache[0].(lastSeen := At(r.time))
  {
    hide BucketIndex, BucketRemove, AllBelong, Others, Holds;
    RemoveKeepsOk(b, r.id, r.time);
    RemovePromotes(b, r.id, r.time);
    HoldsSomebody(b, r.id);
    FirstOthers(b.cache);
  }

  lemma HoldsSomebody(b: Bucket, id: NodeId)
    requires Holds(b, id)
    ensures b.nodes != []
  {
  }

  lemma FirstOthers(s: seq<Contact>)
    requires DistinctIds(s) && s != []
    ensures Others(s, s[0].id) == s[1..]
  {
    WithoutIsOthers(s, s[0].id);
  }

  /** Of two newcomers that have to wait, the one recorded first is promoted first:
      when enough members have been removed for it to enter, the other still waits. */
  lemma EarlierPromotedFirst(b: Bucket, c: Contact, d: Contact, one: nat, two: nat, removals: seq<Removal>)
    requires BucketOk(b) && Belongs(b, c) && Belongs(b, d) && c.id != d.id
    requires var (b1, r1) := BucketUpdate(b, c, one);
             var (b2, r2) := BucketUpdate(b1, d, two);
             && r1.Ok? && r1.value.PendingPing? && r2.Ok? && r2.value.PendingPing?
             && |removals| == IndexOf(b2.cache, c.id) + 1 && AllFound(b2, removals)
    ensures var b' := AfterRemovals(BucketUpdate(BucketUpdate(b, c, one).0, d, two).0, removals);
            && b'.nodes != [] && b'.nodes[|b'.nodes| - 1].id == c.id
            && c.id !in IdsOf(b'.cache) && b'.cache != [] && b'.cache[|b'.cache| - 1].id == d.id
  {
    hide BucketUpdate, BucketIndex, Holds, Others, AllFound, DistinctIds;
    var b1 := BucketUpdate(b, c, one).0;
    UpdateKeepsOk(b, c, one);
    UpdateCaches(b, c, one);
    var b2 := BucketUpdate(b1, d, two).0;
    UpdateKeepsOk(b1, d, two);
    UpdateCaches(b1, d, two);
    StillWaiting(Others(b.cache, c.id), c.(lastSeen := At(one)), d);
    var kept := Others(b1.cache, d.id);
    assert b2.cache == kept + [d.(lastSeen := At(two))];
    FoundBefore(kept, d.(lastSeen := At(two)), c.id);
    PromotedInOrder(b2, removals);
    GoneFromRest(b2.cache, c.id);
  }

  /** The contact put last before `d` is still among the others. */
  lemma {:induction false} StillWaiting(s: seq<Contact>, c: Contact, d: Contact)
    requires c.id != d.id
    ensures Others(s + [c], d.id) == Others(s, d.id) + [c]
  {
    if s == [] {
      assert Others([c], d.id) == [c] + Others([], d.id);
    } else {
      assert (s + [c])[1..] == s[1..] + [c];
      StillWaiting(s[1..], c, d);
    }
  }

  lemma FoundBefore(s: seq<Contact>, d: Contact, id: NodeId)
    requires s != [] && s[|s| - 1].id == id
    ensures IndexOf(s + [d], id) < |s|
  {
    assert (s + [d])[|s| - 1].id == id;
  }

  lemma GoneFromRest(s: seq<Contact>, id: NodeId)
    requires DistinctIds(s) && IndexOf(s, id) < |s|
    ensures id !in IdsOf(s[IndexOf(s, id) + 1..])
  {
  }
}
