/** K-buckets: a queue of contacts, least recently seen first, with an eviction
    policy and a cache of replacements. */
module Buckets {
  import opened Wrappers
  import opened NodeIds
  import opened Contacts

  datatype UpdateStatus = Unchanged | Updated | PendingPing(front: Contact)

  /** The value of a bucket. */
  datatype Bucket = Bucket(localId: NodeId, k: nat, prefixLen: nat, nodes: seq<Contact>, cache: seq<Contact>)

  function NewBucket(localId: NodeId, prefixLen: nat, k: nat): Bucket {
    Bucket(localId, k, prefixLen, [], [])
  }

  /** Position of the first contact with this id, or the length. */
  function IndexOf(s: seq<Contact>, id: NodeId): (i: nat)
    ensures i <= |s|
    ensures i < |s| ==> s[i].id == id
    ensures forall j :: 0 <= j < i ==> s[j].id != id
  {
    if s == [] || s[0].id == id then 0 else 1 + IndexOf(s[1..], id)
  }

  /** Position of the first contact that fails the reliability test, or the length. */
  function FirstUnreliable(s: seq<Contact>): (i: nat)
    ensures i <= |s|
    ensures i < |s| ==> !Reliable(s[i])
    ensures forall j :: 0 <= j < i ==> Reliable(s[j])
  {
    if s == [] || !Reliable(s[0]) then 0 else 1 + FirstUnreliable(s[1..])
  }

  function Without<T>(s: seq<T>, i: nat): (r: seq<T>)
    requires i < |s|
    ensures |r| == |s| - 1
  {
    s[..i] + s[i + 1..]
  }

  predicate Holds(b: Bucket, id: NodeId) {
    IndexOf(b.nodes, id) < |b.nodes|
  }

  function Lookup(b: Bucket, id: NodeId): Option<Contact> {
    var i := IndexOf(b.nodes, id);
    if i < |b.nodes| then Some(b.nodes[i]) else None
  }

  /** The cache with any entry of this contact dropped and the contact put last. */
  function Cached(cache: seq<Contact>, node: Contact, now: nat): seq<Contact> {
    var i := IndexOf(cache, node.id);
    (if i < |cache| then Without(cache, i) else cache) + [SeenAt(node, now)]
  }

  function BucketUpdate(b: Bucket, node: Contact, now: nat): (r: (Bucket, Result<UpdateStatus>))
    requires b.k >= 1
  {
    var pos, bad := IndexOf(b.nodes, node.id), FirstUnreliable(b.nodes);
    if node.id == b.localId then
      (b, Err)
    else if pos < |b.nodes| then
      (b.(nodes := Without(b.nodes, pos) + [SeenAt(b.nodes[pos], now)]), Ok(Updated))
    else if |b.nodes| < b.k then
      (b.(nodes := b.nodes + [SeenAt(node, now)]), Ok(Updated))
    else if bad < |b.nodes| then
      (b.(nodes := Without(b.nodes, bad) + [SeenAt(node, now)]), Ok(Updated))
    else if !IsActive(b.nodes[0], now) then
      (b.(nodes := b.nodes[1..] + [SeenAt(node, now)]), Ok(Updated))
    else
      (b.(cache := Cached(b.cache, node, now)), Ok(PendingPing(b.nodes[0])))
  }

  function BucketRemove(b: Bucket, id: NodeId, now: nat): (Bucket, Option<Contact>) {
    var pos := IndexOf(b.nodes, id);
    if pos == |b.nodes| then
      (b, None)
    else if b.cache == [] then
      (b.(nodes := Without(b.nodes, pos)), Some(b.nodes[pos]))
    else
      (b.(nodes := Without(b.nodes, pos) + [SeenAt(b.cache[0], now)], cache := b.cache[1..]), Some(b.nodes[pos]))
  }

  predicate ShouldSplit(b: Bucket)
    requires b.k >= 1
  {
    && |b.nodes| >= b.k
    && exists i :: 0 <= i < |b.nodes| && BitAt(b.nodes[i].id, b.prefixLen) != BitAt(b.nodes[0].id, b.prefixLen)
  }

  /** The contacts whose bit at `prefixLen` is `bit`, re-entered one by one. */
  function SplitHalf(b: Bucket, bit: bool, count: nat, now: nat): (r: Bucket)
    requires b.k >= 1 && count <= |b.nodes|
    ensures r.localId == b.localId && r.k == b.k && r.prefixLen == b.prefixLen + 1
  {
    if count == 0 then NewBucket(b.localId, b.prefixLen + 1, b.k)
    else
      var r := SplitHalf(b, bit, count - 1, now);
      if BitAt(b.nodes[count - 1].id, b.prefixLen) == bit then BucketUpdate(r, b.nodes[count - 1], now).0 else r
  }

  class KBucket {
    const localId: NodeId
    const k: nat
    const prefixLen: nat
    var nodes: seq<Contact>
    var cache: seq<Contact>

    constructor (localId: NodeId, prefixLen: nat, k: nat)
      ensures State() == NewBucket(localId, prefixLen, k)
    {
      this.localId, this.prefixLen, this.k := localId, prefixLen, k;
      nodes, cache := [], [];
    }

    function State(): Bucket
      reads this
    {
      Bucket(localId, k, prefixLen, nodes, cache)
    }

    method Contains(id: NodeId) returns (found: bool)
      ensures found == Holds(State(), id)
    {
      var i := Position(nodes, id);
      found := i < |nodes|;
    }

    method Get(id: NodeId) returns (r: Option<Contact>)
      ensures r == Lookup(State(), id)
    {
      var i := Position(nodes, id);
      r := if i < |nodes| then Some(nodes[i]) else None;
    }

    method Update(node: Contact, now: nat) returns (r: Result<UpdateStatus>)
      requires k >= 1
      modifies this
      ensures (State(), r) == BucketUpdate(old(State()), node, now)
    {
      if node.id == localId {
        return Err;
      }
      var pos := Position(nodes, node.id);
      if pos < |nodes| {
        var existing := nodes[pos];
        nodes := Without(nodes, pos);
        nodes := nodes + [SeenAt(existing, now)];
        return Ok(Updated);
      }
      if |nodes| < k {
        nodes := nodes + [SeenAt(node, now)];
        return Ok(Updated);
      }
      var bad := 0;
      while bad < |nodes| && Reliable(nodes[bad])
        invariant bad <= |nodes|
        invariant forall j :: 0 <= j < bad ==> Reliable(nodes[j])
      {
        bad := bad + 1;
      }
      if bad < |nodes| {
        nodes := Without(nodes, bad);
        nodes := nodes + [SeenAt(node, now)];
        return Ok(Updated);
      }
      var front := nodes[0];
      if !IsActive(front, now) {
        nodes := nodes[1..];
        nodes := nodes + [SeenAt(node, now)];
        return Ok(Updated);
      }
      var oldEntry := Position(cache, node.id);
      if oldEntry < |cache| {
        cache := Without(cache, oldEntry);
      }
      cache := cache + [SeenAt(node, now)];
      return Ok(PendingPing(front));
    }

    method Remove(id: NodeId, now: nat) returns (removed: Option<Contact>)
      modifies this
      ensures (State(), removed) == BucketRemove(old(State()), id, now)
    {
      var pos := Position(nodes, id);
      if pos == |nodes| {
        return None;
      }
      removed := Some(nodes[pos]);
      nodes := Without(nodes, pos);
      if cache != [] {
        var replacement := cache[0];
        cache := cache[1..];
        nodes := nodes + [SeenAt(replacement, now)];
      }
    }

    method Splits() returns (split: bool)
      requires k >= 1
      ensures split == ShouldSplit(State())
    {
      if |nodes| < k {
        return false;
      }
      var bit := BitAt(nodes[0].id, prefixLen);
      for i := 0 to |nodes|
        invariant forall j :: 0 <= j < i ==> BitAt(nodes[j].id, prefixLen) == bit
      {
        if BitAt(nodes[i].id, prefixLen) != bit {
          return true;
        }
      }
      return false;
    }

    method Split(now: nat) returns (bucket0: KBucket, bucket1: KBucket)
      requires k >= 1
      ensures fresh(bucket0) && fresh(bucket1) && bucket0 != bucket1
      ensures bucket0.State() == SplitHalf(State(), false, |nodes|, now)
      ensures bucket1.State() == SplitHalf(State(), true, |nodes|, now)
    {
      hide BucketUpdate, BitAt;
      bucket0 := new KBucket(localId, prefixLen + 1, k);
      bucket1 := new KBucket(localId, prefixLen + 1, k);
      for i := 0 to |nodes|
        invariant fresh(bucket0) && fresh(bucket1) && bucket0 != bucket1
        invariant State() == old(State())
        invariant bucket0.State() == SplitHalf(State(), false, i, now)
        invariant bucket1.State() == SplitHalf(State(), true, i, now)
      {
        if BitAt(nodes[i].id, prefixLen) {
          var _ := bucket1.Update(nodes[i], now);
        } else {
          var _ := bucket0.Update(nodes[i], now);
        }
      }
    }
  }

  method Position(s: seq<Contact>, id: NodeId) returns (i: nat)
    ensures i == IndexOf(s, id)
  {
    i := 0;
    while i < |s| && s[i].id != id
      invariant i <= |s|
      invariant forall j :: 0 <= j < i ==> s[j].id != id
    {
      i := i + 1;
    }
  }
}
