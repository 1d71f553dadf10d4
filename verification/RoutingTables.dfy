/** The routing table: buckets by index of the first differing bit. */
module RoutingTables {
  import opened Wrappers
  import opened NodeIds
  import opened Contacts
  import opened Ranking
  import opened Buckets

  const K: nat := 20

  /** The value of a routing table. */
  datatype Table = Table(localId: NodeId, k: nat, buckets: map<nat, Bucket>)

  function EmptyTable(localId: NodeId, k: nat): Table {
    Table(localId, k, map[])
  }

  /** All buckets share the table's owner and capacity; the capacity is positive. */
  predicate Uniform(t: Table) {
    t.k >= 1 && forall i :: i in t.buckets ==> t.buckets[i].k == t.k && t.buckets[i].localId == t.localId
  }

  function BucketAt(t: Table, index: nat): Bucket {
    if index in t.buckets then t.buckets[index] else NewBucket(t.localId, index, t.k)
  }

  /** Bits the bucket at `index` can still be split on. */
  function SplitsLeft(t: Table, id: NodeId): nat {
    match BucketIndex(t.localId, id)
    case None => 0
    case Some(index) =>
      var p := BucketAt(t, index).prefixLen;
      if p < KEY_LENGTH_BITS then KEY_LENGTH_BITS - p else 0
  }

  /** The table with the bucket at `index`, new if there was none, updated. */
  function UpdateAt(t: Table, index: nat, node: Contact, now: nat): (r: (Table, Result<UpdateStatus>))
    requires Uniform(t)
    ensures Uniform(r.0) && r.0.localId == t.localId && r.0.k == t.k && index in r.0.buckets
  {
    var (b, r) := BucketUpdate(BucketAt(t, index), node, now);
    (t.(buckets := t.buckets[index := b]), r)
  }

  function TableUpdate(t: Table, node: Contact, now: nat): (r: (Table, Result<UpdateStatus>))
    requires Uniform(t)
    ensures Uniform(r.0) && r.0.localId == t.localId && r.0.k == t.k
    decreases SplitsLeft(t, node.id)
  {
    if node.id == t.localId then (t, Ok(Unchanged))
    else
      match BucketIndex(t.localId, node.id)
      case None => (t, Ok(Unchanged))
      case Some(index) =>
        var (t', r) := UpdateAt(t, index, node, now);
        if r.Ok? && ShouldSplit(t'.buckets[index]) && index < KEY_LENGTH_BITS - 1 then
          SplitShrinks(t, node, now);
          TableUpdate(AfterSplit(t', index, now), node, now)
        else (t', r)
  }

  /** Splitting leaves fewer bits to split on: the recursion ends. */
  lemma SplitShrinks(t: Table, node: Contact, now: nat)
    requires Uniform(t) && BucketIndex(t.localId, node.id).Some?
    requires var index := BucketIndex(t.localId, node.id).value;
             ShouldSplit(UpdateAt(t, index, node, now).0.buckets[index])
    ensures var index := BucketIndex(t.localId, node.id).value;
            SplitsLeft(AfterSplit(UpdateAt(t, index, node, now).0, index, now), node.id) < SplitsLeft(t, node.id)
  {
  }

  /** Bucket `index` replaced by its two halves. */
  function AfterSplit(t: Table, index: nat, now: nat): (r: Table)
    requires Uniform(t) && index in t.buckets
    ensures Uniform(r) && r.localId == t.localId && r.k == t.k
  {
    var b := t.buckets[index];
    t.(buckets := t.buckets[index := SplitHalf(b, false, |b.nodes|, now)][index + 1 := SplitHalf(b, true,
        |b.nodes|, now)])
  }

  function TableLookup(t: Table, id: NodeId): Option<Contact> {
    match BucketIndex(t.localId, id)
    case None => None
    case Some(index) => if index in t.buckets then Lookup(t.buckets[index], id) else None
  }

  predicate TableContains(t: Table, id: NodeId) {
    match BucketIndex(t.localId, id)
    case None => false
    case Some(index) => index in t.buckets && Holds(t.buckets[index], id)
  }

  /** A bucket update of the stored contact as `change` rewrites it; what
      `node_seen`, `record_success` and `record_failure` have in common. */
  function Touch(t: Table, id: NodeId, change: Contact -> Contact, now: nat): (r: (Table, Result<()>))
    requires Uniform(t)
    ensures Uniform(r.0) && r.0.localId == t.localId && r.0.k == t.k
  {
    match BucketIndex(t.localId, id)
    case None => (t, Ok(()))
    case Some(index) =>
      if index !in t.buckets then (t, Ok(()))
      else
        match Lookup(t.buckets[index], id)
        case None => (t, Ok(()))
        case Some(c) =>
          var (b, r) := BucketUpdate(t.buckets[index], change(c), now);
          (t.(buckets := t.buckets[index := b]), if r.Ok? then Ok(()) else Err)
  }

  function SeenChange(now: nat): Contact -> Contact {
    (c: Contact) => SeenAt(c, now)
  }

  function SuccessChange(now: nat): Contact -> Contact {
    (c: Contact) => SeenAt(c.(stats := RecordSuccess(c.stats)), now)
  }

  function FailureChange(): Contact -> Contact {
    (c: Contact) => c.(stats := RecordFailure(c.stats))
  }

  function TableRemove(t: Table, id: NodeId, now: nat): (r: (Table, Option<Contact>))
    ensures Uniform(t) ==> Uniform(r.0)
    ensures r.0.localId == t.localId && r.0.k == t.k
  {
    match BucketIndex(t.localId, id)
    case None => (t, None)
    case Some(index) =>
      if index !in t.buckets then (t, None)
      else
        var (b, r) := BucketRemove(t.buckets[index], id, now);
        (t.(buckets := t.buckets[index := b]), r)
  }

  // ----- reading all contacts -----

  /** One possible iteration order of the hash map: each key once. */
  ghost predicate IsOrder(order: seq<nat>, t: Table) {
    && (forall i :: i in order <==> i in t.buckets)
    && forall i, j :: 0 <= i < j < |order| ==> order[i] != order[j]
  }

  function Scan(t: Table, order: seq<nat>): seq<Contact>
    requires forall i :: i in order ==> i in t.buckets
  {
    if order == [] then [] else t.buckets[order[0]].nodes + Scan(t, order[1..])
  }

  /** Numeric XOR distance to a target, as a rank for sorting. */
  function RankTo(target: NodeId): Contact -> nat {
    (c: Contact) => IdValue(Distance(c.id, target))
  }

  function ClosestTo(t: Table, target: NodeId, count: nat, order: seq<nat>): seq<Contact>
    requires forall i :: i in order ==> i in t.buckets
  {
    TopK(Scan(t, order), count, RankTo(target))
  }

  // ----- the mutable table -----

  class RoutingTable {
    const localId: NodeId
    const k: nat
    var buckets: map<nat, KBucket>

    constructor (localId: NodeId, k: nat)
      requires k >= 1
      ensures Valid() && buckets == map[]
      ensures State() == EmptyTable(localId, k)
    {
      this.localId, this.k := localId, k;
      buckets := map[];
    }

    ghost predicate Valid()
      reads this, buckets.Values
    {
      && k >= 1
      && (forall i :: i in buckets ==> buckets[i].k == k && buckets[i].localId == localId)
      && (forall i, j :: i in buckets && j in buckets && i != j ==> buckets[i] != buckets[j])
    }

    ghost function State(): Table
      reads this, buckets.Values
    {
      Table(localId, k, map i | i in buckets :: buckets[i].State())
    }

    method Update(node: Contact, now: nat) returns (r: Result<UpdateStatus>)
      requires Valid()
      modifies this, buckets.Values
      ensures Valid() && forall i :: i in buckets ==> fresh(buckets[i]) || buckets[i] in old(buckets.Values)
      ensures (State(), r) == TableUpdate(old(State()), node, now)
      decreases SplitsLeft(State(), node.id)
    {
      hide UpdateAt, BucketIndex, ShouldSplit, AfterSplit;
      if node.id == localId {
        return Ok(Unchanged);
      }
      match BucketIndex(localId, node.id) {
        case None => return Ok(Unchanged);
        case Some(index) =>
          ghost var t := State();
          var split;
          r, split := UpdateInBucket(index, node, now);
          if split && index < KEY_LENGTH_BITS - 1 {
            SplitBucket(index, now);
            SplitShrinks(t, node, now);
            r := Update(node, now);
          }
      }
    }

    method UpdateInBucket(index: nat, node: Contact, now: nat) returns (r: Result<UpdateStatus>, split: bool)
      requires Valid()
      modifies this, buckets.Values
      ensures Valid() && index in buckets
      ensures forall i :: i in buckets ==> fresh(buckets[i]) || buckets[i] in old(buckets.Values)
      ensures (State(), r) == UpdateAt(old(State()), index, node, now)
      ensures split == (r.Ok? && ShouldSplit(State().buckets[index]))
    {
      hide BucketUpdate, ShouldSplit, BucketAt;
      ghost var t := State();
      var bucket := GetOrCreateBucket(index);
      r := bucket.Update(node, now);
      assert State().buckets == t.buckets[index := bucket.State()];
      split := false;
      if r.Ok? {
        split := bucket.Splits();
      }
    }

    method GetOrCreateBucket(index: nat) returns (bucket: KBucket)
      requires Valid()
      modifies this
      ensures Valid() && index in buckets && buckets[index] == bucket
      ensures forall i :: i in buckets ==> fresh(buckets[i]) || buckets[i] in old(buckets.Values)
      ensures bucket.State() == BucketAt(old(State()), index)
      ensures State() == old(State().(buckets := State().buckets[index := BucketAt(State(), index)]))
    {
      if index !in buckets {
        bucket := new KBucket(localId, index, k);
        Insert(index, bucket);
      }
      bucket := buckets[index];
    }

    method SplitBucket(index: nat, now: nat)
      requires Valid() && index in buckets
      modifies this
      ensures Valid()
      ensures forall i :: i in buckets ==> fresh(buckets[i]) || buckets[i] in old(buckets.Values)
      ensures State() == AfterSplit(old(State()), index, now)
    {
      hide SplitHalf, BucketUpdate;
      ghost var b := buckets[index].State();
      var bucket0, bucket1 := buckets[index].Split(now);
      assert bucket0.State() == SplitHalf(b, false, |b.nodes|, now);
      assert bucket1.State() == SplitHalf(b, true, |b.nodes|, now);
      Insert(index, bucket0);
      Insert(index + 1, bucket1);
    }

    method Insert(index: nat, bucket: KBucket)
      requires Valid()
      requires bucket.k == k && bucket.localId == localId
      requires forall i :: i in buckets ==> buckets[i] != bucket
      modifies this
      ensures Valid() && buckets == old(buckets)[index := bucket]
      ensures State() == old(State().(buckets := State().buckets[index := bucket.State()]))
    {
      buckets := buckets[index := bucket];
      assert State().buckets == old(State().buckets[index := bucket.State()]);
    }

    method Seen(id: NodeId, now: nat) returns (r: Result<()>)
      requires Valid()
      modifies buckets.Values
      ensures Valid()
      ensures (State(), r) == Touch(old(State()), id, SeenChange(now), now)
    {
      r := ChangeStored(id, SeenChange(now), now);
    }

    method RecordSuccess(id: NodeId, now: nat) returns (r: Result<()>)
      requires Valid()
      modifies buckets.Values
      ensures Valid()
      ensures (State(), r) == Touch(old(State()), id, SuccessChange(now), now)
    {
      r := ChangeStored(id, SuccessChange(now), now);
    }

    method RecordFailure(id: NodeId, now: nat) returns (r: Result<()>)
      requires Valid()
      modifies buckets.Values
      ensures Valid()
      ensures (State(), r) == Touch(old(State()), id, FailureChange(), now)
    {
      r := ChangeStored(id, FailureChange(), now);
    }

    method ChangeStored(id: NodeId, change: Contact -> Contact, now: nat) returns (r: Result<()>)
      requires Valid()
      modifies buckets.Values
      ensures Valid()
      ensures (State(), r) == Touch(old(State()), id, change, now)
    {
      match BucketIndex(localId, id) {
        case None =>
        case Some(index) =>
          if index in buckets {
            var found := buckets[index].Get(id);
            if found.Some? {
              hide BucketUpdate, BucketIndex, Lookup;
              var node := change(found.value);
              var update := buckets[index].Update(node, now);
              assert State().buckets == old(State()).buckets[index := buckets[index].State()];
              if update.Err? {
                return Err;
              }
            }
          }
      }
      r := Ok(());
    }

    method Remove(id: NodeId, now: nat) returns (r: Option<Contact>)
      requires Valid()
      modifies buckets.Values
      ensures Valid()
      ensures (State(), r) == TableRemove(old(State()), id, now)
    {
      hide BucketRemove, BucketIndex;
      match BucketIndex(localId, id) {
        case None =>
        case Some(index) =>
          if index in buckets {
            r := buckets[index].Remove(id, now);
            assert State().buckets == old(State()).buckets[index := buckets[index].State()];
            return;
          }
      }
      r := None;
    }

    method Contains(id: NodeId) returns (found: bool)
      requires Valid()
      ensures found == TableContains(State(), id)
    {
      match BucketIndex(localId, id) {
        case None =>
        case Some(index) =>
          if index in buckets {
            found := buckets[index].Contains(id);
            return;
          }
      }
      found := false;
    }

    method Get(id: NodeId) returns (r: Option<Contact>)
      requires Valid()
      ensures r == TableLookup(State(), id)
    {
      match BucketIndex(localId, id) {
        case None =>
        case Some(index) =>
          if index in buckets {
            r := buckets[index].Get(id);
            return;
          }
      }
      r := None;
    }

    method AllNodes(order: seq<nat>) returns (all: seq<Contact>)
      requires Valid() && IsOrder(order, State())
      ensures all == Scan(State(), order)
    {
      all := [];
      for n := 0 to |order|
        invariant all + Scan(State(), order[n..]) == Scan(State(), order)
      {
        assert order[n] in State().buckets;
        all := all + buckets[order[n]].nodes;
        assert order[n..][1..] == order[n + 1..];
      }
      assert order[|order|..] == [];
    }

    method NodeCount(order: seq<nat>) returns (count: nat)
      requires Valid() && IsOrder(order, State())
      ensures count == |Scan(State(), order)|
    {
      count := 0;
      for n := 0 to |order|
        invariant count + |Scan(State(), order[n..])| == |Scan(State(), order)|
      {
        assert order[n] in State().buckets;
        count := count + |buckets[order[n]].nodes|;
        assert order[n..][1..] == order[n + 1..];
      }
      assert order[|order|..] == [];
    }

    method GetClosest(target: NodeId, count: nat, order: seq<nat>) returns (closest: seq<Contact>)
      requires Valid() && IsOrder(order, State())
      ensures closest == ClosestTo(State(), target, count, order)
    {
      var all := AllNodes(order);
      closest := Take(SortBy(all, RankTo(target)), count);
    }
  }
}
