/** Recording a contact: update the table, health-check the contact it would
    displace, then keep or evict. */
module ContactProtocol {
  import opened Wrappers
  import opened NodeIds
  import opened Contacts
  import opened Buckets
  import opened BucketPolicy
  import opened RoutingTables
  import opened TableRuns

  /** How a health-check ping ends: answered, timed out, or broken off by a send
      error or a closed wait, which records no failure. */
  datatype Ping = Answered | TimedOut | Broken

  /** Clock readings at the successive table accesses of one call. */
  datatype Times = Times(update: nat, ping: nat, settle: nat, retry: nat)

  ghost predicate Forward(was: nat, times: Times) {
    was <= times.update <= times.ping <= times.settle <= times.retry
  }

  /** The table accesses of the health check itself. */
  function HealthCheck(t: Table, front: NodeId, ping: Ping, now: nat): (r: Table)
    requires Uniform(t)
    ensures Uniform(r) && r.localId == t.localId && r.k == t.k
  {
    match ping
    case Answered => Touch(t, front, SuccessChange(now), now).0
    case TimedOut => Touch(t, front, FailureChange(), now).0
    case Broken => t
  }

  /** What follows a pending ping: the front is kept if it answered; otherwise it
      is removed and the newcomer tried once more. */
  function Settle(t: Table, node: Contact, front: NodeId, ping: Ping, times: Times, known: bool):
    (r: (Table, Result<bool>))
    requires Uniform(t)
    ensures Uniform(r.0) && r.0.localId == t.localId && r.0.k == t.k
  {
    var checked := HealthCheck(t, front, ping, times.ping);
    if ping.Answered? then
      var (kept, r) := Touch(checked, front, SeenChange(times.settle), times.settle);
      (kept, if r.Ok? then Ok(false) else Err)
    else
      var (last, r) := TableUpdate(TableRemove(checked, front, times.settle).0, node, times.retry);
      (last, if r.Ok? then Ok(r.value == Updated && !known) else Err)
  }

  function AfterContact(t: Table, node: Contact, ping: Ping, times: Times): (r: (Table, Result<bool>))
    requires Uniform(t)
    ensures Uniform(r.0) && r.0.localId == t.localId && r.0.k == t.k
  {
    if node.id == t.localId then (t, Ok(false))
    else
      var known := TableContains(t, node.id);
      var (t', r) := TableUpdate(t, node, times.update);
      match r
      case Err => (t', Err)
      case Ok(PendingPing(front)) => Settle(t', node, front.id, ping, times, known)
      case Ok(status) => (t', Ok(!known && status == Updated))
  }

  class Protocol {
    const nodeId: NodeId
    const table: RoutingTable

    constructor (table: RoutingTable)
      ensures this.table == table && nodeId == table.localId
    {
      this.table, nodeId := table, table.localId;
    }

    method CheckHealth(front: NodeId, ping: Ping, now: nat) returns (alive: bool)
      requires table.Valid()
      modifies table.buckets.Values
      ensures table.Valid()
      ensures table.State() == HealthCheck(old(table.State()), front, ping, now)
      ensures alive == ping.Answered?
    {
      match ping {
        case Answered =>
          var _ := table.RecordSuccess(front, now);
          alive := true;
        case TimedOut =>
          var _ := table.RecordFailure(front, now);
          alive := false;
        case Broken =>
          alive := false;
      }
    }

    method RecordContact(node: Contact, ping: Ping, times: Times) returns (r: Result<bool>)
      requires table.Valid() && nodeId == table.localId
      modifies table, table.buckets.Values
      ensures table.Valid()
      ensures (table.State(), r) == AfterContact(old(table.State()), node, ping, times)
    {
      hide TableUpdate, Touch, TableRemove, TableContains;
      if node.id == nodeId {
        return Ok(false);
      }
      var known := table.Contains(node.id);
      var status := table.Update(node, times.update);
      if status.Err? {
        return Err;
      }
      var inserted := !known && status.value == Updated;
      if status.value.PendingPing? {
        var front := status.value.front.id;
        var alive := CheckHealth(front, ping, times.ping);
        if alive {
          var seen := table.Seen(front, times.settle);
          if seen.Err? {
            return Err;
          }
        } else {
          var _ := table.Remove(front, times.settle);
          var again := table.Update(node, times.retry);
          if again.Err? {
            return Err;
          }
          if again.value == Updated && !known {
            inserted := true;
          }
        }
      }
      r := Ok(inserted);
    }
  }

  // ----- what a recorded contact means -----

  /** After an update a contact is in the table exactly when the update says so. */
  lemma UpdatedMeansPresent(t: Table, node: Contact, now: nat)
    requires TableOk(t) && Uniform(t) && node.id != t.localId
    ensures TableUpdate(t, node, now).1 == Ok(Updated) <==> TableContains(TableUpdate(t, node, now).0, node.id)
    ensures TableContains(t, node.id) ==> TableUpdate(t, node, now).1 == Ok(Updated)
  {
    hide BucketIndex, BucketUpdate, TableUpdate;
    UpdateIsPlain(t, node, now);
    BucketIndexNone(t.localId, node.id);
    var b := BucketAt(t, BucketIndex(t.localId, node.id).value);
    if Holds(b, node.id) {
      UpdateEvicts(b, node, now, node.id);
      KnownIsUpdated(b, node, now);
    } else {
      UpdateAdmits(b, node, now, node.id);
    }
  }

  lemma KnownIsUpdated(b: Bucket, node: Contact, now: nat)
    requires b.k >= 1 && Holds(b, node.id) && node.id != b.localId
    ensures BucketUpdate(b, node, now).1 == Ok(Updated)
  {
  }

  lemma HealthCheckKeeps(t: Table, front: NodeId, ping: Ping, now: nat, y: NodeId)
    requires TableOk(t) && Uniform(t)
    ensures TableOk(HealthCheck(t, front, ping, now))
    ensures TableContains(HealthCheck(t, front, ping, now), y) <==> TableContains(t, y)
  {
    hide BucketIndex, Touch, TableContains, BucketOk;
    match ping
    case Answered =>
      TouchKeepsOk(t, front, SuccessChange(now), now);
      TouchKeepsMembers(t, front, SuccessChange(now), now, y);
    case TimedOut =>
      TouchKeepsOk(t, front, FailureChange(), now);
      TouchKeepsMembers(t, front, FailureChange(), now, y);
    case Broken =>
  }

  lemma SettleReported(t: Table, node: Contact, front: NodeId, ping: Ping, times: Times)
    requires TableOk(t) && Uniform(t)
    requires node.id != t.localId && !TableContains(t, node.id)
    ensures var (t', r) := Settle(t, node, front, ping, times, false);
            TableOk(t') && r == Ok(TableContains(t', node.id))
  {
    hide BucketIndex, Touch, TableContains, BucketOk, HealthCheck, TableUpdate, TableRemove;
    HealthCheckKeeps(t, front, ping, times.ping, node.id);
    var checked := HealthCheck(t, front, ping, times.ping);
    if ping.Answered? {
      TouchKeepsOk(checked, front, SeenChange(times.settle), times.settle);
      TouchKeepsMembers(checked, front, SeenChange(times.settle), times.settle, node.id);
    } else {
      RemovalKeepsOk(checked, front, times.settle);
      var removed := TableRemove(checked, front, times.settle).0;
      UpdateIsPlain(removed, node, times.retry);
      UpdatedMeansPresent(removed, node, times.retry);
    }
  }

  /** For either outcome of the ping and whatever the caches hold, a contact is
      reported as inserted exactly when it was absent before and is present after;
      and the call leaves a reachable table reachable in shape. */
  lemma InsertedMeansNew(t: Table, node: Contact, ping: Ping, times: Times)
    requires TableOk(t)
    ensures Uniform(t)
    ensures var (t', r) := AfterContact(t, node, ping, times);
            TableOk(t') &&
            r == Ok(!TableContains(t, node.id) && TableContains(t', node.id))
  {
    hide BucketIndex, TableContains, BucketOk, TableUpdate, Settle;
    LocalAbsent(t);
    if node.id != t.localId {
      UpdateIsPlain(t, node, times.update);
      UpdatedMeansPresent(t, node, times.update);
      var (t', r) := TableUpdate(t, node, times.update);
      if r.value.PendingPing? {
        SettleReported(t', node, r.value.front.id, ping, times);
      }
    }
  }

  lemma LocalAbsent(t: Table)
    ensures !TableContains(t, t.localId)
  {
    BucketIndexNone(t.localId, t.localId);
  }

  // ----- who leaves -----

  /** An update with `node` at `now` evicts `y` from the bucket they share. */
  ghost predicate EvictedBy(t: Table, node: Contact, now: nat, y: NodeId) {
    && BucketIndex(t.localId, y).Some? && BucketIndex(t.localId, node.id) == BucketIndex(t.localId, y)
    && BucketIndex(t.localId, y).value in t.buckets
    && Evicts(t.buckets[BucketIndex(t.localId, y).value], node, now, y)
  }

  /** The table once a front that did not answer has been removed. */
  function WithoutFront(t: Table, front: NodeId, ping: Ping, times: Times): (r: Table)
    requires Uniform(t)
    ensures Uniform(r) && r.localId == t.localId && r.k == t.k
  {
    TableRemove(HealthCheck(t, front, ping, times.ping), front, times.settle).0
  }

  /** The ways in which recording a contact makes `y` leave: evicted by the update
      from its own bucket; or, after a ping that was not answered, as the front that
      was pinged, or evicted from its own bucket by the second try. */
  ghost predicate WayOut(t: Table, node: Contact, ping: Ping, times: Times, y: NodeId)
    requires Uniform(t)
  {
    var (t', r) := TableUpdate(t, node, times.update);
    || (r == Ok(Updated) && EvictedBy(t, node, times.update, y))
    || (r.Ok? && r.value.PendingPing? && !ping.Answered? &&
        (y == r.value.front.id ||
         (var t2 := WithoutFront(t', r.value.front.id, ping, times);
          TableContains(t2, y) && EvictedBy(t2, node, times.retry, y))))
  }

  lemma UpdateLeaves(t: Table, node: Contact, now: nat, y: NodeId)
    requires TableOk(t) && Uniform(t)
    requires TableContains(t, y) && !TableContains(TableUpdate(t, node, now).0, y)
    ensures EvictedBy(t, node, now, y)
  {
    hide BucketIndex, Evicts, TableUpdate, Holds;
    LeavesOnlyBy(t, Event(Update(node), now), y);
  }

  /** Whatever the ping, nobody leaves in any other way. */
  lemma LeavesOnlyOnEvictionOrFailedPing(t: Table, node: Contact, ping: Ping, times: Times, y: NodeId)
    requires TableOk(t) && Uniform(t)
    requires TableContains(t, y) && !TableContains(AfterContact(t, node, ping, times).0, y)
    ensures WayOut(t, node, ping, times, y)
  {
    hide BucketIndex, TableContains, BucketOk, TableUpdate, EvictedBy, Touch, TableRemove, HealthCheck;
    UpdateIsPlain(t, node, times.update);
    var (t', r) := TableUpdate(t, node, times.update);
    if node.id != t.localId {
      if r.value.PendingPing? {
        var front := r.value.front.id;
        PendingPingKeepsMembers(t, node, times.update, y);
        HealthCheckKeeps(t', front, ping, times.ping, y);
        var checked := HealthCheck(t', front, ping, times.ping);
        if ping.Answered? {
          TouchKeepsMembers(checked, front, SeenChange(times.settle), times.settle, y);
        } else if y != front {
          RemovalLeaves(checked, front, times.settle, y);
          RemovalKeepsOk(checked, front, times.settle);
          UpdateLeaves(WithoutFront(t', front, ping, times), node, times.retry, y);
        }
      } else {
        UpdateLeaves(t, node, times.update, y);
      }
    }
  }

  /** A removal takes no other contact along. */
  lemma RemovalLeaves(t: Table, id: NodeId, now: nat, y: NodeId)
    requires TableOk(t) && Uniform(t) && TableContains(t, y) && y != id
    ensures TableContains(TableRemove(t, id, now).0, y)
  {
    hide BucketIndex, TableContains, TableRemove, Evicts;
    if !TableContains(TableRemove(t, id, now).0, y) {
      LeavesOnlyBy(t, Event(Remove(id), now), y);
    }
  }

  // ----- runs of the protocol -----

  /** What the protocol does to the table. */
  datatype Action =
    | Contacted(node: Contact, ping: Ping, times: Times)
    | NotedSeen(id: NodeId, now: nat)
    | NotedSuccess(id: NodeId, now: nat)
    | NotedFailure(id: NodeId, now: nat)

  function Act(t: Table, a: Action): (r: Table)
    requires Uniform(t)
    ensures Uniform(r) && r.localId == t.localId && r.k == t.k
  {
    match a
    case Contacted(node, ping, times) => AfterContact(t, node, ping, times).0
    case NotedSeen(id, now) => Touch(t, id, SeenChange(now), now).0
    case NotedSuccess(id, now) => Touch(t, id, SuccessChange(now), now).0
    case NotedFailure(id, now) => Touch(t, id, FailureChange(), now).0
  }

  function Acts(t: Table, actions: seq<Action>): (r: Table)
    requires Uniform(t)
    ensures Uniform(r) && r.localId == t.localId && r.k == t.k
  {
    if actions == [] then t else Act(Acts(t, actions[..|actions| - 1]), actions[|actions| - 1])
  }

  /** Every run of the protocol keeps the table invariant, whatever the clock reads. */
  lemma {:induction false} ActsKeepOk(t: Table, actions: seq<Action>)
    requires TableOk(t) && Uniform(t)
    ensures TableOk(Acts(t, actions))
  {
    hide TableOk, AfterContact, Touch;
    if actions != [] {
      ActsKeepOk(t, actions[..|actions| - 1]);
      ActKeepsOk(Acts(t, actions[..|actions| - 1]), actions[|actions| - 1]);
    }
  }

  lemma ActKeepsOk(t: Table, a: Action)
    requires TableOk(t) && Uniform(t)
    ensures TableOk(Act(t, a))
  {
    hide TableOk, AfterContact, Touch, TableContains;
    match a
    case Contacted(node, ping, times) => InsertedMeansNew(t, node, ping, times);
    case NotedSeen(id, now) => TouchKeepsOk(t, id, SeenChange(now), now);
    case NotedSuccess(id, now) => TouchKeepsOk(t, id, SuccessChange(now), now);
    case NotedFailure(id, now) => TouchKeepsOk(t, id, FailureChange(), now);
  }

  /** Over every run of the protocol from the empty table, a contact leaves only
      when another is recorded, and then in one of the ways listed: evicted from its
      own bucket, or removed as the front of a ping that was not answered. */
  lemma LeavesOverRuns(local: NodeId, k: nat, actions: seq<Action>, n: nat, y: NodeId)
    requires k >= 1 && n < |actions|
    requires TableContains(Acts(EmptyTable(local, k), actions[..n]), y)
    requires !TableContains(Acts(EmptyTable(local, k), actions[..n + 1]), y)
    ensures var t, a := Acts(EmptyTable(local, k), actions[..n]), actions[n];
            a.Contacted? && WayOut(t, a.node, a.ping, a.times, y)
  {
    hide AfterContact, Touch, WayOut, TableContains;
    ActsKeepOk(EmptyTable(local, k), actions[..n]);
    var t := Acts(EmptyTable(local, k), actions[..n]);
    assert actions[..n + 1][..n] == actions[..n];
    assert Acts(EmptyTable(local, k), actions[..n + 1]) == Act(t, actions[n]);
    match actions[n]
    case Contacted(node, ping, times) => LeavesOnlyOnEvictionOrFailedPing(t, node, ping, times, y);
    case NotedSeen(id, now) => TouchKeepsMembers(t, id, SeenChange(now), now, y);
    case NotedSuccess(id, now) => TouchKeepsMembers(t, id, SuccessChange(now), now, y);
    case NotedFailure(id, now) => TouchKeepsMembers(t, id, FailureChange(), now, y);
  }

  /** While the clock does not step back, recording a contact keeps time order. */
  lemma ContactStaysInOrder(t: Table, node: Contact, ping: Ping, was: nat, times: Times)
    requires TableOk(t) && InTimeOrder(t, was) && Forward(was, times) && Uniform(t)
    ensures InTimeOrder(AfterContact(t, node, ping, times).0, times.retry)
  {
    hide InTimeOrder, TableOk, TableUpdate, Touch, TableRemove, TableContains, HealthCheck;
    OrderedLater(t, was, times.retry);
    if node.id != t.localId {
      UpdateIsPlain(t, node, times.update);
      UpdateStaysInOrder(t, node, was, times.update);
      var (t', r) := TableUpdate(t, node, times.update);
      OrderedLater(t', times.update, times.retry);
      if r.value.PendingPing? {
        var front := r.value.front.id;
        HealthCheckKeeps(t', front, ping, times.ping, node.id);
        HealthCheckInOrder(t', front, ping, times.update, times.ping);
        var checked := HealthCheck(t', front, ping, times.ping);
        if ping.Answered? {
          TouchStaysInOrder(checked, front, SeenChange(times.settle), times.ping, times.settle);
          OrderedLater(Touch(checked, front, SeenChange(times.settle), times.settle).0, times.settle, times.retry);
        } else {
          RemovalKeepsOk(checked, front, times.settle);
          RemovalStaysInOrder(checked, front, times.ping, times.settle);
          UpdateStaysInOrder(TableRemove(checked, front, times.settle).0, node, times.settle, times.retry);
        }
      }
    }
  }

  lemma HealthCheckInOrder(t: Table, front: NodeId, ping: Ping, was: nat, now: nat)
    requires Uniform(t) && InTimeOrder(t, was) && was <= now
    ensures InTimeOrder(HealthCheck(t, front, ping, now), now)
  {
    hide InTimeOrder, Touch;
    match ping
    case Answered => TouchStaysInOrder(t, front, SuccessChange(now), was, now);
    case TimedOut => TouchStaysInOrder(t, front, FailureChange(), was, now);
    case Broken => OrderedLater(t, was, now);
  }
}
