/** The iterative search for a value. */
module ValueLookup {
  import opened Wrappers
  import opened NodeIds
  import opened Contacts
  import opened Ranking
  import opened RoutingTables
  import opened TableRuns
  import opened Storage
  import opened NodeLookup

  const MAX_ITERATIONS: nat := 10

  /** What one FIND_VALUE call yields: the value, contacts (none after a timeout or
      an unexpected answer), or a failure to send or to receive. */
  datatype ValueReply = Found(value: Value) | Contacts(nodes: seq<Contact>) | Failed

  /** What peers answer, by iteration, position in the batch and contact asked. */
  type ValueAnswers = (nat, nat, Contact) -> ValueReply

  /** The state of the search, with the list and the batch of every iteration. */
  datatype Hunt = Hunt(closest: seq<Contact>, visited: set<NodeId>, lists: seq<seq<Contact>>,
        batches: seq<seq<Contact>>)

  /** The contacts of a list not visited yet, in order. */
  function Unvisited(list: seq<Contact>, visited: set<NodeId>): seq<Contact> {
    if list == [] then []
    else (if list[0].id in visited then [] else [list[0]]) + Unvisited(list[1..], visited)
  }

  function NextBatch(h: Hunt): seq<Contact> {
    Take(Unvisited(h.closest, h.visited), ALPHA)
  }

  function RepliesOf(batch: seq<Contact>, iteration: nat, answers: ValueAnswers): (replies: seq<ValueReply>)
    ensures |replies| == |batch|
  {
    seq(|batch|, i requires 0 <= i < |batch| => answers(iteration, i, batch[i]))
  }

  /** The first value found, in the order in which the batch was asked. */
  function FirstFound(replies: seq<ValueReply>): Option<Value> {
    if replies == [] then None
    else if replies[0].Found? then Some(replies[0].value)
    else FirstFound(replies[1..])
  }

  /** All contacts the replies name that have not been visited. */
  function NamedUnvisited(replies: seq<ValueReply>, visited: set<NodeId>): seq<Contact> {
    if replies == [] then []
    else (if replies[0].Contacts? then Unvisited(replies[0].nodes, visited)
        else []) + NamedUnvisited(replies[1..], visited)
  }

  /** The hunt with its next batch noted as visited. */
  function Visiting(h: Hunt): Hunt {
    var batch := NextBatch(h);
    Hunt(h.closest, h.visited + IdsOf(batch), h.lists + [h.closest], h.batches + [batch])
  }

  function Widened(h: Hunt, more: seq<Contact>, key: NodeId): Hunt {
    h.(closest := TopK(h.closest + more, K, RankTo(key)))
  }

  /** The whole search: the value, if any, and the trace. */
  function Seek(h: Hunt, iteration: nat, key: NodeId, answers: ValueAnswers): (Option<Value>, Hunt)
    decreases MAX_ITERATIONS - iteration
  {
    var batch := NextBatch(h);
    if iteration >= MAX_ITERATIONS || batch == [] then (None, h)
    else
      var h' := Visiting(h);
      var replies := RepliesOf(batch, iteration, answers);
      var more := NamedUnvisited(replies, h'.visited);
      if FirstFound(replies).Some? then (FirstFound(replies), h')
      else if more == [] then (None, h')
      else Seek(Widened(h', more, key), iteration + 1, key, answers)
  }

  function Begin(local: NodeId, list: seq<Contact>): Hunt {
    Hunt(list, {local}, [], [])
  }

  method FindValue(table: RoutingTable, storage: MemoryStorage, key: NodeId, order: seq<nat>,
        answers: ValueAnswers, now: nat, later: nat)
    returns (r: Option<Value>)
    requires table.Valid() && IsOrder(order, table.State())
    modifies storage
    ensures var held := Fetch(old(storage.storage), key, now);
            var list := ClosestTo(old(table.State()), key, K, order);
            var found := Seek(Begin(table.localId, list), 0, key, answers).0;
            && r == (if held.Ok? then Some(held.value) else found)
            && storage.storage == if held.Err? && found.Some?
                                  then old(storage.storage)[key := Entry(found.value, later, storage.defaultTtl)]
                                  else old(storage.storage)
  {
    hide Seek, ClosestTo, IsOrder;
    var held := storage.Get(key, now);
    if held.Ok? {
      return Some(held.value);
    }
    var closest := StartList(table, key, order);
    if closest == [] {
      EmptyHunt(table.localId, key, answers);
      return None;
    }
    r := AskInRounds(table.localId, closest, key, answers);
    if r.Some? {
      storage.Store(key, r.value, later);
    }
  }

  /** The nearest known contacts; falling back to all of them adds nobody. */
  method StartList(table: RoutingTable, key: NodeId, order: seq<nat>) returns (list: seq<Contact>)
    requires table.Valid() && IsOrder(order, table.State())
    ensures list == ClosestTo(table.State(), key, K, order)
  {
    hide RankTo, IsNearest, BucketIndex;
    list := table.GetClosest(key, K, order);
    if list == [] {
      list := table.AllNodes(order);
      ClosestAreNearest(table.State(), key, K, order);
    }
  }

  lemma EmptyHunt(local: NodeId, key: NodeId, answers: ValueAnswers)
    ensures Seek(Begin(local, []), 0, key, answers).0 == None
  {
  }

  method AskInRounds(local: NodeId, start: seq<Contact>, key: NodeId, answers: ValueAnswers) returns (r: Option<Value>)
    ensures r == Seek(Begin(local, start), 0, key, answers).0
  {
    hide RankTo, Unvisited, FirstFound, NamedUnvisited, IdsOf;
    var closest, visited := start, {local};
    ghost var h := Begin(local, start);
    for iteration := 0 to MAX_ITERATIONS
      invariant h.closest == closest && h.visited == visited
      invariant Seek(Begin(local, start), 0, key, answers).0 == Seek(h, iteration, key, answers).0
    {
      var batch := FirstUnvisited(closest, visited, ALPHA);
      if batch == [] {
        return None;
      }
      visited := visited + IdsOf(batch);
      var replies := RepliesOf(batch, iteration, answers);
      var value, more := AwaitReplies(replies, visited);
      if value.Some? {
        return value;
      }
      if more == [] {
        return None;
      }
      closest := SortBy(closest + more, RankTo(key));
      if |closest| > K {
        closest := closest[..K];
      }
      h := Widened(Visiting(h), more, key);
    }
    return None;
  }

  method FirstUnvisited(list: seq<Contact>, visited: set<NodeId>, limit: nat) returns (batch: seq<Contact>)
    ensures batch == Take(Unvisited(list, visited), limit)
  {
    batch := [];
    var i := 0;
    while i < |list| && |batch| < limit
      invariant i <= |list| && |batch| <= limit
      invariant batch + Unvisited(list[i..], visited) == Unvisited(list, visited)
    {
      assert list[i..][1..] == list[i + 1..];
      if list[i].id !in visited {
        batch := batch + [list[i]];
      }
      i := i + 1;
    }
  }

  lemma {:induction false} UnvisitedSize(list: seq<Contact>, visited: set<NodeId>)
    ensures |Unvisited(list, visited)| <= |list|
  {
    if list != [] {
      UnvisitedSize(list[1..], visited);
    }
  }

  /** Takes the replies in order: the first value ends it, contacts are gathered. */
  method AwaitReplies(replies: seq<ValueReply>, visited: set<NodeId>) returns (value: Option<Value>, more: seq<Contact>)
    ensures value == FirstFound(replies)
    ensures value.None? ==> more == NamedUnvisited(replies, visited)
  {
    value, more := None, [];
    for i := 0 to |replies|
      invariant FirstFound(replies[i..]) == FirstFound(replies)
      invariant more + NamedUnvisited(replies[i..], visited) == NamedUnvisited(replies, visited)
    {
      assert replies[i..][1..] == replies[i + 1..];
      match replies[i] {
        case Found(v) => return Some(v), more;
        case Contacts(nodes) =>
          var named := FirstUnvisited(nodes, visited, |nodes|);
          UnvisitedSize(nodes, visited);
          more := more + named;
        case Failed =>
      }
    }
  }
}
