/** One honest node: its handlers, and the ids of the responses it waits for. */
module Nodes {
  import opened Wrappers
  import opened NodeIds
  import opened Contacts
  import opened Ranking
  import opened RoutingTables
  import opened NodeLookup
  import opened NearestNodes
  import StaticNetworks
  import Storage

  type MessageId = nat
  type Value = Storage.Value

  datatype Request =
    | Ping(id: MessageId)
    | Store(id: MessageId, key: NodeId, value: Value)
    | FindNode(id: MessageId, target: NodeId)
    | FindValue(id: MessageId, key: NodeId)

  datatype Response =
    | Pong(id: MessageId)
    | StoreResult(id: MessageId, success: bool)
    | NodesFound(id: MessageId, nodes: seq<Contact>)
    | ValueFound(id: MessageId, value: Option<Value>, nodes: seq<Contact>)

  /** What a node holds (expired values left out) and the ids it waits for. */
  datatype Peer = Peer(store: map<NodeId, Value>, pending: set<MessageId>)

  /** The answer to a request; `nodes` are the closest contacts the node knows. */
  function Respond(p: Peer, request: Request, nodes: seq<Contact>): (r: (Peer, Response))
    ensures r.0.pending == p.pending && r.1.id == request.id
  {
    match request
    case Ping(id) => (p, Pong(id))
    case Store(id, key, value) => (p.(store := p.store[key := value]), StoreResult(id, true))
    case FindNode(id, target) => (p, NodesFound(id, nodes))
    case FindValue(id, key) =>
      if key in p.store then (p, ValueFound(id, Some(p.store[key]), [])) else (p, ValueFound(id, None, nodes))
  }

  /** The contacts a node with this table names in its answer to a request. */
  function Nearby(t: Table, order: seq<nat>, request: Request): seq<Contact>
    requires forall i :: i in order ==> i in t.buckets
  {
    match request
    case FindNode(id, target) => ClosestTo(t, target, K, order)
    case FindValue(id, key) => ClosestTo(t, key, K, order)
    case _ => []
  }

  function Handled(p: Peer, t: Table, order: seq<nat>, request: Request): (Peer, Response)
    requires forall i :: i in order ==> i in t.buckets
  {
    Respond(p, request, Nearby(t, order, request))
  }

  function Waiting(p: Peer, id: MessageId): Peer {
    p.(pending := p.pending + {id})
  }

  /** The peer once a response came in, and whether anyone was waiting for it. */
  function Delivered(p: Peer, id: MessageId): (Peer, bool) {
    (p.(pending := p.pending - {id}), id in p.pending)
  }

  class Node {
    const table: RoutingTable
    var store: map<NodeId, Value>
    var pending: set<MessageId>

    constructor (table: RoutingTable)
      ensures this.table == table && State() == Peer(map[], {})
    {
      this.table := table;
      store, pending := map[], {};
    }

    function State(): Peer
      reads this
    {
      Peer(store, pending)
    }

    method HandleRequest(request: Request, order: seq<nat>) returns (response: Response)
      requires table.Valid() && IsOrder(order, table.State())
      modifies this
      ensures table.Valid() && table.State() == old(table.State())
      ensures (State(), response) == Handled(old(State()), table.State(), order, request)
    {
      match request {
        case Ping(id) => response := Pong(id);
        case Store(id, key, value) =>
          store := store[key := value];
          response := StoreResult(id, true);
        case FindNode(id, target) =>
          var nodes := table.GetClosest(target, K, order);
          response := NodesFound(id, nodes);
        case FindValue(id, key) =>
          if key in store {
            response := ValueFound(id, Some(store[key]), []);
          } else {
            var nodes := table.GetClosest(key, K, order);
            response := ValueFound(id, None, nodes);
          }
      }
    }

    method BeginWait(id: MessageId)
      modifies this`pending
      ensures State() == Waiting(old(State()), id)
    {
      pending := pending + {id};
    }

    method DeliverResponse(response: Response) returns (taken: bool)
      modifies this`pending
      ensures (State(), taken) == Delivered(old(State()), response.id)
    {
      taken := response.id in pending;
      pending := pending - {response.id};
    }

    method TimeOut(id: MessageId)
      modifies this`pending
      ensures State() == Delivered(old(State()), id).0
    {
      pending := pending - {id};
    }
  }

  // ----- what the handlers answer -----

  /** The answer to FIND_NODE names, in order, the K nearest contacts of the table. */
  lemma FindNodeIsHonest(p: Peer, t: Table, order: seq<nat>, id: MessageId, target: NodeId)
    requires IsOrder(order, t)
    ensures var (p', r) := Handled(p, t, order, FindNode(id, target));
            && p' == p && r.NodesFound? && r.id == id
            && IsNearest(r.nodes, Scan(t, order), K, RankTo(target))
            && StaticNetworks.HonestReply(t, target, Ok(r.nodes))
  {
    hide RankTo, TopK, IsNearest;
    TopKIsNearest(Scan(t, order), K, RankTo(target));
    StaticNetworks.HonestBy(t, target, order);
  }

  /** So does the answer to FIND_VALUE when the key is not held; otherwise it carries
      the value and names nobody. */
  lemma FindValueIsHonest(p: Peer, t: Table, order: seq<nat>, id: MessageId, key: NodeId)
    requires IsOrder(order, t)
    ensures var (p', r) := Handled(p, t, order, FindValue(id, key));
            && p' == p && r.ValueFound? && r.id == id
            && (key in p.store ==> r.value == Some(p.store[key]) && r.nodes == [])
            && (key !in p.store ==> r.value == None && IsNearest(r.nodes, Scan(t, order), K, RankTo(key)) &&
                                    StaticNetworks.HonestReply(t, key, Ok(r.nodes)))
  {
    hide RankTo, TopK, IsNearest;
    TopKIsNearest(Scan(t, order), K, RankTo(key));
    StaticNetworks.HonestBy(t, key, order);
  }

  /** A node that handled a STORE says so and answers a later FIND_VALUE of that key
      with the value, and every other key as before; no other request changes what
      the node holds. */
  lemma StoreThenFind(p: Peer, t: Table, order: seq<nat>, store: MessageId, find: MessageId, key: NodeId,
        value: Value, other: NodeId, request: Request)
    requires IsOrder(order, t)
    ensures var (p', r) := Handled(p, t, order, Store(store, key, value));
            && r == StoreResult(store, true)
            && Handled(p', t, order, FindValue(find, key)) == (p', ValueFound(find, Some(value), []))
            && (other != key ==> Handled(p', t, order, FindValue(find, other)).1 ==
                                 Handled(p, t, order, FindValue(find, other)).1)
    ensures !request.Store? ==> Handled(p, t, order, request).0 == p
    ensures request.Ping? ==> Handled(p, t, order, request).1 == Pong(request.id)
  {
    hide ClosestTo;
  }

  /** A response is handed over once: the same id again is not taken, and other ids
      are waited for as before. */
  lemma DeliveredOnce(p: Peer, id: MessageId, other: MessageId)
    ensures Delivered(Waiting(p, id), id).1
    ensures !Delivered(Delivered(p, id).0, id).1
    ensures other != id ==> Delivered(Delivered(p, id).0, other).1 == Delivered(p, other).1
    ensures Delivered(p, id).0.store == p.store
  {
  }

  // ----- lookups among such nodes -----

  /** What a FIND_NODE call makes of the response. */
  function AsReply(r: Response): Reply {
    match r
    case NodesFound(id, nodes) => Ok(nodes)
    case _ => Err
  }

  /** The reply is what the handler of a node with this table answers. */
  ghost predicate ByHandler(t: Table, target: NodeId, reply: Reply) {
    exists p: Peer, order: seq<nat>, id: MessageId :: IsOrder(order, t) &&
      reply == AsReply(Handled(p, t, order, FindNode(id, target)).1)
  }

  ghost predicate ByHandlers(answers: Answers, net: map<NodeId, Table>, target: NodeId) {
    forall r: nat, i: nat, q: Contact :: q.id in net ==> ByHandler(net[q.id], target, answers(r, i, q))
  }

  lemma HandlersAreHonest(answers: Answers, net: map<NodeId, Table>, target: NodeId)
    requires ByHandlers(answers, net, target)
    ensures StaticNetworks.HonestAnswers(answers, net, target)
  {
    hide IsNearest, Respond, Nearby;
    forall r: nat, i: nat, q: Contact | q.id in net
      ensures StaticNetworks.HonestReply(net[q.id], target, answers(r, i, q))
    {
      var t, reply := net[q.id], answers(r, i, q);
      assert ByHandler(t, target, reply);
      var p: Peer, order: seq<nat>, id: MessageId :| IsOrder(order, t) &&
        reply == AsReply(Handled(p, t, order, FindNode(id, target)).1);
      FindNodeIsHonest(p, t, order, id, target);
    }
  }

  /** In a covered network of nodes that answer by these handlers from tables that do
      not change, a lookup returns the nearest node first, and all K nearest whenever
      the nearest node's table holds the others. */
  lemma LookupAmongHandlers(t: Table, net: map<NodeId, Table>, target: NodeId, order: seq<nat>, answers: Answers)
    requires StaticNetworks.Entry(t, net, order) && StaticNetworks.Network(net, t.localId)
    requires forall id :: id in net ==> StaticNetworks.Covers(net[id], net, t.localId)
    requires ByHandlers(answers, net, target)
    ensures var snapshot := ClosestTo(t, target, K, order);
            Sorted(snapshot, RankTo(target)) &&
            var found := Rounds(Start(t.localId, snapshot), 0, target, answers).0.closest;
            && found != [] && found[0].id in net
            && (forall m :: m in net ==> Far(found[0].id, target) <= Far(m, target))
            && (StaticNetworks.HoldsNearest(net, found[0].id, target) ==>
                  IdsOf(found) == Nearest(net.Keys, target))
  {
    hide ByHandlers, Far, RankTo, ClosestTo, Nearest, IdsOf, Rounds;
    hide StaticNetworks.Entry, StaticNetworks.Network, StaticNetworks.Covers, StaticNetworks.HonestAnswers;
    hide StaticNetworks.HoldsNearest;
    HandlersAreHonest(answers, net, target);
    StaticNetworks.LookupFindsNearest(t, net, target, order, answers);
    StaticNetworks.LookupFindsAllNearest(t, net, target, order, answers);
  }
}
