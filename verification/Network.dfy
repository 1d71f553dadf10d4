/** Honest nodes exchanging messages: lookups for values, caching, publishing and
    replication, as a system of steps. */
module Network {
  import opened Wrappers
  import opened NodeIds
  import opened Contacts
  import opened Nodes

  type LookupId = nat

  datatype Envelope =
    | Asking(from: Address, to: Address, request: Request)
    | Answering(from: Address, to: Address, response: Response)

  datatype Purpose = ForPing | ForStore | ForFindNode | ForFindValue(lookup: LookupId)

  /** A call is sent, then waited for, then answered or given up. */
  datatype Phase = Sent | Awaited | Answered(response: Response) | GivenUp

  datatype Call = Call(owner: Address, purpose: Purpose, phase: Phase)

  datatype Lookup = Lookup(owner: Address, key: NodeId, open: bool)

  datatype World = World(
    peers: map<Address, Peer>,
    net: set<Envelope>,
    calls: map<MessageId, Call>,
    lookups: map<LookupId, Lookup>,
    carried: set<(Address, NodeId, Value)>,   // values a node has taken up to send or store again
    puts: set<(NodeId, Value)>,               // everything clients ever stored
    returned: set<(NodeId, Value)>            // everything lookups ever returned
  )

  datatype Step =
    | ClientStore(n: Address, key: NodeId, value: Value)
    | TakeUp(n: Address, key: NodeId)
    | StoreAgain(n: Address, key: NodeId, value: Value)
    | SendStore(n: Address, to: Address, id: MessageId, key: NodeId, value: Value)
    | SendPing(n: Address, to: Address, id: MessageId)
    | SendFindNode(n: Address, to: Address, id: MessageId, target: NodeId)
    | StartLookup(n: Address, l: LookupId, key: NodeId)
    | SendFindValue(l: LookupId, to: Address, id: MessageId)
    | Handle(request: Envelope, nodes: seq<Contact>)
    | BeginWait(id: MessageId)
    | Deliver(response: Envelope)
    | TimeOut(id: MessageId)
    | Abandon(id: MessageId)
    | UseValue(id: MessageId)
    | EndLookup(l: LookupId)
    | Expire(n: Address, key: NodeId)
    | Lose(message: Envelope)

  /** A fresh call and its request on the network. */
  function Ask(w: World, n: Address, to: Address, request: Request, purpose: Purpose): World {
    w.(net := w.net + {Asking(n, to, request)}, calls := w.calls[request.id := Call(n, purpose, Sent)])
  }

  function Put(p: Peer, key: NodeId, value: Value): Peer {
    p.(store := p.store[key := value])
  }

  /** When a step can be taken; message ids are fresh. */
  predicate Enabled(w: World, s: Step) {
    match s
    case ClientStore(n, key, value) => n in w.peers
    case TakeUp(n, key) => n in w.peers && key in w.peers[n].store
    case StoreAgain(n, key, value) => n in w.peers && (n, key, value) in w.carried
    case SendStore(n, to, id, key, value) => n in w.peers && id !in w.calls && (n, key, value) in w.carried
    case SendPing(n, to, id) => n in w.peers && id !in w.calls
    case SendFindNode(n, to, id, target) => n in w.peers && id !in w.calls
    case StartLookup(n, l, key) => n in w.peers && l !in w.lookups
    case SendFindValue(l, to, id) => l in w.lookups && w.lookups[l].open && id !in w.calls
    case Handle(m, nodes) => m in w.net && m.Asking? && m.to in w.peers
    case BeginWait(id) => id in w.calls && w.calls[id].phase == Sent && w.calls[id].owner in w.peers
    case Deliver(m) => m in w.net && m.Answering? && m.to in w.peers
    case TimeOut(id) => id in w.calls && w.calls[id].phase == Awaited && w.calls[id].owner in w.peers
    case Abandon(id) => id in w.calls && (w.calls[id].phase == Sent || w.calls[id].phase == Awaited)
    case UseValue(id) =>
      && id in w.calls && w.calls[id].purpose.ForFindValue? && w.calls[id].phase.Answered?
      && w.calls[id].phase.response.ValueFound? && w.calls[id].phase.response.value.Some?
      && w.calls[id].purpose.lookup in w.lookups && w.lookups[w.calls[id].purpose.lookup].open
      && w.lookups[w.calls[id].purpose.lookup].owner in w.peers
    case EndLookup(l) => l in w.lookups
    case Expire(n, key) => n in w.peers
    case Lose(m) => true
  }

  function After(w: World, s: Step): World
    requires Enabled(w, s)
  {
    match s
    case ClientStore(n, key, value) =>
      w.(peers := w.peers[n := Put(w.peers[n], key, value)], puts := w.puts + {(key, value)},
         carried := w.carried + {(n, key, value)})
    case TakeUp(n, key) => w.(carried := w.carried + {(n, key, w.peers[n].store[key])})
    case StoreAgain(n, key, value) => w.(peers := w.peers[n := Put(w.peers[n], key, value)])
    case SendStore(n, to, id, key, value) => Ask(w, n, to, Store(id, key, value), ForStore)
    case SendPing(n, to, id) => Ask(w, n, to, Ping(id), ForPing)
    case SendFindNode(n, to, id, target) => Ask(w, n, to, FindNode(id, target), ForFindNode)
    case StartLookup(n, l, key) =>
      var p := w.peers[n];
      if key in p.store then
        w.(lookups := w.lookups[l := Lookup(n, key, false)], returned := w.returned + {(key, p.store[key])})
      else w.(lookups := w.lookups[l := Lookup(n, key, true)])
    case SendFindValue(l, to, id) =>
      Ask(w, w.lookups[l].owner, to, FindValue(id, w.lookups[l].key), ForFindValue(l))
    case Handle(m, nodes) =>
      var (p, response) := Respond(w.peers[m.to], m.request, nodes);
      w.(peers := w.peers[m.to := p], net := w.net + {Answering(m.to, m.from, response)})
    case BeginWait(id) =>
      var c := w.calls[id];
      w.(peers := w.peers[c.owner := Waiting(w.peers[c.owner], id)], calls := w.calls[id := c.(phase := Awaited)])
    case Deliver(m) =>
      var (p, taken) := Delivered(w.peers[m.to], m.response.id);
      var id := m.response.id;
      w.(peers := w.peers[m.to := p],
         calls := if taken && id in w.calls && w.calls[id].phase == Awaited
                  then w.calls[id := w.calls[id].(phase := Answered(m.response))] else w.calls)
    case TimeOut(id) =>
      var c := w.calls[id];
      w.(peers := w.peers[c.owner := Delivered(w.peers[c.owner], id).0], calls := w.calls[id := c.(phase := GivenUp)])
    case Abandon(id) => w.(calls := w.calls[id := w.calls[id].(phase := GivenUp)])
    case UseValue(id) =>
      var l := w.calls[id].purpose.lookup;
      var look, value := w.lookups[l], w.calls[id].phase.response.value.value;
      w.(peers := w.peers[look.owner := Put(w.peers[look.owner], look.key, value)],
         lookups := w.lookups[l := look.(open := false)], returned := w.returned + {(look.key, value)})
    case EndLookup(l) => w.(lookups := w.lookups[l := w.lookups[l].(open := false)])
    case Expire(n, key) => w.(peers := w.peers[n := w.peers[n].(store := w.peers[n].store - {key})])
    case Lose(m) => w.(net := w.net - {m})
  }

  /** Any number of nodes, nothing stored, nothing under way. */
  ghost predicate Initial(w: World) {
    && (forall n :: n in w.peers ==> w.peers[n] == Peer(map[], {}))
    && w.net == {} && w.calls == map[] && w.lookups == map[] && w.carried == {} && w.puts == {} && w.returned == {}
  }

  /** `run` lists the worlds reached, one step at a time. */
  ghost predicate IsRun(run: seq<World>, steps: seq<Step>) {
    && |run| == |steps| + 1 && Initial(run[0])
    && forall i :: 0 <= i < |steps| ==> Enabled(run[i], steps[i]) && run[i + 1] == After(run[i], steps[i])
  }

  // ----- what every run keeps -----

  /** The request a call put on the network. */
  ghost predicate RequestFits(w: World, c: Call, r: Request) {
    match c.purpose
    case ForPing => r.Ping?
    case ForStore => r.Store?
    case ForFindNode => r.FindNode?
    case ForFindValue(l) => l in w.lookups && r.FindValue? && r.key == w.lookups[l].key
  }

  /** A response has the type its call expects, and a value it carries was put
      under the key the call asked for. */
  ghost predicate ResponseFits(w: World, c: Call, r: Response) {
    match c.purpose
    case ForPing => r.Pong?
    case ForStore => r.StoreResult?
    case ForFindNode => r.NodesFound?
    case ForFindValue(l) =>
      l in w.lookups && r.ValueFound? && (r.value.Some? ==> (w.lookups[l].key, r.value.value) in w.puts)
  }

  ghost predicate MessageOk(w: World, m: Envelope) {
    match m
    case Asking(from, to, r) =>
      && r.id in w.calls && w.calls[r.id].owner == from && RequestFits(w, w.calls[r.id], r)
      && (r.Store? ==> (r.key, r.value) in w.puts)
    case Answering(from, to, r) =>
      r.id in w.calls && w.calls[r.id].owner == to && ResponseFits(w, w.calls[r.id], r)
  }

  ghost predicate CallOk(w: World, id: MessageId)
    requires id in w.calls
  {
    var c := w.calls[id];
    && (c.purpose.ForFindValue? ==> c.purpose.lookup in w.lookups && w.lookups[c.purpose.lookup].owner == c.owner)
    && (c.phase.Answered? ==> c.phase.response.id == id && ResponseFits(w, c, c.phase.response))
    && (c.phase == Awaited ==> c.owner in w.peers && id in w.peers[c.owner].pending)
  }

  /** Everything stored, carried on or returned was put under the same key. */
  ghost predicate ValuesOk(w: World) {
    && (forall n, key :: n in w.peers && key in w.peers[n].store ==> (key, w.peers[n].store[key]) in w.puts)
    && (forall c :: c in w.carried ==> (c.1, c.2) in w.puts)
    && w.returned <= w.puts
  }

  ghost predicate MessagesOk(w: World) {
    forall m :: m in w.net ==> MessageOk(w, m)
  }

  ghost predicate CallsOk(w: World) {
    forall id :: id in w.calls ==> CallOk(w, id)
  }

  /** A node waits only for calls of its own, and no longer once they are answered. */
  ghost predicate PendingOk(w: World) {
    forall n, id :: n in w.peers && id in w.peers[n].pending ==> WaitOk(w, n, id)
  }

  ghost predicate WaitOk(w: World, n: Address, id: MessageId) {
    id in w.calls && w.calls[id].owner == n && (w.calls[id].phase == Awaited || w.calls[id].phase == GivenUp)
  }

  ghost predicate Inv(w: World) {
    ValuesOk(w) && MessagesOk(w) && CallsOk(w) && PendingOk(w)
  }

  /** A later world knows at least the calls, lookups and puts of an earlier one. */
  ghost predicate Extends(w: World, w': World) {
    && w.puts <= w'.puts && w.peers.Keys == w'.peers.Keys
    && w.calls.Keys <= w'.calls.Keys && w.lookups.Keys <= w'.lookups.Keys
    && (forall id :: id in w.calls ==> SameCall(w.calls[id], w'.calls[id]))
    && (forall l :: l in w.lookups ==> SameLookup(w.lookups[l], w'.lookups[l]))
  }

  ghost predicate SameCall(c: Call, d: Call) {
    c.owner == d.owner && c.purpose == d.purpose
  }

  ghost predicate SameLookup(k: Lookup, l: Lookup) {
    k.owner == l.owner && k.key == l.key
  }

  lemma StepExtends(w: World, s: Step)
    requires Enabled(w, s)
    ensures Extends(w, After(w, s))
  {
    hide Respond, Put, Waiting, Delivered;
  }

  lemma MessageStaysOk(w: World, w': World, m: Envelope)
    requires MessageOk(w, m) && Extends(w, w')
    ensures MessageOk(w', m)
  {
  }

  lemma StepKeepsValues(w: World, s: Step)
    requires ValuesOk(w) && MessagesOk(w) && CallsOk(w) && Enabled(w, s)
    ensures ValuesOk(After(w, s))
  {
    if s.Handle? {
      assert MessageOk(w, s.request);
    } else if s.UseValue? {
      assert CallOk(w, s.id);
    }
  }

  /** The response to a request that fits its call fits the call too. */
  lemma ResponseToFits(w: World, m: Envelope, nodes: seq<Contact>)
    requires ValuesOk(w) && MessageOk(w, m) && m.Asking? && m.to in w.peers
    ensures MessageOk(w, Answering(m.to, m.from, Respond(w.peers[m.to], m.request, nodes).1))
  {
  }

  lemma StepKeepsMessages(w: World, s: Step)
    requires ValuesOk(w) && MessagesOk(w) && Enabled(w, s)
    ensures MessagesOk(After(w, s))
  {
    StepExtends(w, s);
    var w' := After(w, s);
    forall m | m in w'.net
      ensures MessageOk(w', m)
    {
      if m in w.net {
        MessageStaysOk(w, w', m);
      } else if s.Handle? {
        ResponseToFits(w, s.request, s.nodes);
        MessageStaysOk(w, w', m);
      }
    }
  }

  lemma CallStaysOk(w: World, w': World, id: MessageId)
    requires id in w.calls && CallOk(w, id) && Extends(w, w')
    requires w'.calls[id].phase == w.calls[id].phase
    requires w.calls[id].phase == Awaited && w.calls[id].owner in w.peers ==> id in w'.peers[w.calls[id].owner].pending
    ensures CallOk(w', id)
  {
  }

  lemma StepKeepsCalls(w: World, s: Step)
    requires MessagesOk(w) && CallsOk(w) && Enabled(w, s)
    ensures CallsOk(After(w, s))
  {
    StepExtends(w, s);
    var w' := After(w, s);
    forall id | id in w'.calls
      ensures CallOk(w', id)
    {
      if id in w.calls {
        assert CallOk(w, id);
        if s.Deliver? && s.response.response.id == id {
          assert MessageOk(w, s.response);
          MessageStaysOk(w, w', s.response);
        } else if w'.calls[id].phase == w.calls[id].phase {
          CallStaysOk(w, w', id);
        }
      }
    }
  }

  /** Only BeginWait makes a node wait, and only for a call of its own; a response or
      a timeout ends the wait. */
  lemma StepWaits(w: World, s: Step, n: Address)
    requires Enabled(w, s) && n in w.peers
    ensures After(w, s).peers.Keys == w.peers.Keys
    ensures After(w, s).peers[n].pending <=
            w.peers[n].pending + (if s.BeginWait? && w.calls[s.id].owner == n then {s.id} else {})
    ensures s.Deliver? && s.response.to == n ==> s.response.response.id !in After(w, s).peers[n].pending
    ensures s.TimeOut? && w.calls[s.id].owner == n ==> s.id !in After(w, s).peers[n].pending
  {
    if s.Handle? {
      assert Respond(w.peers[s.request.to], s.request.request, s.nodes).0.pending == w.peers[s.request.to].pending;
    }
  }

  lemma StepKeepsPending(w: World, s: Step)
    requires PendingOk(w) && Enabled(w, s)
    ensures PendingOk(After(w, s))
  {
    StepExtends(w, s);
    var w' := After(w, s);
    hide After, Enabled;
    forall n, id | n in w'.peers && id in w'.peers[n].pending
      ensures WaitOk(w', n, id)
    {
      StepWaits(w, s, n);
      if id in w.peers[n].pending {
        assert WaitOk(w, n, id);
        StepKeepsWait(w, s, n, id);
      } else {
        BegunWait(w, s, id);
      }
    }
  }

  lemma StepKeepsWait(w: World, s: Step, n: Address, id: MessageId)
    requires Enabled(w, s) && WaitOk(w, n, id)
    requires s.Deliver? && s.response.to == n ==> s.response.response.id != id
    requires s.Deliver? && s.response.response.id == id ==> id !in w.peers[s.response.to].pending
    ensures WaitOk(After(w, s), n, id)
  {
  }

  lemma BegunWait(w: World, s: Step, id: MessageId)
    requires Enabled(w, s) && s == BeginWait(id)
    ensures WaitOk(After(w, s), w.calls[id].owner, id)
  {
  }

  lemma {:induction false} RunKeepsInv(run: seq<World>, steps: seq<Step>)
    requires IsRun(run, steps)
    ensures forall i :: 0 <= i < |run| ==> Inv(run[i])
  {
    if steps != [] {
      var n := |steps| - 1;
      RunKeepsInv(run[..n + 1], steps[..n]);
      assert run[..n + 1][n] == run[n];
      StepKeepsValues(run[n], steps[n]);
      StepKeepsMessages(run[n], steps[n]);
      StepKeepsCalls(run[n], steps[n]);
      StepKeepsPending(run[n], steps[n]);
      forall i | 0 <= i < |run|
        ensures Inv(run[i])
      {
        if i <= n {
          assert run[..n + 1][i] == run[i];
        }
      }
    }
  }

  /** In every run of any number of honest nodes, with messages lost, delayed and
      duplicated, each value a node holds under a key, a STORE carries, or a lookup
      returned was put under that very key by a client before. */
  lemma Provenance(run: seq<World>, steps: seq<Step>, i: nat)
    requires IsRun(run, steps) && i < |run|
    ensures forall n, key :: n in run[i].peers && key in run[i].peers[n].store ==>
              ClientPut(steps[..i], key, run[i].peers[n].store[key])
    ensures forall m :: m in run[i].net && m.Asking? && m.request.Store? ==>
              ClientPut(steps[..i], m.request.key, m.request.value)
    ensures forall r :: r in run[i].returned ==> ClientPut(steps[..i], r.0, r.1)
  {
    RunKeepsInv(run, steps);
    PutsByClients(run, steps, i);
    assert forall m :: m in run[i].net ==> MessageOk(run[i], m);
  }

  /** Some step is a client storing the value under the key. */
  ghost predicate ClientPut(steps: seq<Step>, key: NodeId, value: Value) {
    exists j :: 0 <= j < |steps| && steps[j].ClientStore? && steps[j].key == key && steps[j].value == value
  }

  lemma {:induction false} PutsByClients(run: seq<World>, steps: seq<Step>, i: nat)
    requires IsRun(run, steps) && i < |run|
    ensures forall p :: p in run[i].puts ==> ClientPut(steps[..i], p.0, p.1)
  {
    if i > 0 {
      PutsByClients(run, steps, i - 1);
      var s := steps[i - 1];
      assert steps[..i] == steps[..i - 1] + [s];
      forall p | p in run[i].puts
        ensures ClientPut(steps[..i], p.0, p.1)
      {
        if p in run[i - 1].puts {
          var j :| 0 <= j < i - 1 && steps[j].ClientStore? && steps[j].key == p.0 && steps[j].value == p.1;
          assert steps[..i][j] == steps[j];
        } else {
          assert steps[..i][i - 1] == s;
        }
      }
    }
  }

  /** Every response handed to a call has the type the call expects: the branches
      for unexpected responses are never taken. */
  lemma ResponsesHaveTheExpectedType(run: seq<World>, steps: seq<Step>, i: nat, id: MessageId)
    requires IsRun(run, steps) && i < |run|
    requires id in run[i].calls && run[i].calls[id].phase.Answered?
    ensures var c := run[i].calls[id];
            var r := c.phase.response;
            && r.id == id
            && (c.purpose == ForPing <==> r.Pong?) && (c.purpose == ForStore <==> r.StoreResult?)
            && (c.purpose == ForFindNode <==> r.NodesFound?) && (c.purpose.ForFindValue? <==> r.ValueFound?)
  {
    RunKeepsInv(run, steps);
    assert CallOk(run[i], id);
  }

  /** What a call was answered never changes: a late or repeated response is
      dropped, also after the call was given up. */
  lemma {:induction false} AnswersAreFinal(run: seq<World>, steps: seq<Step>, i: nat, j: nat, id: MessageId)
    requires IsRun(run, steps) && i <= j < |run|
    requires id in run[i].calls && (run[i].calls[id].phase.Answered? || run[i].calls[id].phase == GivenUp)
    ensures id in run[j].calls && run[j].calls[id] == run[i].calls[id]
  {
    hide Enabled, After;
    if i < j {
      AnswersAreFinal(run, steps, i, j - 1, id);
      StepKeepsFinal(run[j - 1], steps[j - 1], id);
    }
  }

  lemma StepKeepsFinal(w: World, s: Step, id: MessageId)
    requires Enabled(w, s) && id in w.calls && (w.calls[id].phase.Answered? || w.calls[id].phase == GivenUp)
    ensures id in After(w, s).calls && After(w, s).calls[id] == w.calls[id]
  {
  }

  // ----- storing and finding -----

  /** What a node holds under a key. */
  function Held(p: Peer, key: NodeId): Option<Value> {
    if key in p.store then Some(p.store[key]) else None
  }

  /** A step may write a value under a key of a node, or drop it; most do neither. */
  datatype Write = Nothing | Wrote(value: Value) | Dropped

  ghost function WriteOf(w: World, s: Step, n: Address, key: NodeId): Write
    requires Enabled(w, s)
  {
    match s
    case ClientStore(m, k, value) => if m == n && k == key then Wrote(value) else Nothing
    case StoreAgain(m, k, value) => if m == n && k == key then Wrote(value) else Nothing
    case Handle(m, nodes) =>
      if m.to == n && m.request.Store? && m.request.key == key then Wrote(m.request.value) else Nothing
    case UseValue(id) =>
      var look := w.lookups[w.calls[id].purpose.lookup];
      if look.owner == n && look.key == key then Wrote(w.calls[id].phase.response.value.value) else Nothing
    case Expire(m, k) => if m == n && k == key then Dropped else Nothing
    case _ => Nothing
  }

  lemma StepHolds(w: World, s: Step, n: Address, key: NodeId)
    requires Enabled(w, s) && n in w.peers
    ensures n in After(w, s).peers
    ensures Held(After(w, s).peers[n], key) ==
            match WriteOf(w, s, n, key)
            case Nothing => Held(w.peers[n], key)
            case Wrote(value) => Some(value)
            case Dropped => None
  {
  }

  /** The last step before the `j`-th world that wrote or dropped something under a key
      of a node. */
  ghost predicate LastWrite(run: seq<World>, steps: seq<Step>, i: nat, j: nat, n: Address, key: NodeId)
    requires IsRun(run, steps) && j <= |steps|
  {
    && i < j && WriteOf(run[i], steps[i], n, key) != Nothing
    && forall m :: i < m < j ==> WriteOf(run[m], steps[m], n, key) == Nothing
  }

  /** In every run a node holds a value under a key exactly when the last step that
      wrote or dropped anything there wrote that value: stored by a client, sent by
      another node, taken over from a lookup, or stored again. */
  lemma {:induction false} HeldExactly(run: seq<World>, steps: seq<Step>, j: nat, n: Address, key: NodeId, value: Value)
    requires IsRun(run, steps) && j < |run| && n in run[j].peers
    ensures Held(run[j].peers[n], key) == Some(value) <==>
            exists i: nat :: LastWrite(run, steps, i, j, n, key) && WriteOf(run[i], steps[i], n, key) == Wrote(value)
  {
    hide After, WriteOf, Enabled;
    if j > 0 {
      StepExtends(run[j - 1], steps[j - 1]);
      HeldExactly(run, steps, j - 1, n, key, value);
      StepHolds(run[j - 1], steps[j - 1], n, key);
      if WriteOf(run[j - 1], steps[j - 1], n, key) == Nothing {
        assert forall i: nat :: LastWrite(run, steps, i, j, n, key) <==> LastWrite(run, steps, i, j - 1, n, key);
      } else {
        assert LastWrite(run, steps, j - 1, j, n, key);
        assert forall i: nat :: LastWrite(run, steps, i, j, n, key) ==> i == j - 1;
      }
    }
  }

  /** A call that was given up, by a timeout or otherwise, is never answered. */
  lemma GivenUpForGood(run: seq<World>, steps: seq<Step>, i: nat, j: nat, id: MessageId)
    requires IsRun(run, steps) && i < j < |run| && (steps[i] == TimeOut(id) || steps[i] == Abandon(id))
    ensures id in run[j].calls && run[j].calls[id].phase == GivenUp
  {
    assert run[i + 1] == After(run[i], steps[i]);
    hide After;
    AnswersAreFinal(run, steps, i + 1, j, id);
  }

  /** A request that is lost before its call ends is not on the network again. */
  lemma {:induction false} LostRequestsStayLost(run: seq<World>, steps: seq<Step>, i: nat, j: nat, m: Envelope)
    requires IsRun(run, steps) && i < j < |run| && steps[i] == Lose(m)
    requires m.Asking? && m.request.id in run[i].calls
    ensures m.request.id in run[j].calls && m !in run[j].net
  {
    hide Enabled, After;
    if i == j - 1 {
      LostIsGone(run[i], m);
    } else {
      LostRequestsStayLost(run, steps, i, j - 1, m);
      NotSentAgain(run[j - 1], steps[j - 1], m);
    }
  }

  lemma LostIsGone(w: World, m: Envelope)
    ensures m !in After(w, Lose(m)).net && After(w, Lose(m)).calls == w.calls
  {
  }

  lemma NotSentAgain(w: World, s: Step, m: Envelope)
    requires Enabled(w, s) && m.Asking? && m.request.id in w.calls && m !in w.net
    ensures m.request.id in After(w, s).calls && m !in After(w, s).net
  {
    hide Respond, Waiting, Delivered;
  }

  /** A lookup returns at once what its own node holds. */
  lemma OwnValueIsReturned(w: World, n: Address, l: LookupId, key: NodeId)
    requires Enabled(w, StartLookup(n, l, key)) && key in w.peers[n].store
    ensures var w' := After(w, StartLookup(n, l, key));
            (key, w.peers[n].store[key]) in w'.returned && !w'.lookups[l].open && w'.net == w.net
  {
  }

  ghost predicate Takes(w: World, s: Step, w': World) {
    Enabled(w, s) && w' == After(w, s)
  }

  /** Whatever else is under way, a node that lacks a value can fetch it from one
      that holds it: the lookup returns it and the asker keeps a copy. */
  lemma HeldValueCanBeFetched(w: World, a: Address, b: Address, l: LookupId, id: MessageId, key: NodeId)
        returns (run: seq<World>)
    requires a in w.peers && b in w.peers && a != b && l !in w.lookups && id !in w.calls
    requires key in w.peers[a].store && key !in w.peers[b].store
    ensures |run| == 7 && run[0] == w
    ensures Takes(run[0], StartLookup(b, l, key), run[1])
    ensures Takes(run[1], SendFindValue(l, a, id), run[2])
    ensures Takes(run[2], BeginWait(id), run[3])
    ensures Takes(run[3], Handle(Asking(b, a, FindValue(id, key)), []), run[4])
    ensures Takes(run[4], Deliver(Answering(a, b, ValueFound(id, Some(w.peers[a].store[key]), []))), run[5])
    ensures Takes(run[5], UseValue(id), run[6])
    ensures (key, w.peers[a].store[key]) in run[6].returned && run[6].lookups == w.lookups[l := Lookup(b, key, false)]
    ensures b in run[6].peers && run[6].peers[b].store == w.peers[b].store[key := w.peers[a].store[key]]
  {
    hide Enabled, After, Takes;
    var w3, w1, w2 := AskForValue(w, a, b, l, id, key);
    var w6, w4, w5 := AnswerWithValue(w3, a, b, l, id, key);
    run := [w, w1, w2, w3, w4, w5, w6];
  }

  lemma AskForValue(w: World, a: Address, b: Address, l: LookupId, id: MessageId, key: NodeId)
        returns (w3: World, w1: World, w2: World)
    requires b in w.peers && l !in w.lookups && id !in w.calls && key !in w.peers[b].store
    ensures Takes(w, StartLookup(b, l, key), w1) && Takes(w1, SendFindValue(l, a, id), w2)
        && Takes(w2, BeginWait(id), w3)
    ensures w3 == w.(lookups := w.lookups[l := Lookup(b, key, true)],
                     net := w.net + {Asking(b, a, FindValue(id, key))},
                     calls := w.calls[id := Call(b, ForFindValue(l), Awaited)],
                     peers := w.peers[b := Waiting(w.peers[b], id)])
  {
    w1 := After(w, StartLookup(b, l, key));
    w2 := After(w1, SendFindValue(l, a, id));
    w3 := After(w2, BeginWait(id));
  }

  lemma AnswerWithValue(w: World, a: Address, b: Address, l: LookupId, id: MessageId, key: NodeId)
        returns (w3: World, w1: World, w2: World)
    requires a in w.peers && b in w.peers && a != b && key in w.peers[a].store
    requires l in w.lookups && w.lookups[l] == Lookup(b, key, true)
    requires id in w.calls && w.calls[id] == Call(b, ForFindValue(l), Awaited) && id in w.peers[b].pending
    requires Asking(b, a, FindValue(id, key)) in w.net
    ensures Takes(w, Handle(Asking(b, a, FindValue(id, key)), []), w1)
    ensures Takes(w1, Deliver(Answering(a, b, ValueFound(id, Some(w.peers[a].store[key]), []))), w2)
    ensures Takes(w2, UseValue(id), w3)
    ensures (key, w.peers[a].store[key]) in w3.returned && w3.lookups == w.lookups[l := Lookup(b, key, false)]
    ensures b in w3.peers && w3.peers[b].store == w.peers[b].store[key := w.peers[a].store[key]]
  {
    var answer := ValueFound(id, Some(w.peers[a].store[key]), []);
    w1 := After(w, Handle(Asking(b, a, FindValue(id, key)), []));
    assert w1 == w.(peers := w.peers[a := w.peers[a]], net := w.net + {Answering(a, b, answer)});
    w2 := After(w1, Deliver(Answering(a, b, answer)));
    assert w2.calls[id] == Call(b, ForFindValue(l), Answered(answer)) && w2.lookups == w.lookups;
    w3 := After(w2, UseValue(id));
  }

  /** A node that holds a value can replicate it to another, which then holds it. */
  lemma HeldValueCanBeReplicated(w: World, a: Address, b: Address, id: MessageId, key: NodeId) returns (run: seq<World>)
    requires a in w.peers && b in w.peers && id !in w.calls && key in w.peers[a].store
    ensures |run| == 4 && run[0] == w
    ensures Takes(run[0], TakeUp(a, key), run[1])
    ensures Takes(run[1], SendStore(a, b, id, key, w.peers[a].store[key]), run[2])
    ensures Takes(run[2], Handle(Asking(a, b, Store(id, key, w.peers[a].store[key])), []), run[3])
    ensures b in run[3].peers && run[3].peers[b] == w.peers[b].(store := w.peers[b].store[key := w.peers[a].store[key]])
    ensures Answering(b, a, StoreResult(id, true)) in run[3].net
  {
    var value := w.peers[a].store[key];
    var w1 := After(w, TakeUp(a, key));
    var w2 := After(w1, SendStore(a, b, id, key, value));
    assert w2.peers == w.peers && Asking(a, b, Store(id, key, value)) in w2.net;
    var w3 := After(w2, Handle(Asking(a, b, Store(id, key, value)), []));
    run := [w, w1, w2, w3];
  }
}
