/** The iterative search for the contacts nearest a target. */
module NodeLookup {
  import opened Wrappers
  import opened BitStrings
  import opened NodeIds
  import opened Contacts
  import opened Ranking
  import opened Buckets
  import opened RoutingTables

  const ALPHA: nat := 5

  /** What one FIND_NODE call yields: contacts, or a failure of any kind. */
  type Reply = Result<seq<Contact>>

  /** What peers answer, by round, position in the round and contact asked. */
  type Answers = (nat, nat, Contact) -> Reply

  /** The state of the search.  `heard` lists every contact ever put on the list. */
  datatype Search = Search(closest: seq<Contact>, seen: set<NodeId>, improved: bool, heard: seq<Contact>)

  function Start(local: NodeId, snapshot: seq<Contact>): Search {
    Search(snapshot, {local} + IdsOf(snapshot), true, snapshot)
  }

  /** The contacts of an answer not seen before, each once. */
  function Fresh(seen: set<NodeId>, nodes: seq<Contact>): seq<Contact>
    decreases |nodes|
  {
    if nodes == [] then []
    else if nodes[0].id in seen then Fresh(seen, nodes[1..])
    else [nodes[0]] + Fresh(seen + {nodes[0].id}, nodes[1..])
  }

  function OnAnswer(s: Search, nodes: seq<Contact>, target: NodeId): Search
    requires s.closest != []
  {
    var rank := RankTo(target);
    var added := Fresh(s.seen, nodes);
    var closest := TopK(s.closest + added, K, rank);
    Search(closest, s.seen + IdsOf(nodes), s.improved || rank(closest[0]) < rank(s.closest[0]), s.heard + added)
  }

  function OnReply(s: Search, i: nat, reply: Reply, target: NodeId): Search {
    if i >= |s.closest| then s
    else
      match reply
      case Ok(nodes) => OnAnswer(s, nodes, target)
      case Err => s.(closest := Without(s.closest, i))
  }

  /** The state after the first `n` replies of a round. */
  function AfterReplies(s: Search, replies: seq<Reply>, n: nat, target: NodeId): Search
    requires n <= |replies|
  {
    if n == 0 then s else OnReply(AfterReplies(s, replies, n - 1, target), n - 1, replies[n - 1], target)
  }

  function RepliesTo(s: Search, round: nat, answers: Answers): (replies: seq<Reply>)
    ensures |replies| == if |s.closest| <= ALPHA then |s.closest| else ALPHA
  {
    var asked := Take(s.closest, ALPHA);
    seq(|asked|, i requires 0 <= i < |asked| => answers(round, i, asked[i]))
  }

  function AfterRound(s: Search, round: nat, target: NodeId, answers: Answers): Search {
    var replies := RepliesTo(s, round, answers);
    AfterReplies(s.(improved := false), replies, |replies|, target)
  }

  // ----- the search ends -----

  lemma {:induction false} FreshAreNew(seen: set<NodeId>, nodes: seq<Contact>)
    ensures IdsOf(Fresh(seen, nodes)) == IdsOf(nodes) - seen
    ensures DistinctIds(Fresh(seen, nodes))
    ensures forall c :: c in Fresh(seen, nodes) ==> c in nodes
    decreases |nodes|
  {
    if nodes != [] {
      var seen' := if nodes[0].id in seen then seen else seen + {nodes[0].id};
      FreshAreNew(seen', nodes[1..]);
      assert nodes == [nodes[0]] + nodes[1..];
      IdsOfConcat([nodes[0]], nodes[1..]);
      if nodes[0].id !in seen {
        var rest := Fresh(seen', nodes[1..]);
        IdsOfConcat([nodes[0]], rest);
        forall j | 0 <= j < |rest|
          ensures rest[j].id != nodes[0].id
        {
          assert rest[j].id in IdsOf(rest);
        }
      }
    }
  }

  /** Of several contacts with one id the first counts. */
  lemma {:induction false} FreshAreFirst(seen: set<NodeId>, nodes: seq<Contact>, c: Contact)
    requires c in Fresh(seen, nodes)
    ensures IndexOf(nodes, c.id) < |nodes| && nodes[IndexOf(nodes, c.id)] == c && c.id !in seen
    decreases |nodes|
  {
    if nodes[0].id in seen {
      FreshAreFirst(seen, nodes[1..], c);
    } else if c != nodes[0] {
      FreshAreFirst(seen + {nodes[0].id}, nodes[1..], c);
    }
  }

  lemma IdsOfConcat(a: seq<Contact>, b: seq<Contact>)
    ensures IdsOf(a + b) == IdsOf(a) + IdsOf(b)
  {
    forall id | id in IdsOf(a) + IdsOf(b)
      ensures id in IdsOf(a + b)
    {
      var c :| (c in a || c in b) && c.id == id;
      assert c in a + b;
    }
  }

  /** A reply keeps the list sorted, and improves the head only with a new id. */
  lemma ReplyGrows(s: Search, i: nat, reply: Reply, target: NodeId)
    requires Sorted(s.closest, RankTo(target))
    ensures var s' := OnReply(s, i, reply, target);
            && Sorted(s'.closest, RankTo(target))
            && s.seen <= s'.seen
            && (s'.improved ==> s.improved || s.seen != s'.seen)
  {
    hide RankTo;
    var rank := RankTo(target);
    if i < |s.closest| && reply.Ok? {
      FreshAreNew(s.seen, reply.value);
      var added := Fresh(s.seen, reply.value);
      SortSorted(s.closest + added, rank);
      if added == [] {
        assert s.closest + added == s.closest;
        SortOfSorted(s.closest, rank);
      } else {
        assert added[0].id in IdsOf(added);
      }
    }
  }

  lemma {:induction false} RepliesGrow(s: Search, replies: seq<Reply>, n: nat, target: NodeId)
    requires n <= |replies| && Sorted(s.closest, RankTo(target))
    ensures var s' := AfterReplies(s, replies, n, target);
            && Sorted(s'.closest, RankTo(target))
            && s.seen <= s'.seen
            && (s'.improved ==> s.improved || s.seen != s'.seen)
  {
    hide RankTo;
    if n > 0 {
      RepliesGrow(s, replies, n - 1, target);
      ReplyGrows(AfterReplies(s, replies, n - 1, target), n - 1, replies[n - 1], target);
    }
  }

  /** How many identifiers have not been seen yet. */
  ghost function Unseen(s: Search): nat {
    IdSpaceBound(s.seen);
    Pow2(KEY_LENGTH_BITS) - |s.seen|
  }

  /** A round that asks for another one has seen a new id, and ids run out. */
  lemma RoundGrows(s: Search, round: nat, target: NodeId, answers: Answers)
    requires Sorted(s.closest, RankTo(target))
    ensures var s' := AfterRound(s, round, target, answers);
            && Sorted(s'.closest, RankTo(target))
            && s.seen <= s'.seen && |s.seen| <= |s'.seen|
            && (s'.improved ==> |s.seen| < |s'.seen| && Unseen(s') < Unseen(s))
  {
    hide RankTo, Pow2;
    var replies := RepliesTo(s, round, answers);
    RepliesGrow(s.(improved := false), replies, |replies|, target);
    var s' := AfterRound(s, round, target, answers);
    var news := s'.seen - s.seen;
    assert s'.seen == s.seen + news;
  }

  /** The whole search from a given round on, and the number of the round after
      the last. */
  function Rounds(s: Search, round: nat, target: NodeId, answers: Answers): (r: (Search, nat))
    requires Sorted(s.closest, RankTo(target))
    ensures r.1 - round <= 1 + |r.0.seen| - |s.seen|
    ensures s.seen <= r.0.seen && round <= r.1
    decreases Unseen(s)
  {
    if s.closest == [] then (s, round)
    else
      RoundGrows(s, round, target, answers);
      var s' := AfterRound(s, round, target, answers);
      if s'.improved then Rounds(s', round + 1, target, answers) else (s', round + 1)
  }

  method FindNode(table: RoutingTable, target: NodeId, order: seq<nat>, answers: Answers)
    returns (closest: seq<Contact>, rounds: nat)
    requires table.Valid() && IsOrder(order, table.State())
    ensures var snapshot := ClosestTo(table.State(), target, K, order);
            Sorted(snapshot, RankTo(target)) &&
            var (s, n) := Rounds(Start(table.localId, snapshot), 0, target, answers);
            closest == s.closest && rounds == n
  {
    hide RankTo, Unseen, AfterRound;
    closest := table.GetClosest(target, K, order);
    SortSorted(Scan(table.State(), order), RankTo(target));
    var seen := {table.localId} + IdsOf(closest);
    ghost var start := Start(table.localId, closest);
    ghost var heard := closest;
    rounds := 0;
    var looking := true;
    while looking && closest != []
      invariant Sorted(start.closest, RankTo(target)) && Sorted(closest, RankTo(target))
      invariant Rounds(start, 0, target, answers) ==
                if looking then Rounds(Search(closest, seen, looking, heard), rounds, target, answers)
                else (Search(closest, seen, looking, heard), rounds)
      decreases looking, Unseen(Search(closest, seen, looking, heard))
    {
      ghost var before := Search(closest, seen, looking, heard);
      RoundGrows(before, rounds, target, answers);
      closest, seen, looking, heard := AskRound(closest, seen, looking, heard, rounds, target, answers);
      rounds := rounds + 1;
    }
  }

  /** One round: up to ALPHA contacts are asked, then their replies are taken in turn. */
  method AskRound(closest0: seq<Contact>, seen0: set<NodeId>, ghost looking0: bool, ghost heard0: seq<Contact>,
                  round: nat, target: NodeId, answers: Answers)
    returns (closest: seq<Contact>, seen: set<NodeId>, looking: bool, ghost heard: seq<Contact>)
    ensures Search(closest, seen, looking, heard) ==
            AfterRound(Search(closest0, seen0, looking0, heard0), round, target, answers)
  {
    hide RankTo;
    ghost var before := Search(closest0, seen0, false, heard0);
    var rank := RankTo(target);
    closest, seen, looking, heard := closest0, seen0, false, heard0;
    var active := if |closest| < ALPHA then |closest| else ALPHA;
    var asked := closest[..active];
    var replies := seq(active, i requires 0 <= i < |asked| => answers(round, i, asked[i]));
    assert replies == RepliesTo(before, round, answers);
    for i := 0 to |replies|
      invariant Search(closest, seen, looking, heard) == AfterReplies(before, replies, i, target)
    {
      if i >= |closest| {
        continue;
      }
      match replies[i] {
        case Ok(nodes) =>
          var oldClosest := rank(closest[0]);
          closest, seen, heard := PushUnseen(closest, seen, heard, nodes);
          closest := SortBy(closest, rank);
          if |closest| > K {
            closest := closest[..K];
          }
          if closest != [] && rank(closest[0]) < oldClosest {
            looking := true;
          }
        case Err =>
          closest := Without(closest, i);
      }
    }
  }

  lemma IdsOfNone()
    ensures IdsOf([]) == {}
  {
  }

  lemma IdsOfOne(c: Contact)
    ensures IdsOf([c]) == {c.id}
  {
    assert c in [c];
  }

  /** Adds the contacts not seen before to the list. */
  method PushUnseen(closest: seq<Contact>, seen: set<NodeId>, ghost heard: seq<Contact>, nodes: seq<Contact>)
    returns (closest': seq<Contact>, seen': set<NodeId>, ghost heard': seq<Contact>)
    ensures closest' == closest + Fresh(seen, nodes)
    ensures seen' == seen + IdsOf(nodes)
    ensures heard' == heard + Fresh(seen, nodes)
  {
    hide IdsOf;
    closest', seen', heard' := closest, seen, heard;
    IdsOfNone();
    for i := 0 to |nodes|
      invariant closest' + Fresh(seen', nodes[i..]) == closest + Fresh(seen, nodes)
      invariant heard' + Fresh(seen', nodes[i..]) == heard + Fresh(seen, nodes)
      invariant seen' == seen + IdsOf(nodes[..i])
    {
      var node := nodes[i];
      assert nodes[i..] == [node] + nodes[i + 1..];
      assert nodes[..i + 1] == nodes[..i] + [node];
      IdsOfConcat(nodes[..i], [node]);
      IdsOfOne(node);
      if node.id !in seen' {
        seen' := seen' + {node.id};
        closest' := closest' + [node];
        heard' := heard' + [node];
      }
    }
    assert nodes[|nodes|..] == [] && nodes[..|nodes|] == nodes;
  }
}
