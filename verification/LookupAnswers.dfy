/** What a node lookup takes in from the answers of the contacts it asks. */
module LookupAnswers {
  import opened NodeIds
  import opened Contacts
  import opened Ranking
  import opened RoutingTables
  import opened TableRuns
  import opened NodeLookup

  // ----- one round, with any mix of answers and failures -----

  /** The contacts named by the first `n` replies of a round.  A failure names
      nobody, and a reply counts only while its position is on the list. */
  ghost function Taken(s: Search, replies: seq<Reply>, n: nat, target: NodeId): seq<Contact>
    requires n <= |replies|
  {
    if n == 0 then []
    else
      var counts := replies[n - 1].Ok? && n - 1 < |AfterReplies(s, replies, n - 1, target).closest|;
      Taken(s, replies, n - 1, target) + if counts then replies[n - 1].value else []
  }

  lemma {:induction false} FreshConcat(seen: set<NodeId>, a: seq<Contact>, b: seq<Contact>)
    ensures Fresh(seen, a + b) == Fresh(seen, a) + Fresh(seen + IdsOf(a), b)
    decreases |a|
  {
    hide IdsOf;
    if a == [] {
      IdsOfNone();
      assert a + b == b && seen + IdsOf(a) == seen;
    } else {
      var seen' := seen + {a[0].id};
      FreshConcat(seen', a[1..], b);
      assert (a + b)[1..] == a[1..] + b && a == [a[0]] + a[1..];
      IdsOfConcat([a[0]], a[1..]);
      IdsOfOne(a[0]);
      assert seen + IdsOf(a) == seen' + IdsOf(a[1..]);
      if a[0].id in seen {
        assert seen' == seen;
      }
    }
  }

  /** A search hears exactly the contacts its replies name, each id once and only if
      it had not been seen before. */
  lemma {:induction false} HearsTaken(s: Search, replies: seq<Reply>, n: nat, target: NodeId)
    requires n <= |replies|
    ensures var s', taken := AfterReplies(s, replies, n, target), Taken(s, replies, n, target);
            s'.heard == s.heard + Fresh(s.seen, taken) && s'.seen == s.seen + IdsOf(taken)
  {
    hide IdsOf, OnReply, Fresh;
    if n == 0 {
      NobodyHeard(s);
    } else {
      HearsTaken(s, replies, n - 1, target);
      var before, taken := AfterReplies(s, replies, n - 1, target), Taken(s, replies, n - 1, target);
      var names := if replies[n - 1].Ok? && n - 1 < |before.closest| then replies[n - 1].value else [];
      ReplyHears(before, n - 1, replies[n - 1], target);
      FreshConcat(s.seen, taken, names);
      IdsOfConcat(taken, names);
    }
  }

  lemma NobodyHeard(s: Search)
    ensures s.heard + Fresh(s.seen, []) == s.heard && s.seen + IdsOf([]) == s.seen
  {
    IdsOfNone();
  }

  lemma ReplyHears(s: Search, i: nat, reply: Reply, target: NodeId)
    ensures var s', names := OnReply(s, i, reply, target), if reply.Ok? && i < |s.closest| then reply.value else [];
            s'.heard == s.heard + Fresh(s.seen, names) && s'.seen == s.seen + IdsOf(names)
  {
    hide IdsOf, Fresh, RankTo, TopK;
    NobodyHeard(s);
  }

  lemma {:induction false} TakenGrows(s: Search, replies: seq<Reply>, m: nat, n: nat, target: NodeId)
    requires m <= n <= |replies|
    ensures Taken(s, replies, m, target) <= Taken(s, replies, n, target)
  {
    hide AfterReplies;
    if m < n {
      TakenGrows(s, replies, m, n - 1, target);
    }
  }

  /** Whoever a contact asked names is seen after the round, provided its position was
      still on the list when its answer was taken. */
  lemma RoundHears(s: Search, round: nat, target: NodeId, answers: Answers, i: nat, c: Contact)
    requires i < ALPHA && i < |s.closest|
    requires i < |AfterReplies(s.(improved := false), RepliesTo(s, round, answers), i, target).closest|
    requires answers(round, i, s.closest[i]).Ok? && c in answers(round, i, s.closest[i]).value
    ensures c.id in AfterRound(s, round, target, answers).seen
  {
    hide AfterReplies;
    var s0, replies := s.(improved := false), RepliesTo(s, round, answers);
    HearsTaken(s0, replies, |replies|, target);
    TakenGrows(s0, replies, i + 1, |replies|, target);
    assert replies[i] == answers(round, i, s.closest[i]);
    assert c in Taken(s0, replies, i + 1, target);
  }

  // ----- a round without failures -----

  function Asked(s: Search): nat {
    if |s.closest| < ALPHA then |s.closest| else ALPHA
  }

  /** Everyone the contacts asked in a round answers. */
  ghost predicate AllAnswer(s: Search, round: nat, answers: Answers) {
    forall i :: 0 <= i < Asked(s) ==> answers(round, i, s.closest[i]).Ok?
  }

  /** What the first `n` contacts of the list answer in a round, one after another. */
  ghost function RoundNames(s: Search, round: nat, answers: Answers, n: nat): seq<Contact>
    requires n <= Asked(s)
  {
    if n == 0 then []
    else
      var reply := answers(round, n - 1, s.closest[n - 1]);
      RoundNames(s, round, answers, n - 1) + if reply.Ok? then reply.value else []
  }

  lemma {:induction false} AllTaken(s: Search, round: nat, target: NodeId, answers: Answers, n: nat)
    requires |s.closest| <= K && n <= Asked(s) && AllAnswer(s, round, answers)
    ensures var s0, replies := s.(improved := false), RepliesTo(s, round, answers);
            && Taken(s0, replies, n, target) == RoundNames(s, round, answers, n)
            && |s.closest| <= |AfterReplies(s0, replies, n, target).closest| <= K
  {
    hide OnReply;
    if n > 0 {
      AllTaken(s, round, target, answers, n - 1);
      var replies := RepliesTo(s, round, answers);
      assert replies[n - 1] == answers(round, n - 1, s.closest[n - 1]);
      AnswerGrows(AfterReplies(s.(improved := false), replies, n - 1, target), n - 1, replies[n - 1], target);
    }
  }

  lemma AnswerGrows(s: Search, i: nat, reply: Reply, target: NodeId)
    requires reply.Ok? && |s.closest| <= K
    ensures |s.closest| <= |OnReply(s, i, reply, target).closest| <= K
  {
    hide RankTo, SortBy, Fresh, IdsOf;
  }

  /** A round in which nobody fails hears everything the contacts asked in it named. */
  lemma RoundHearsAll(s: Search, round: nat, target: NodeId, answers: Answers)
    requires |s.closest| <= K && AllAnswer(s, round, answers)
    ensures var s', names := AfterRound(s, round, target, answers), RoundNames(s, round, answers, Asked(s));
            s'.heard == s.heard + Fresh(s.seen, names) && s'.seen == s.seen + IdsOf(names)
  {
    hide Fresh, IdsOf, AfterReplies;
    var replies := RepliesTo(s, round, answers);
    AllTaken(s, round, target, answers, |replies|);
    HearsTaken(s.(improved := false), replies, |replies|, target);
  }

  // ----- when another round follows -----

  lemma {:induction false} InsertedHead<T>(s: seq<T>, x: T, rank: T -> nat)
    requires s != []
    ensures rank(Insert(s, x, rank)[0]) == if rank(x) < rank(s[0]) then rank(x) else rank(s[0])
  {
  }

  /** The head of a grown list ranks below `v` exactly when the old head or something
      added does. */
  lemma {:induction false} GrownHead<T>(s: seq<T>, added: seq<T>, v: nat, rank: T -> nat)
    requires s != [] && Sorted(s, rank)
    ensures rank(SortBy(s + added, rank)[0]) < v <==> rank(s[0]) < v || exists x :: x in added && rank(x) < v
    ensures rank(SortBy(s + added, rank)[0]) <= rank(s[0])
  {
    hide Insert;
    if added == [] {
      assert s + added == s;
      SortOfSorted(s, rank);
    } else {
      var most, y := added[..|added| - 1], added[|added| - 1];
      GrownHead(s, most, v, rank);
      assert added == most + [y] && s + added == (s + most) + [y];
      SortSnoc(s + most, y, rank);
      InsertedHead(SortBy(s + most, rank), y, rank);
    }
  }

  /** Somebody is named who had not been seen and is nearer than rank `v`. */
  ghost predicate NewNearer(seen: set<NodeId>, names: seq<Contact>, v: nat, target: NodeId) {
    exists c :: c in names && c.id !in seen && RankTo(target)(c) < v
  }

  lemma FreshNearer(seen: set<NodeId>, nodes: seq<Contact>, v: nat, target: NodeId)
    ensures NewNearer(seen, nodes, v, target) <==>
            exists x :: x in Fresh(seen, nodes) && RankTo(target)(x) < v
  {
    hide RankTo, Fresh;
    var added := Fresh(seen, nodes);
    FreshAreNew(seen, nodes);
    if c :| c in nodes && c.id !in seen && RankTo(target)(c) < v {
      assert c.id in IdsOf(added);
      var x :| x in added && x.id == c.id;
      SameIdSameRank(target, c, x);
    }
    if x :| x in added && RankTo(target)(x) < v {
      assert x.id in IdsOf(added);
    }
  }

  lemma NewNearerConcat(seen: set<NodeId>, a: seq<Contact>, b: seq<Contact>, v: nat, target: NodeId)
    ensures NewNearer(seen, a + b, v, target) <==>
            NewNearer(seen, a, v, target) || NewNearer(seen + IdsOf(a), b, v, target)
  {
    hide RankTo;
    if c :| c in b && c.id !in seen && RankTo(target)(c) < v && c.id in IdsOf(a) {
      var d :| d in a && d.id == c.id;
      SameIdSameRank(target, c, d);
    }
  }

  lemma AnswerImproves(s: Search, nodes: seq<Contact>, target: NodeId, v: nat)
    requires Sorted(s.closest, RankTo(target)) && s.closest != [] && RankTo(target)(s.closest[0]) <= v
    requires s.improved <==> RankTo(target)(s.closest[0]) < v
    ensures var s', rank := OnAnswer(s, nodes, target), RankTo(target);
            && Sorted(s'.closest, rank) && s'.closest != [] && rank(s'.closest[0]) <= v
            && (s'.improved <==> rank(s'.closest[0]) < v)
            && (s'.improved <==> s.improved || NewNearer(s.seen, nodes, v, target))
  {
    hide RankTo, SortBy, Fresh, NewNearer;
    var rank, added := RankTo(target), Fresh(s.seen, nodes);
    SortSorted(s.closest + added, rank);
    GrownHead(s.closest, added, v, rank);
    FreshNearer(s.seen, nodes, v, target);
  }

  lemma {:induction false} ImprovedAfter(s: Search, round: nat, target: NodeId, answers: Answers, n: nat)
    requires Sorted(s.closest, RankTo(target)) && 0 < |s.closest| <= K
    requires n <= Asked(s) && AllAnswer(s, round, answers)
    ensures var s' := AfterReplies(s.(improved := false), RepliesTo(s, round, answers), n, target);
            var rank := RankTo(target);
            var v := rank(s.closest[0]);
            && Sorted(s'.closest, rank) && s'.closest != [] && rank(s'.closest[0]) <= v
            && (s'.improved <==> rank(s'.closest[0]) < v)
            && (s'.improved <==> NewNearer(s.seen, RoundNames(s, round, answers, n), v, target))
  {
    hide RankTo, OnAnswer, NewNearer, IdsOf;
    var replies, v := RepliesTo(s, round, answers), RankTo(target)(s.closest[0]);
    if n == 0 {
      assert !NewNearer(s.seen, [], v, target) by {
        NobodyNamed(s.seen, v, target);
      }
    } else {
      ImprovedAfter(s, round, target, answers, n - 1);
      AllTaken(s, round, target, answers, n - 1);
      HearsTaken(s.(improved := false), replies, n - 1, target);
      assert replies[n - 1] == answers(round, n - 1, s.closest[n - 1]);
      var before := AfterReplies(s.(improved := false), replies, n - 1, target);
      var nodes := replies[n - 1].value;
      AnswerImproves(before, nodes, target, v);
      NewNearerConcat(s.seen, RoundNames(s, round, answers, n - 1), nodes, v, target);
    }
  }

  lemma NobodyNamed(seen: set<NodeId>, v: nat, target: NodeId)
    ensures !NewNearer(seen, [], v, target)
  {
  }

  /** After a round in which nobody fails another one follows exactly when somebody
      was named who had not been seen and is nearer than the head of the list. */
  lemma ImprovedExactly(s: Search, round: nat, target: NodeId, answers: Answers)
    requires Sorted(s.closest, RankTo(target)) && 0 < |s.closest| <= K && AllAnswer(s, round, answers)
    ensures AfterRound(s, round, target, answers).improved <==>
            NewNearer(s.seen, RoundNames(s, round, answers, Asked(s)), RankTo(target)(s.closest[0]), target)
  {
    hide RankTo, AfterReplies, NewNearer;
    ImprovedAfter(s, round, target, answers, Asked(s));
  }

  // ----- the whole search -----

  /** Everyone named in any round of a search, by anyone asked in it. */
  ghost function Named(s: Search, round: nat, target: NodeId, answers: Answers): seq<Contact>
    requires Sorted(s.closest, RankTo(target))
    decreases Unseen(s)
  {
    if s.closest == [] then []
    else
      RoundGrows(s, round, target, answers);
      var s' := AfterRound(s, round, target, answers);
      RoundNames(s, round, answers, Asked(s)) + if s'.improved then Named(s', round + 1, target, answers) else []
  }
}
