/** What the iterative search guarantees, whatever the peers answer. */
module LookupProperties {
  import opened NodeIds
  import opened Contacts
  import opened Ranking
  import opened RoutingTables
  import opened TableRuns
  import opened NodeLookup
  import opened LookupAnswers

  /** `c` was on the starting list or in some answer. */
  ghost predicate Sourced(c: Contact, snapshot: seq<Contact>, answers: Answers) {
    c in snapshot || exists r: nat, i: nat, q :: answers(r, i, q).Ok? && c in answers(r, i, q).value
  }

  /** Everything heard is seen, foreign and from somewhere, and distinct if the
      start was; the list is a sorted part of it of at most K contacts. */
  ghost predicate SearchOk(s: Search, local: NodeId, snapshot: seq<Contact>, target: NodeId, answers: Answers) {
    && Sorted(s.closest, RankTo(target))
    && |s.closest| <= K
    && multiset(s.closest) <= multiset(s.heard)
    && (DistinctIds(snapshot) ==> DistinctIds(s.heard))
    && s.seen == {local} + IdsOf(s.heard)
    && local !in IdsOf(s.heard)
    && forall c :: c in s.heard ==> Sourced(c, snapshot, answers)
  }

  // ----- invariants under any mix of answers and failures -----

  lemma DistinctConcat(a: seq<Contact>, b: seq<Contact>)
    requires DistinctIds(a) && DistinctIds(b) && IdsOf(a) !! IdsOf(b)
    ensures DistinctIds(a + b)
  {
    forall i, j | 0 <= i < j < |a + b|
      ensures (a + b)[i].id != (a + b)[j].id
    {
      if i < |a| <= j {
        assert a[i].id in IdsOf(a) && b[j - |a|].id in IdsOf(b);
      }
    }
  }

  lemma {:induction false} DistinctSubset(part: seq<Contact>, whole: seq<Contact>)
    requires multiset(part) <= multiset(whole) && DistinctIds(whole)
    ensures DistinctIds(part)
  {
    forall i, j | 0 <= i < j < |part|
      ensures part[i].id != part[j].id
    {
      if part[i].id == part[j].id {
        assert part[i] in multiset(whole) && part[j] in multiset(whole);
        var m :| 0 <= m < |whole| && whole[m] == part[i];
        var n :| 0 <= n < |whole| && whole[n] == part[j];
        assert part[i] == part[j];
        CountAtLeastTwo(part, i, j);
        DistinctOnce(whole, part[i]);
      }
    }
  }

  lemma CountAtLeastTwo<T>(s: seq<T>, i: nat, j: nat)
    requires i < j < |s| && s[i] == s[j]
    ensures multiset(s)[s[i]] >= 2
  {
    assert s == s[..i] + [s[i]] + s[i + 1..j] + [s[j]] + s[j + 1..];
  }

  lemma DistinctOnce(s: seq<Contact>, c: Contact)
    requires DistinctIds(s)
    ensures multiset(s)[c] <= 1
  {
    if i :| 0 <= i < |s| && s[i] == c {
      assert s == s[..i] + [c] + s[i + 1..];
      assert c !in s[..i] && c !in s[i + 1..];
    }
  }

  lemma AnswerKeeps(s: Search, nodes: seq<Contact>, local: NodeId, snapshot: seq<Contact>, target: NodeId,
        answers: Answers)
    requires SearchOk(s, local, snapshot, target, answers) && s.closest != []
    requires forall c :: c in nodes ==> Sourced(c, snapshot, answers)
    ensures SearchOk(OnAnswer(s, nodes, target), local, snapshot, target, answers)
  {
    hide RankTo, Sourced, TopK, Fresh, Sorted, DistinctIds, IdsOf;
    var added := Fresh(s.seen, nodes);
    FreshAreNew(s.seen, nodes);
    IdsOfConcat(s.heard, added);
    if DistinctIds(snapshot) {
      DistinctConcat(s.heard, added);
    }
    TopKPart(s.closest + added, K, RankTo(target));
  }

  lemma ReplyKeeps(s: Search, i: nat, reply: Reply, local: NodeId, snapshot: seq<Contact>, target: NodeId,
        answers: Answers)
    requires SearchOk(s, local, snapshot, target, answers)
    requires reply.Ok? ==> forall c :: c in reply.value ==> Sourced(c, snapshot, answers)
    ensures SearchOk(OnReply(s, i, reply, target), local, snapshot, target, answers)
  {
    hide RankTo, Sourced, OnAnswer, DistinctIds, IdsOf;
    var rank := RankTo(target);
    if i < |s.closest| {
      match reply
      case Ok(nodes) =>
        AnswerKeeps(s, nodes, local, snapshot, target, answers);
      case Err =>
        assert s.closest == s.closest[..i] + [s.closest[i]] + s.closest[i + 1..];
    }
  }

  lemma {:induction false} RepliesKeep(s: Search, round: nat, n: nat, local: NodeId, snapshot: seq<Contact>,
        target: NodeId, answers: Answers)
    requires SearchOk(s, local, snapshot, target, answers)
    requires n <= |RepliesTo(s, round, answers)|
    ensures SearchOk(AfterReplies(s.(improved := false), RepliesTo(s, round, answers), n, target), local,
        snapshot, target, answers)
  {
    hide RankTo;
    if n > 0 {
      RepliesKeep(s, round, n - 1, local, snapshot, target, answers);
      var replies := RepliesTo(s, round, answers);
      assert replies[n - 1] == answers(round, n - 1, s.closest[n - 1]);
      ReplyKeeps(AfterReplies(s.(improved := false), replies, n - 1, target), n - 1, replies[n - 1], local,
          snapshot, target, answers);
    }
  }

  /** Whatever mix of answers and failures the peers produce, the search ends with
      a list that is sorted, at most K long, within what was seen, free of the local
      node, taken from the start or from answers, and as distinct as the start. */
  lemma {:induction false} SearchKeeps(s: Search, round: nat, local: NodeId, snapshot: seq<Contact>,
        target: NodeId, answers: Answers)
    requires SearchOk(s, local, snapshot, target, answers)
    ensures SearchOk(Rounds(s, round, target, answers).0, local, snapshot, target, answers)
    decreases Unseen(s)
  {
    hide RankTo, Sourced, AfterRound, Unseen, DistinctIds, IdsOf;
    if s.closest != [] {
      RoundGrows(s, round, target, answers);
      RoundKeeps(s, round, local, snapshot, target, answers);
      var s' := AfterRound(s, round, target, answers);
      if s'.improved {
        SearchKeeps(s', round + 1, local, snapshot, target, answers);
      }
    }
  }

  lemma RoundKeeps(s: Search, round: nat, local: NodeId, snapshot: seq<Contact>, target: NodeId, answers: Answers)
    requires SearchOk(s, local, snapshot, target, answers)
    ensures SearchOk(AfterRound(s, round, target, answers), local, snapshot, target, answers)
  {
    hide RankTo, Sourced, SearchOk;
    RepliesKeep(s, round, |RepliesTo(s, round, answers)|, local, snapshot, target, answers);
  }

  // ----- without failures the list is a one-shot top K -----

  /** Contacts inside a region answer, and name only the region and the local node. */
  ghost predicate AnswersInside(answers: Answers, inside: NodeId -> bool, local: NodeId) {
    forall r: nat, i: nat, q: Contact :: inside(q.id) ==>
      answers(r, i, q).Ok? && forall c :: c in answers(r, i, q).value ==> c.id == local || inside(c.id)
  }

  /** The list is the K nearest of everything heard, all of it inside the region. */
  ghost predicate Exact(s: Search, inside: NodeId -> bool, target: NodeId) {
    && s.closest == TopK(s.heard, K, RankTo(target))
    && forall c :: c in s.heard ==> inside(c.id)
  }

  lemma AnswerExact(s: Search, nodes: seq<Contact>, inside: NodeId -> bool, local: NodeId, target: NodeId)
    requires Exact(s, inside, target) && s.closest != [] && local in s.seen
    requires forall c :: c in nodes ==> c.id == local || inside(c.id)
    ensures Exact(OnAnswer(s, nodes, target), inside, target)
    ensures local in OnAnswer(s, nodes, target).seen
  {
    hide RankTo, TopK;
    var added := Fresh(s.seen, nodes);
    FreshAreNew(s.seen, nodes);
    TopKIncremental(s.heard, added, K, RankTo(target));
    forall c | c in added
      ensures c.id != local
    {
      assert c.id in IdsOf(added);
    }
  }

  lemma {:induction false} RepliesExact(s: Search, round: nat, n: nat, inside: NodeId -> bool, local: NodeId,
        target: NodeId, answers: Answers)
    requires Exact(s, inside, target) && AnswersInside(answers, inside, local) && local in s.seen
    requires n <= |RepliesTo(s, round, answers)|
    ensures var s' := AfterReplies(s.(improved := false), RepliesTo(s, round, answers), n, target);
            && Exact(s', inside, target) && local in s'.seen
            && s.heard <= s'.heard && (s.closest != [] ==> s'.closest != [])
  {
    hide RankTo;
    if n > 0 {
      RepliesExact(s, round, n - 1, inside, local, target, answers);
      var replies := RepliesTo(s, round, answers);
      var before := AfterReplies(s.(improved := false), replies, n - 1, target);
      var q := s.closest[n - 1];
      assert replies[n - 1] == answers(round, n - 1, q);
      TopKPart(s.heard, K, RankTo(target));
      assert q in multiset(s.closest) && q in s.heard;
      if n - 1 < |before.closest| {
        AnswerExact(before, replies[n - 1].value, inside, local, target);
      }
    }
  }

  /** Nobody asked in a round fails while everything heard is inside the region. */
  lemma InsideAnswer(s: Search, round: nat, inside: NodeId -> bool, local: NodeId, target: NodeId, answers: Answers)
    requires Exact(s, inside, target) && AnswersInside(answers, inside, local)
    ensures AllAnswer(s, round, answers) && |s.closest| <= K
  {
    hide RankTo, TopK;
    TopKPart(s.heard, K, RankTo(target));
    forall i | 0 <= i < Asked(s)
      ensures answers(round, i, s.closest[i]).Ok?
    {
      assert s.closest[i] in multiset(s.closest) && s.closest[i] in s.heard;
    }
  }

  /** When nobody who is asked fails, the search hears exactly what everyone asked
      has named, and pushing, sorting and truncating round by round keeps exactly
      the K nearest of it. */
  lemma {:induction false} SearchExact(s: Search, round: nat, inside: NodeId -> bool, local: NodeId,
        target: NodeId, answers: Answers)
    requires Exact(s, inside, target) && AnswersInside(answers, inside, local) && local in s.seen
    requires Sorted(s.closest, RankTo(target))
    ensures var found := Rounds(s, round, target, answers).0;
            && Exact(found, inside, target)
            && found.heard == s.heard + Fresh(s.seen, Named(s, round, target, answers))
    decreases Unseen(s)
  {
    hide RankTo, Unseen, Fresh, AfterRound, Exact, AnswersInside;
    if s.closest == [] {
      NobodyHeard(s);
    } else {
      RoundGrows(s, round, target, answers);
      RoundExact(s, round, inside, local, target, answers);
      var s', names := AfterRound(s, round, target, answers), RoundNames(s, round, answers, Asked(s));
      if s'.improved {
        SearchExact(s', round + 1, inside, local, target, answers);
        FreshConcat(s.seen, names, Named(s', round + 1, target, answers));
      } else {
        assert names + [] == names;
      }
    }
  }

  lemma RoundExact(s: Search, round: nat, inside: NodeId -> bool, local: NodeId, target: NodeId, answers: Answers)
    requires Exact(s, inside, target) && AnswersInside(answers, inside, local) && local in s.seen
    ensures var s', names := AfterRound(s, round, target, answers), RoundNames(s, round, answers, Asked(s));
            && Exact(s', inside, target) && local in s'.seen
            && s'.heard == s.heard + Fresh(s.seen, names) && s'.seen == s.seen + IdsOf(names)
  {
    hide RankTo, Exact, AnswersInside, Fresh;
    InsideAnswer(s, round, inside, local, target, answers);
    RepliesExact(s, round, |RepliesTo(s, round, answers)|, inside, local, target, answers);
    RoundHearsAll(s, round, target, answers);
  }

  // ----- from a reachable table -----

  ghost predicate DistinctBuckets(t: Table) {
    forall i :: i in t.buckets ==> DistinctIds(t.buckets[i].nodes)
  }

  lemma {:induction false} ScanMembers(t: Table, order: seq<nat>, c: Contact)
    requires forall i :: i in order ==> i in t.buckets
    ensures c in Scan(t, order) <==> exists i :: i in order && c in t.buckets[i].nodes
  {
    if order != [] {
      ScanMembers(t, order[1..], c);
      assert order == [order[0]] + order[1..];
    }
  }

  lemma {:induction false} ScanDistinct(t: Table, order: seq<nat>)
    requires TableOk(t) && DistinctBuckets(t)
    requires forall i :: i in order ==> i in t.buckets
    requires forall i, j :: 0 <= i < j < |order| ==> order[i] != order[j]
    ensures DistinctIds(Scan(t, order))
  {
    hide BucketIndex, TableOk;
    if order != [] {
      ScanDistinct(t, order[1..]);
      var head, rest := t.buckets[order[0]].nodes, Scan(t, order[1..]);
      forall c, d | c in head && d in rest
        ensures c.id != d.id
      {
        ScanMembers(t, order[1..], d);
        var i :| i in order[1..] && d in t.buckets[i].nodes;
        LocalNowhere(t, order[0], c);
        LocalNowhere(t, i, d);
        var n :| 0 <= n < |order[1..]| && order[1..][n] == i;
        assert order[n + 1] == i;
      }
      DistinctConcat(head, rest);
    }
  }

  /** Every reachable table gives a good start. */
  lemma SnapshotOk(t: Table, target: NodeId, order: seq<nat>, answers: Answers)
    requires TableOk(t) && IsOrder(order, t)
    ensures var snapshot := ClosestTo(t, target, K, order);
            && SearchOk(Start(t.localId, snapshot), t.localId, snapshot, target, answers)
            && snapshot == TopK(snapshot, K, RankTo(target))
            && (forall c :: c in snapshot ==> c in Scan(t, order))
  {
    hide RankTo, TableOk, BucketIndex, SortBy, DistinctIds;
    var all, snapshot := Scan(t, order), ClosestTo(t, target, K, order);
    TopKPart(all, K, RankTo(target));
    SortOfSorted(snapshot, RankTo(target));
    forall c | c in snapshot
      ensures c.id != t.localId && c in all
    {
      assert c in multiset(snapshot);
      ScanMembers(t, order, c);
      var i :| i in order && c in t.buckets[i].nodes;
      LocalNowhere(t, i, c);
    }
  }

  lemma SnapshotDistinct(t: Table, target: NodeId, order: seq<nat>)
    requires TableOk(t) && DistinctBuckets(t) && IsOrder(order, t)
    ensures DistinctIds(ClosestTo(t, target, K, order))
  {
    hide RankTo, TableOk, TopK, DistinctBuckets, DistinctIds;
    ScanDistinct(t, order);
    TopKPart(Scan(t, order), K, RankTo(target));
    DistinctSubset(ClosestTo(t, target, K, order), Scan(t, order));
  }

  /** The search from any reachable table, whatever the peers answer: the
      invariants, the bound on rounds, and no id twice if no bucket had one twice. */
  lemma FindNodeResult(t: Table, target: NodeId, order: seq<nat>, answers: Answers)
    requires TableOk(t) && IsOrder(order, t)
    ensures var snapshot := ClosestTo(t, target, K, order);
            Sorted(snapshot, RankTo(target)) &&
            var (s, rounds) := Rounds(Start(t.localId, snapshot), 0, target, answers);
            && SearchOk(s, t.localId, snapshot, target, answers)
            && rounds <= 1 + |s.seen| - |{t.localId} + IdsOf(snapshot)|
            && (DistinctBuckets(t) ==> DistinctIds(s.closest))
  {
    hide RankTo, TableOk, TopK, Sourced, DistinctBuckets, DistinctIds, IdsOf, ClosestTo;
    SnapshotOk(t, target, order, answers);
    var start := Start(t.localId, ClosestTo(t, target, K, order));
    SearchKeeps(start, 0, t.localId, start.closest, target, answers);
    if DistinctBuckets(t) {
      SnapshotDistinct(t, target, order);
      var s := Rounds(start, 0, target, answers).0;
      DistinctSubset(s.closest, s.heard);
    }
  }

  /** When every call succeeds the list is, in order, the K nearest of the contacts
      known at the start and everyone named by anyone asked. */
  lemma FindNodeExact(t: Table, target: NodeId, order: seq<nat>, answers: Answers)
    requires TableOk(t) && IsOrder(order, t)
    requires forall r: nat, i: nat, q :: answers(r, i, q).Ok?
    ensures var snapshot := ClosestTo(t, target, K, order);
            var start := Start(t.localId, snapshot);
            Sorted(snapshot, RankTo(target)) &&
            var s, named := Rounds(start, 0, target, answers).0, Named(start, 0, target, answers);
            && s.heard == snapshot + Fresh({t.localId} + IdsOf(snapshot), named)
            && s.closest == TopK(s.heard, K, RankTo(target))
            && IsNearest(s.closest, s.heard, K, RankTo(target))
  {
    hide RankTo, TableOk, TopK, Sourced, ClosestTo, IsNearest, Rounds, Named, Fresh, IdsOf;
    SnapshotOk(t, target, order, answers);
    var start := Start(t.localId, ClosestTo(t, target, K, order));
    SearchExact(start, 0, (_: NodeId) => true, t.localId, target, answers);
    TopKIsNearest(Rounds(start, 0, target, answers).0.heard, K, RankTo(target));
  }
}
