/** Which contacts a failed call removes from the list of a lookup. */
module LookupFailures {
  import opened NodeIds
  import opened Contacts
  import opened Ranking
  import opened Buckets
  import opened RoutingTables
  import opened TableRuns
  import opened NodeLookup
  import opened LookupProperties

  lemma {:induction false} InsertKeepsPrefix<T>(s: seq<T>, x: T, i: nat, rank: T -> nat)
    requires i < |s| && rank(s[i]) <= rank(x) && Sorted(s, rank)
    ensures Insert(s, x, rank)[..i + 1] == s[..i + 1]
  {
    assert rank(s[0]) <= rank(s[i]);
    if i > 0 {
      InsertKeepsPrefix(s[1..], x, i - 1, rank);
      assert s[..i + 1] == [s[0]] + s[1..][..i];
    }
  }

  lemma {:induction false} InsertLowers<T>(s: seq<T>, x: T, i: nat, rank: T -> nat)
    requires i < |s| && Sorted(s, rank)
    ensures rank(Insert(s, x, rank)[i]) <= rank(s[i])
    ensures rank(x) < rank(s[i]) && (forall j :: 0 <= j < i ==> rank(s[j]) != rank(s[i])) ==>
            rank(Insert(s, x, rank)[i]) < rank(s[i])
  {
    if rank(x) >= rank(s[0]) && i > 0 {
      InsertLowers(s[1..], x, i - 1, rank);
    }
  }

  /** Position `i` of a list grown by `added`: unchanged up to there when nothing
      added ranks lower, strictly lower as soon as something does. */
  lemma {:induction false} GrownPosition<T>(s: seq<T>, added: seq<T>, i: nat, rank: T -> nat)
    requires i < |s| && Sorted(s, rank)
    requires forall j :: 0 <= j < i ==> rank(s[j]) != rank(s[i])
    ensures var g := SortBy(s + added, rank);
            if exists x :: x in added && rank(x) < rank(s[i]) then rank(g[i]) < rank(s[i])
            else g[..i + 1] == s[..i + 1]
  {
    hide Insert, SortBy;
    if added == [] {
      assert s + added == s;
      SortOfSorted(s, rank);
    } else {
      var most, y := added[..|added| - 1], added[|added| - 1];
      assert added == most + [y] && s + added == (s + most) + [y];
      GrownPosition(s, most, i, rank);
      SortSorted(s + most, rank);
      SortSnoc(s + most, y, rank);
      var g := SortBy(s + most, rank);
      if exists x :: x in most && rank(x) < rank(s[i]) {
        InsertLowers(g, y, i, rank);
      } else {
        GrownByOne(s, g, y, i, rank);
      }
    }
  }

  lemma GrownByOne<T>(s: seq<T>, g: seq<T>, y: T, i: nat, rank: T -> nat)
    requires i < |s| <= |g| && Sorted(g, rank) && g[..i + 1] == s[..i + 1]
    requires forall j :: 0 <= j < i ==> rank(s[j]) != rank(s[i])
    ensures if rank(y) < rank(s[i]) then rank(Insert(g, y, rank)[i]) < rank(s[i])
            else Insert(g, y, rank)[..i + 1] == s[..i + 1]
  {
    hide Insert;
    forall j | 0 <= j <= i
      ensures g[j] == s[j]
    {
      assert g[j] == g[..i + 1][j] && s[j] == s[..i + 1][j];
    }
    InsertLowers(g, y, i, rank);
    if rank(s[i]) <= rank(y) {
      InsertKeepsPrefix(g, y, i, rank);
    }
  }

  /** Some answer among the first `n` names an unseen contact nearer than rank `v`. */
  ghost predicate NearerNamed(seen: set<NodeId>, replies: seq<Reply>, n: nat, v: nat, target: NodeId)
    requires n <= |replies|
  {
    exists j, c :: 0 <= j < n && replies[j].Ok? && c in replies[j].value && c.id !in seen && RankTo(target)(c) < v
  }

  lemma DistinctRanks(s: seq<Contact>, target: NodeId)
    requires DistinctIds(s)
    ensures forall i, j :: 0 <= i < j < |s| ==> RankTo(target)(s[i]) != RankTo(target)(s[j])
  {
    hide RankTo;
    forall i, j | 0 <= i < j < |s|
      ensures RankTo(target)(s[i]) != RankTo(target)(s[j])
    {
      if RankTo(target)(s[i]) == RankTo(target)(s[j]) {
        RankInjective(target, s[i], s[j]);
      }
    }
  }

  /** A sorted list of at most K distinct contacts, all seen. */
  ghost predicate RoundStart(s: Search, target: NodeId) {
    Sorted(s.closest, RankTo(target)) && |s.closest| <= K && DistinctIds(s.closest) && IdsOf(s.closest) <= s.seen
  }

  lemma AnswerStays(s: Search, nodes: seq<Contact>, target: NodeId)
    requires RoundStart(s, target) && s.closest != []
    ensures RoundStart(OnAnswer(s, nodes, target), target)
    ensures |OnAnswer(s, nodes, target).closest| >= |s.closest|
  {
    hide RankTo, TopK;
    var added := Fresh(s.seen, nodes);
    FreshAreNew(s.seen, nodes);
    DistinctConcat(s.closest, added);
    IdsOfConcat(s.closest, added);
    TopKPart(s.closest + added, K, RankTo(target));
    var r := TopK(s.closest + added, K, RankTo(target));
    TopKSize(s.closest + added, K, RankTo(target));
    DistinctSubset(r, s.closest + added);
    forall c | c in r
      ensures c in s.closest + added
    {
      assert c in multiset(r);
    }
  }

  lemma TopKSize<T>(xs: seq<T>, k: nat, rank: T -> nat)
    ensures |TopK(xs, k, rank)| == if |xs| <= k then |xs| else k
  {
  }

  /** An answer read as an insertion: what it does at position `i`. */
  lemma AnswerPosition(s: Search, nodes: seq<Contact>, target: NodeId, i: nat)
    requires RoundStart(s, target) && i < |s.closest|
    ensures RoundStart(OnAnswer(s, nodes, target), target) && i < |OnAnswer(s, nodes, target).closest|
    ensures var r, rank := OnAnswer(s, nodes, target).closest, RankTo(target);
            if exists c :: c in nodes && c.id !in s.seen && rank(c) < rank(s.closest[i])
            then rank(r[i]) < rank(s.closest[i])
            else r[..i + 1] == s.closest[..i + 1]
  {
    hide RankTo, SortBy;
    var rank, added := RankTo(target), Fresh(s.seen, nodes);
    AnswerStays(s, nodes, target);
    DistinctRanks(s.closest, target);
    GrownPosition(s.closest, added, i, rank);
    FreshAreNew(s.seen, nodes);
    var r := OnAnswer(s, nodes, target).closest;
    assert r[..i + 1] == SortBy(s.closest + added, rank)[..i + 1];
    if c :| c in nodes && c.id !in s.seen && rank(c) < rank(s.closest[i]) {
      assert c.id in IdsOf(added);
      var d :| d in added && d.id == c.id;
      SameIdSameRank(target, c, d);
    }
    if d :| d in added && rank(d) < rank(s.closest[i]) {
      assert d.id in IdsOf(added);
    }
  }

  ghost predicate NamedBefore(replies: seq<Reply>, n: nat, id: NodeId)
    requires n <= |replies|
  {
    exists j, c :: 0 <= j < n && replies[j].Ok? && c in replies[j].value && c.id == id
  }

  lemma {:induction false} PositionAfter(s: Search, replies: seq<Reply>, n: nat, i: nat, target: NodeId)
    requires RoundStart(s, target) && n <= i < |s.closest| && n <= |replies|
    requires forall j :: 0 <= j < n ==> replies[j].Ok?
    ensures var s', rank := AfterReplies(s, replies, n, target), RankTo(target);
            && RoundStart(s', target) && i < |s'.closest|
            && (forall id :: id in s'.seen <==> id in s.seen || NamedBefore(replies, n, id))
            && if NearerNamed(s.seen, replies, n, rank(s.closest[i]), target)
               then rank(s'.closest[i]) < rank(s.closest[i])
               else s'.closest[..i + 1] == s.closest[..i + 1]
  {
    hide RankTo, OnAnswer, RoundStart;
    if n > 0 {
      PositionAfter(s, replies, n - 1, i, target);
      var before, nodes := AfterReplies(s, replies, n - 1, target), replies[n - 1].value;
      AnswerPosition(before, nodes, target, i);
      AnswerSeen(before, nodes, target);
      var rank := RankTo(target);
      var v := rank(s.closest[i]);
      if !NearerNamed(s.seen, replies, n - 1, v, target) {
        assert before.closest[i] == before.closest[..i + 1][i] == s.closest[i];
        if c :| c in nodes && c.id !in s.seen && rank(c) < v && c.id in before.seen {
          var j, d :| 0 <= j < n - 1 && replies[j].Ok? && d in replies[j].value && d.id == c.id;
          SameIdSameRank(target, c, d);
          assert false;
        }
      }
    }
  }

  lemma AnswerSeen(s: Search, nodes: seq<Contact>, target: NodeId)
    requires s.closest != []
    ensures OnAnswer(s, nodes, target).seen == s.seen + IdsOf(nodes)
  {
  }

  /** The first failure of a round removes the contact that failed exactly when no
      earlier answer of the round named an unseen contact nearer than it. */
  lemma FirstFailureRemovesItself(s: Search, replies: seq<Reply>, i: nat, target: NodeId)
    requires RoundStart(s, target) && i < |replies| && |replies| <= |s.closest|
    requires replies[i].Err? && forall j :: 0 <= j < i ==> replies[j].Ok?
    ensures var before := AfterReplies(s, replies, i, target);
            && i < |before.closest|
            && AfterReplies(s, replies, i + 1, target).closest == Without(before.closest, i)
            && (before.closest[i].id == s.closest[i].id <==>
                !NearerNamed(s.seen, replies, i, RankTo(target)(s.closest[i]), target))
  {
    hide RankTo, RoundStart;
    PositionAfter(s, replies, i, i, target);
    var before := AfterReplies(s, replies, i, target);
    if NearerNamed(s.seen, replies, i, RankTo(target)(s.closest[i]), target) {
      if before.closest[i].id == s.closest[i].id {
        SameIdSameRank(target, before.closest[i], s.closest[i]);
        assert false;
      }
    } else {
      assert before.closest[i] == before.closest[..i + 1][i] == s.closest[..i + 1][i];
    }
  }

  /** The contacts at the first `n` odd positions. */
  function OddPositions(s: seq<Contact>, n: nat): (r: seq<Contact>)
    requires 2 * n <= |s|
    ensures |r| == n
  {
    seq(n, i requires 0 <= i < n => s[2 * i + 1])
  }

  /** What `n` failures in a row leave of a list: of the first 2n contacts the ones
      at odd positions, and the rest. */
  function KeptAfterFailures(s: seq<Contact>, n: nat): seq<Contact> {
    if 2 * n <= |s| then OddPositions(s, n) + s[2 * n..] else OddPositions(s, |s| / 2)
  }

  /** When the first `n` contacts asked all fail, the ones dropped are those at the
      even positions: contacts that failed stay, others that were never asked go. */
  lemma {:induction false} FailedRoundDropsEven(s: Search, replies: seq<Reply>, n: nat, target: NodeId)
    requires n <= |replies| && forall j :: 0 <= j < n ==> replies[j].Err?
    ensures AfterReplies(s, replies, n, target) == s.(closest := KeptAfterFailures(s.closest, n))
  {
    hide OnAnswer;
    if n == 0 {
      assert KeptAfterFailures(s.closest, 0) == s.closest;
    } else {
      FailedRoundDropsEven(s, replies, n - 1, target);
      FailureDrops(s.closest, n);
    }
  }

  lemma FailureDrops(s: seq<Contact>, n: nat)
    requires n > 0
    ensures var before := KeptAfterFailures(s, n - 1);
            KeptAfterFailures(s, n) == if n - 1 < |before| then Without(before, n - 1) else before
  {
    hide Without;
    if 2 * n <= |s| {
      DropsNextEven(s, n);
    } else if 2 * n == |s| + 1 {
      DropsLastEven(s, n);
    } else if 2 * n == |s| + 2 {
      assert s[2 * n - 2..] == [];
    }
  }

  lemma DropsNextEven(s: seq<Contact>, n: nat)
    requires n > 0 && 2 * n <= |s|
    ensures Without(OddPositions(s, n - 1) + s[2 * n - 2..], n - 1) == OddPositions(s, n) + s[2 * n..]
  {
    hide Without;
    WithoutMiddle(OddPositions(s, n - 1), s[2 * n - 2..]);
    assert s[2 * n - 2..][1..] == [s[2 * n - 1]] + s[2 * n..];
    assert OddPositions(s, n) == OddPositions(s, n - 1) + [s[2 * n - 1]];
  }

  lemma DropsLastEven(s: seq<Contact>, n: nat)
    requires n > 0 && 2 * n == |s| + 1
    ensures Without(OddPositions(s, n - 1) + s[2 * n - 2..], n - 1) == OddPositions(s, n - 1)
  {
    hide Without;
    WithoutMiddle(OddPositions(s, n - 1), s[2 * n - 2..]);
  }

  lemma WithoutMiddle(a: seq<Contact>, b: seq<Contact>)
    requires b != []
    ensures Without(a + b, |a|) == a + b[1..]
  {
  }

  /** A round in which everyone asked fails is the last one, and this is what it
      leaves. */
  lemma FailedRoundEnds(s: Search, round: nat, target: NodeId, answers: Answers)
    requires s.closest != [] && Sorted(s.closest, RankTo(target))
    requires forall i :: 0 <= i < |s.closest| && i < ALPHA ==> answers(round, i, s.closest[i]).Err?
    ensures var n := if |s.closest| < ALPHA then |s.closest| else ALPHA;
            Rounds(s, round, target, answers) ==
            (s.(closest := KeptAfterFailures(s.closest, n), improved := false), round + 1)
  {
    hide RankTo, KeptAfterFailures;
    var replies := RepliesTo(s, round, answers);
    forall i | 0 <= i < |replies|
      ensures replies[i].Err?
    {
      assert replies[i] == answers(round, i, s.closest[i]);
    }
    FailedRoundDropsEven(s.(improved := false), replies, |replies|, target);
  }
}
