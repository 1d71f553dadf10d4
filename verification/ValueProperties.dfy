/** What the search for a value guarantees, whatever the peers answer. */
module ValueProperties {
  import opened Wrappers
  import opened NodeIds
  import opened Contacts
  import opened Ranking
  import opened Buckets
  import opened RoutingTables
  import opened TableRuns
  import opened Storage
  import opened NodeLookup
  import LookupProperties
  import opened ValueLookup

  /** The local id and everyone asked in the first `n` batches. */
  ghost function AskedBefore(local: NodeId, batches: seq<seq<Contact>>, n: nat): set<NodeId>
    requires n <= |batches|
  {
    if n == 0 then {local} else AskedBefore(local, batches, n - 1) + IdsOf(batches[n - 1])
  }

  /** Each batch is made of the first ALPHA entries not asked before of a list that
      was sorted and at most K long. */
  ghost predicate BatchOk(h: Hunt, local: NodeId, key: NodeId, i: nat)
    requires |h.lists| == |h.batches| && i < |h.batches|
  {
    && Sorted(h.lists[i], RankTo(key)) && |h.lists[i]| <= K
    && h.batches[i] == Take(Unvisited(h.lists[i], AskedBefore(local, h.batches, i)), ALPHA)
    && h.batches[i] != []
  }

  ghost predicate HuntOk(h: Hunt, local: NodeId, key: NodeId) {
    && |h.lists| == |h.batches|
    && Sorted(h.closest, RankTo(key)) && |h.closest| <= K
    && h.visited == AskedBefore(local, h.batches, |h.batches|)
    && forall i :: 0 <= i < |h.batches| ==> BatchOk(h, local, key, i)
  }

  lemma {:induction false} AskedBeforePrefix(local: NodeId, batches: seq<seq<Contact>>, more: seq<seq<Contact>>, n: nat)
    requires n <= |batches|
    ensures AskedBefore(local, batches + more, n) == AskedBefore(local, batches, n)
  {
    if n > 0 {
      AskedBeforePrefix(local, batches, more, n - 1);
    }
  }

  lemma VisitingKeepsOk(h: Hunt, local: NodeId, key: NodeId)
    requires HuntOk(h, local, key) && NextBatch(h) != []
    ensures HuntOk(Visiting(h), local, key)
  {
    hide RankTo, Unvisited, IdsOf;
    var h', n := Visiting(h), |h.batches|;
    forall i | 0 <= i <= n
      ensures AskedBefore(local, h'.batches, i) == AskedBefore(local, h.batches, i)
    {
      AskedBeforePrefix(local, h.batches, [NextBatch(h)], i);
    }
    forall i | 0 <= i < |h'.batches|
      ensures BatchOk(h', local, key, i)
    {
      if i < n {
        assert BatchOk(h, local, key, i);
      }
    }
  }

  /** Nobody in batch `i` answered with a value. */
  ghost predicate Silent(batches: seq<seq<Contact>>, i: nat, answers: ValueAnswers)
    requires i < |batches|
  {
    forall j :: 0 <= j < |batches[i]| ==> !answers(i, j, batches[i][j]).Found?
  }

  /** The value is the first one answered in the last batch. */
  ghost predicate FirstAnswer(batches: seq<seq<Contact>>, answers: ValueAnswers, value: Value) {
    batches != [] &&
    var i := |batches| - 1;
    exists j :: 0 <= j < |batches[i]| && answers(i, j, batches[i][j]) == Found(value) &&
      forall m :: 0 <= m < j ==> !answers(i, m, batches[i][m]).Found?
  }

  /** What batch `i` names and nobody up to and including it had been asked. */
  ghost function NamedBy(local: NodeId, batches: seq<seq<Contact>>, i: nat, answers: ValueAnswers): seq<Contact>
    requires i < |batches|
  {
    NamedUnvisited(RepliesOf(batches[i], i, answers), AskedBefore(local, batches, i + 1))
  }

  /** The starting list and everything the first `n` batches named. */
  ghost function Pool(local: NodeId, start: seq<Contact>, batches: seq<seq<Contact>>, n: nat,
        answers: ValueAnswers): seq<Contact>
    requires n <= |batches|
  {
    if n == 0 then start else Pool(local, start, batches, n - 1, answers) + NamedBy(local, batches, n - 1, answers)
  }

  /** The lists asked from, and the current one, are the K nearest of their pools. */
  ghost predicate ListsExact(h: Hunt, local: NodeId, start: seq<Contact>, key: NodeId, answers: ValueAnswers,
        named: nat) {
    && |h.lists| == |h.batches| && named <= |h.batches|
    && (forall i :: 0 <= i < |h.lists| ==> h.lists[i] == TopK(Pool(local, start, h.batches, i, answers), K,
        RankTo(key)))
    && h.closest == TopK(Pool(local, start, h.batches, named, answers), K, RankTo(key))
  }

  lemma {:induction false} PoolPrefix(local: NodeId, start: seq<Contact>, batches: seq<seq<Contact>>,
        more: seq<seq<Contact>>, n: nat, answers: ValueAnswers)
    requires n <= |batches|
    ensures Pool(local, start, batches + more, n, answers) == Pool(local, start, batches, n, answers)
  {
    hide NamedUnvisited, RepliesOf, AskedBefore;
    if n > 0 {
      PoolPrefix(local, start, batches, more, n - 1, answers);
      AskedBeforePrefix(local, batches, more, n);
      assert (batches + more)[n - 1] == batches[n - 1];
    }
  }

  lemma VisitingKeepsExact(h: Hunt, local: NodeId, start: seq<Contact>, key: NodeId, answers: ValueAnswers)
    requires ListsExact(h, local, start, key, answers, |h.batches|)
    ensures ListsExact(Visiting(h), local, start, key, answers, |h.batches|)
  {
    hide RankTo, TopK, Pool, NextBatch, IdsOf;
    var h' := Visiting(h);
    forall i | 0 <= i <= |h.batches|
      ensures Pool(local, start, h'.batches, i, answers) == Pool(local, start, h.batches, i, answers)
    {
      PoolPrefix(local, start, h.batches, [NextBatch(h)], i, answers);
    }
  }

  lemma NobodyNewKeepsExact(h: Hunt, local: NodeId, start: seq<Contact>, key: NodeId, answers: ValueAnswers)
    requires h.batches != [] && ListsExact(h, local, start, key, answers, |h.batches| - 1)
    requires NamedBy(local, h.batches, |h.batches| - 1, answers) == []
    ensures ListsExact(h, local, start, key, answers, |h.batches|)
  {
    hide RankTo, TopK, NamedBy;
    var n := |h.batches| - 1;
    assert Pool(local, start, h.batches, n + 1, answers) == Pool(local, start, h.batches, n, answers);
  }

  lemma WideningKeepsExact(h: Hunt, local: NodeId, start: seq<Contact>, key: NodeId, answers: ValueAnswers,
        more: seq<Contact>)
    requires h.batches != [] && ListsExact(h, local, start, key, answers, |h.batches| - 1)
    requires more == NamedBy(local, h.batches, |h.batches| - 1, answers)
    ensures ListsExact(Widened(h, more, key), local, start, key, answers, |h.batches|)
  {
    hide RankTo, TopK, NamedBy;
    TopKIncremental(Pool(local, start, h.batches, |h.batches| - 1, answers), more, K, RankTo(key));
  }

  /** Why a search without a value ended: ten batches, a list with nobody left to
      ask, or a last batch that named nobody new. */
  ghost predicate Exhausted(h: Hunt, local: NodeId, answers: ValueAnswers) {
    || |h.batches| == MAX_ITERATIONS
    || NextBatch(h) == []
    || (h.batches != [] && NamedBy(local, h.batches, |h.batches| - 1, answers) == [])
  }

  lemma {:induction false} FirstFoundIs(replies: seq<ValueReply>)
    ensures match FirstFound(replies)
            case Some(v) =>
              (exists j :: 0 <= j < |replies| && replies[j] == Found(v) &&
                           forall m :: 0 <= m < j ==> !replies[m].Found?)
            case None => forall j :: 0 <= j < |replies| ==> !replies[j].Found?
  {
    if replies != [] {
      FirstFoundIs(replies[1..]);
      if !replies[0].Found? && FirstFound(replies).Some? {
        var j :| 0 <= j < |replies[1..]| && replies[1..][j] == Found(FirstFound(replies).value) &&
                 forall m :: 0 <= m < j ==> !replies[1..][m].Found?;
        assert replies[j + 1] == Found(FirstFound(replies).value);
        assert forall m :: 0 < m < j + 1 ==> replies[m] == replies[1..][m - 1];
      }
    }
  }

  /** The search keeps the trace in order and every list exact, asks at most ten
      batches, stops at the first value answered, and otherwise when exhausted. */
  lemma {:induction false} SearchTrace(h: Hunt, iteration: nat, local: NodeId, start: seq<Contact>, key: NodeId,
        answers: ValueAnswers)
    requires HuntOk(h, local, key) && |h.batches| == iteration <= MAX_ITERATIONS
    requires ListsExact(h, local, start, key, answers, iteration)
    requires forall i :: 0 <= i < |h.batches| ==> Silent(h.batches, i, answers)
    ensures var (r, h') := Seek(h, iteration, key, answers);
            && HuntOk(h', local, key) && |h'.batches| <= MAX_ITERATIONS
            && (r.Some? ==> |h'.batches| > 0)
            && ListsExact(h', local, start, key, answers, if r.Some? then |h'.batches| - 1 else |h'.batches|)
            && (forall i :: 0 <= i < |h'.batches| - 1 ==> Silent(h'.batches, i, answers))
            && (r.Some? ==> FirstAnswer(h'.batches, answers, r.value))
            && (r.None? ==> Exhausted(h', local, answers))
            && (r.None? ==> forall i :: 0 <= i < |h'.batches| ==> Silent(h'.batches, i, answers))
    decreases MAX_ITERATIONS - iteration
  {
    hide RankTo, Unvisited, IdsOf, NamedUnvisited, FirstFound, TopK, AskedBefore, ListsExact, HuntOk, Silent;
    var batch := NextBatch(h);
    if iteration < MAX_ITERATIONS && batch != [] {
      VisitingKeepsOk(h, local, key);
      VisitingKeepsExact(h, local, start, key, answers);
      var h1, replies := Visiting(h), RepliesOf(batch, iteration, answers);
      BatchSilence(h, iteration, answers);
      NamedIsMore(h, local, key, answers);
      var more := NamedUnvisited(replies, h1.visited);
      if FirstFound(replies).None? && more != [] {
        WideningKeepsExact(h1, local, start, key, answers, more);
        WideningKeepsOk(h1, local, key, more);
        SearchTrace(Widened(h1, more, key), iteration + 1, local, start, key, answers);
      } else if more == [] {
        NobodyNewKeepsExact(h1, local, start, key, answers);
      }
    }
  }

  lemma NamedIsMore(h: Hunt, local: NodeId, key: NodeId, answers: ValueAnswers)
    requires HuntOk(h, local, key)
    ensures var h1, n := Visiting(h), |h.batches|;
            NamedBy(local, h1.batches, n, answers) == NamedUnvisited(RepliesOf(NextBatch(h), n, answers), h1.visited)
  {
    hide RankTo, Unvisited, IdsOf, NamedUnvisited, NextBatch;
    AskedBeforePrefix(local, h.batches, [NextBatch(h)], |h.batches|);
  }

  lemma WideningKeepsOk(h: Hunt, local: NodeId, key: NodeId, more: seq<Contact>)
    requires HuntOk(h, local, key)
    ensures HuntOk(Widened(h, more, key), local, key)
  {
    hide RankTo, Unvisited, IdsOf, TopK, AskedBefore;
    TopKPart(h.closest + more, K, RankTo(key));
    forall i | 0 <= i < |h.batches|
      ensures BatchOk(Widened(h, more, key), local, key, i)
    {
      assert BatchOk(h, local, key, i);
    }
  }

  /** Asking one more batch: earlier ones stay silent, and the new one is silent
      exactly when no value is found. */
  lemma BatchSilence(h: Hunt, n: nat, answers: ValueAnswers)
    requires n == |h.batches| && forall i :: 0 <= i < n ==> Silent(h.batches, i, answers)
    ensures var batches, found := Visiting(h).batches, FirstFound(RepliesOf(NextBatch(h), n, answers));
            && (forall i :: 0 <= i < n ==> Silent(batches, i, answers))
            && (found.None? ==> Silent(batches, n, answers))
            && (found.Some? ==> FirstAnswer(batches, answers, found.value))
  {
    hide NextBatch, FirstFound, IdsOf;
    var batches, batch := Visiting(h).batches, NextBatch(h);
    var replies := RepliesOf(batch, n, answers);
    FirstFoundIs(replies);
    assert batches[n] == batch;
    assert forall j :: 0 <= j < |batch| ==> replies[j] == answers(n, j, batch[j]);
    if found :| FirstFound(replies) == Some(found) {
      var j :| 0 <= j < |replies| && replies[j] == Found(found) && forall m :: 0 <= m < j ==> !replies[m].Found?;
      assert |batches| - 1 == n && answers(n, j, batches[n][j]) == Found(found);
    }
    forall i | 0 <= i < n
      ensures Silent(batches, i, answers)
    {
      assert Silent(h.batches, i, answers) && batches[i] == h.batches[i];
    }
  }

  lemma {:induction false} UnvisitedMeans(list: seq<Contact>, visited: set<NodeId>)
    ensures forall c :: c in Unvisited(list, visited) <==> c in list && c.id !in visited
  {
    if list != [] {
      UnvisitedMeans(list[1..], visited);
      assert list == [list[0]] + list[1..];
    }
  }

  lemma {:induction false} AskedGrow(local: NodeId, batches: seq<seq<Contact>>, m: nat, n: nat)
    requires m <= n <= |batches|
    ensures AskedBefore(local, batches, m) <= AskedBefore(local, batches, n)
    ensures m < n ==> IdsOf(batches[m]) <= AskedBefore(local, batches, n)
    ensures local in AskedBefore(local, batches, n)
  {
    if m < n {
      AskedGrow(local, batches, m, n - 1);
    } else if n > 0 {
      AskedGrow(local, batches, n - 1, n - 1);
    }
  }

  /** Rounds ask disjoint sets of ids, never the local one, at most ALPHA at a time. */
  lemma BatchesDisjoint(h: Hunt, local: NodeId, key: NodeId)
    requires HuntOk(h, local, key)
    ensures forall i :: 0 <= i < |h.batches| ==> local !in IdsOf(h.batches[i]) && |h.batches[i]| <= ALPHA
    ensures forall i, j :: 0 <= i < j < |h.batches| ==> IdsOf(h.batches[i]) !! IdsOf(h.batches[j])
  {
    hide RankTo, Unvisited;
    forall i | 0 <= i < |h.batches|
      ensures IdsOf(h.batches[i]) !! AskedBefore(local, h.batches, i)
      ensures local !in IdsOf(h.batches[i]) && |h.batches[i]| <= ALPHA
      ensures forall m :: 0 <= m < i ==> IdsOf(h.batches[m]) !! IdsOf(h.batches[i])
    {
      assert BatchOk(h, local, key, i);
      UnvisitedMeans(h.lists[i], AskedBefore(local, h.batches, i));
      AskedGrow(local, h.batches, 0, i);
      forall m | 0 <= m < i
        ensures IdsOf(h.batches[m]) !! IdsOf(h.batches[i])
      {
        AskedGrow(local, h.batches, m, i);
      }
    }
  }

  lemma {:induction false} UnvisitedSorted(list: seq<Contact>, visited: set<NodeId>, rank: Contact -> nat)
    requires Sorted(list, rank)
    ensures Sorted(Unvisited(list, visited), rank)
  {
    if list != [] {
      UnvisitedSorted(list[1..], visited, rank);
      UnvisitedMeans(list[1..], visited);
      assert forall c :: c in list[1..] ==> rank(list[0]) <= rank(c);
    }
  }

  /** No contact of the list that was neither asked before nor in the batch is
      nearer the key than one in the batch. */
  lemma BatchIsNearest(h: Hunt, local: NodeId, key: NodeId, i: nat, b: Contact, c: Contact)
    requires HuntOk(h, local, key) && i < |h.batches| && b in h.batches[i]
    requires c in h.lists[i] && c.id !in AskedBefore(local, h.batches, i) && c !in h.batches[i]
    ensures RankTo(key)(b) <= RankTo(key)(c)
  {
    hide RankTo, Unvisited;
    assert BatchOk(h, local, key, i);
    var visited := AskedBefore(local, h.batches, i);
    UnvisitedMeans(h.lists[i], visited);
    UnvisitedSorted(h.lists[i], visited, RankTo(key));
    var u := Unvisited(h.lists[i], visited);
    var m :| 0 <= m < |h.batches[i]| && h.batches[i][m] == b;
    var n :| 0 <= n < |u| && u[n] == c;
    assert forall l :: 0 <= l < |h.batches[i]| ==> u[l] == h.batches[i][l];
  }

  function TotalAsked(batches: seq<seq<Contact>>): nat {
    if batches == [] then 0 else TotalAsked(batches[..|batches| - 1]) + |batches[|batches| - 1]|
  }

  lemma {:induction false} TotalBound(batches: seq<seq<Contact>>)
    requires forall i :: 0 <= i < |batches| ==> |batches[i]| <= ALPHA
    ensures TotalAsked(batches) <= ALPHA * |batches|
  {
    if batches != [] {
      TotalBound(batches[..|batches| - 1]);
    }
  }

  /** The whole search from any sorted list of at most K contacts, whatever the
      peers answer: at most fifty queries, to disjoint sets of ids, none of them
      local; every list asked from is the K nearest of the start and all contacts
      named so far; the value returned is the first one answered, and without one
      nobody asked had answered any. */
  lemma FindValueResult(local: NodeId, list: seq<Contact>, key: NodeId, answers: ValueAnswers)
    requires Sorted(list, RankTo(key)) && |list| <= K
    ensures var (r, h) := Seek(Begin(local, list), 0, key, answers);
            && HuntOk(h, local, key)
            && (r.Some? ==> |h.batches| > 0)
            && ListsExact(h, local, list, key, answers, if r.Some? then |h.batches| - 1 else |h.batches|)
            && TotalAsked(h.batches) <= ALPHA * MAX_ITERATIONS == 50
            && (forall i, j :: 0 <= i < j < |h.batches| ==> IdsOf(h.batches[i]) !! IdsOf(h.batches[j]))
            && (forall i :: 0 <= i < |h.batches| ==> local !in IdsOf(h.batches[i]))
            && (forall i :: 0 <= i < |h.batches| - 1 ==> Silent(h.batches, i, answers))
            && (r.Some? ==> FirstAnswer(h.batches, answers, r.value))
            && (r.None? ==> Exhausted(h, local, answers))
            && (r.None? ==> forall i :: 0 <= i < |h.batches| ==> Silent(h.batches, i, answers))
  {
    hide RankTo, Seek;
    SortOfSorted(list, RankTo(key));
    assert ListsExact(Begin(local, list), local, list, key, answers, 0);
    SearchTrace(Begin(local, list), 0, local, list, key, answers);
    var h := Seek(Begin(local, list), 0, key, answers).1;
    BatchesDisjoint(h, local, key);
    TotalBound(h.batches);
  }

  /** Who is named: the contacts of answers without a value, not visited before. */
  lemma {:induction false} NamedMeans(replies: seq<ValueReply>, visited: set<NodeId>, c: Contact)
    ensures c in NamedUnvisited(replies, visited) <==>
            c.id !in visited && exists j :: 0 <= j < |replies| && replies[j].Contacts? && c in replies[j].nodes
  {
    if replies != [] {
      NamedMeans(replies[1..], visited, c);
      if replies[0].Contacts? {
        UnvisitedMeans(replies[0].nodes, visited);
      }
      assert replies == [replies[0]] + replies[1..];
    }
  }

  /** Somebody asked in one of the first `n` batches answered with contacts, `c` among
      them, and `c` had not been asked by then. */
  ghost predicate NamedIn(local: NodeId, batches: seq<seq<Contact>>, n: nat, answers: ValueAnswers, c: Contact)
    requires n <= |batches|
  {
    exists i, j :: 0 <= i < n && 0 <= j < |batches[i]| && c.id !in AskedBefore(local, batches, i + 1) &&
      answers(i, j, batches[i][j]).Contacts? && c in answers(i, j, batches[i][j]).nodes
  }

  /** The pool a list is the nearest of is the start and everyone named, told from the
      answers themselves. */
  lemma {:induction false} PoolMeans(local: NodeId, start: seq<Contact>, batches: seq<seq<Contact>>, n: nat,
        answers: ValueAnswers, c: Contact)
    requires n <= |batches|
    ensures c in Pool(local, start, batches, n, answers) <==> c in start || NamedIn(local, batches, n, answers, c)
  {
    hide NamedUnvisited, AskedBefore;
    if n > 0 {
      PoolMeans(local, start, batches, n - 1, answers, c);
      var replies, visited := RepliesOf(batches[n - 1], n - 1, answers), AskedBefore(local, batches, n);
      NamedMeans(replies, visited, c);
      assert forall j :: 0 <= j < |replies| ==> replies[j] == answers(n - 1, j, batches[n - 1][j]);
      if j :| 0 <= j < |replies| && replies[j].Contacts? && c in replies[j].nodes && c.id !in visited {
        assert answers(n - 1, j, batches[n - 1][j]) == replies[j];
        assert c.id !in AskedBefore(local, batches, n - 1 + 1);
        assert NamedIn(local, batches, n, answers, c);
      }
      if i, j :| 0 <= i < n && 0 <= j < |batches[i]| && c.id !in AskedBefore(local, batches, i + 1) &&
                 answers(i, j, batches[i][j]).Contacts? && c in answers(i, j, batches[i][j]).nodes
      {
        if i < n - 1 {
          assert NamedIn(local, batches, n - 1, answers, c);
        } else {
          assert replies[j].Contacts? && c in replies[j].nodes;
        }
      }
    }
  }

  lemma {:induction false} UnvisitedPart(list: seq<Contact>, visited: set<NodeId>)
    ensures multiset(Unvisited(list, visited)) <= multiset(list)
  {
    if list != [] {
      UnvisitedPart(list[1..], visited);
      assert list == [list[0]] + list[1..];
    }
  }

  /** No id recurs in a batch when none recurs among the start and what was named
      before it; with disjoint batches, nobody is then asked twice. */
  lemma AskedOnceWhenNamedOnce(h: Hunt, local: NodeId, start: seq<Contact>, key: NodeId,
        answers: ValueAnswers, n: nat, i: nat)
    requires HuntOk(h, local, key) && ListsExact(h, local, start, key, answers, n) && i < |h.batches|
    requires DistinctIds(Pool(local, start, h.batches, i, answers))
    ensures DistinctIds(h.batches[i])
  {
    hide RankTo, Unvisited, Pool, TopK, AskedBefore;
    assert BatchOk(h, local, key, i);
    var pool, visited := Pool(local, start, h.batches, i, answers), AskedBefore(local, h.batches, i);
    TopKPart(pool, K, RankTo(key));
    LookupProperties.DistinctSubset(h.lists[i], pool);
    UnvisitedPart(h.lists[i], visited);
    LookupProperties.DistinctSubset(Unvisited(h.lists[i], visited), h.lists[i]);
  }

  /** An id occurs at two positions of a list. */
  ghost predicate Recurs(s: seq<Contact>, id: NodeId) {
    exists p, q :: 0 <= p < q < |s| && s[p].id == id && s[q].id == id
  }

  /** An id recurs in a batch exactly when it recurs among the contacts of the list
      not asked before and fewer than ALPHA - 1 of them come before its first copy. */
  lemma RecursExactly(h: Hunt, local: NodeId, key: NodeId, i: nat, id: NodeId)
    requires HuntOk(h, local, key) && i < |h.batches|
    ensures var left := Unvisited(h.lists[i], AskedBefore(local, h.batches, i));
            Recurs(h.batches[i], id) <==> Recurs(left, id) && IndexOf(left, id) < ALPHA - 1
  {
    hide RankTo, Unvisited, AskedBefore, IndexOf, Recurs;
    assert BatchOk(h, local, key, i);
    var left := Unvisited(h.lists[i], AskedBefore(local, h.batches, i));
    UnvisitedSorted(h.lists[i], AskedBefore(local, h.batches, i), RankTo(key));
    PrefixRecurs(left, key, ALPHA, id);
  }

  /** In a list sorted by distance the copies of an id are next to each other. */
  lemma PrefixRecurs(s: seq<Contact>, key: NodeId, n: nat, id: NodeId)
    requires Sorted(s, RankTo(key)) && n > 0
    ensures Recurs(Take(s, n), id) <==> Recurs(s, id) && IndexOf(s, id) < n - 1
  {
    hide RankTo, IndexOf;
    var rank, first := RankTo(key), IndexOf(s, id);
    if p, q :| 0 <= p < q < |Take(s, n)| && Take(s, n)[p].id == id && Take(s, n)[q].id == id {
      assert s[p].id == id && s[q].id == id;
    }
    if p, q :| 0 <= p < q < |s| && s[p].id == id && s[q].id == id && first < n - 1 {
      SameIdSameRank(key, s[first], s[q]);
      assert rank(s[first]) <= rank(s[first + 1]) <= rank(s[q]);
      RankInjective(key, s[first], s[first + 1]);
      assert Take(s, n)[first].id == id && Take(s, n)[first + 1].id == id;
    }
  }

  // ----- who is left unasked -----

  /** Somebody on the current list has not been asked. */
  ghost predicate LeftUnasked(h: Hunt) {
    exists c :: c in h.closest && c.id !in h.visited
  }

  /** A round that finds no value and names nobody new ends the search, at whatever
      iteration; somebody is left unasked exactly when the unasked contacts of the
      list have an id outside the batch. */
  lemma SilentRoundEnds(h: Hunt, iteration: nat, key: NodeId, answers: ValueAnswers)
    requires iteration < MAX_ITERATIONS && NextBatch(h) != []
    requires FirstFound(RepliesOf(NextBatch(h), iteration, answers)) == None
    requires NamedUnvisited(RepliesOf(NextBatch(h), iteration, answers), Visiting(h).visited) == []
    ensures Seek(h, iteration, key, answers) == (None, Visiting(h))
    ensures LeftUnasked(Visiting(h)) <==>
            exists c :: c in Unvisited(h.closest, h.visited) && c.id !in IdsOf(NextBatch(h))
  {
    hide NextBatch, FirstFound, NamedUnvisited, RepliesOf, IdsOf;
    UnvisitedMeans(h.closest, h.visited);
  }

  /** The tenth round ends the search even when it names somebody new; somebody is
      left unasked exactly when one of the contacts listed or named has not been
      asked and fewer than K of them are nearer the key. */
  lemma TenthRoundEnds(h: Hunt, key: NodeId, answers: ValueAnswers)
    requires NextBatch(h) != []
    requires FirstFound(RepliesOf(NextBatch(h), MAX_ITERATIONS - 1, answers)) == None
    requires NamedUnvisited(RepliesOf(NextBatch(h), MAX_ITERATIONS - 1, answers), Visiting(h).visited) != []
    ensures var h' := Visiting(h);
            var more := NamedUnvisited(RepliesOf(NextBatch(h), MAX_ITERATIONS - 1, answers), h'.visited);
            && Seek(h, MAX_ITERATIONS - 1, key, answers) == (None, Widened(h', more, key))
            && (LeftUnasked(Widened(h', more, key)) <==> UnaskedKept(h.closest + more, h'.visited, key))
  {
    hide RankTo, NextBatch, FirstFound, NamedUnvisited, RepliesOf, IdsOf, TopK, LeftUnasked, UnaskedKept;
    var h' := Visiting(h);
    var more := NamedUnvisited(RepliesOf(NextBatch(h), MAX_ITERATIONS - 1, answers), h'.visited);
    KeptUnasked(h', more, key);
  }

  /** Some contact not visited has fewer than K others nearer the key. */
  ghost predicate UnaskedKept(all: seq<Contact>, visited: set<NodeId>, key: NodeId) {
    exists c :: c in all && c.id !in visited && CountBelow(all, RankTo(key)(c), RankTo(key)) < K
  }

  lemma KeptUnasked(h: Hunt, more: seq<Contact>, key: NodeId)
    ensures LeftUnasked(Widened(h, more, key)) <==> UnaskedKept(h.closest + more, h.visited, key)
  {
    hide RankTo, TopK, CountBelow;
    var rank, all, top := RankTo(key), h.closest + more, TopK(h.closest + more, K, RankTo(key));
    if c :| c in top && c.id !in h.visited {
      KeptExactly(all, K, rank(c), rank);
      assert HasRank(top, rank(c), rank);
      var d :| d in all && rank(d) == rank(c);
      RankInjective(key, c, d);
    }
    if c :| c in all && c.id !in h.visited && CountBelow(all, rank(c), rank) < K {
      assert HasRank(all, rank(c), rank);
      KeptExactly(all, K, rank(c), rank);
      var d :| d in top && rank(d) == rank(c);
      RankInjective(key, c, d);
    }
  }

  lemma NobodyLeft(h: Hunt, iteration: nat, key: NodeId, answers: ValueAnswers)
    requires NextBatch(h) == []
    ensures Seek(h, iteration, key, answers) == (None, h) && !LeftUnasked(h)
  {
    UnvisitedMeans(h.closest, h.visited);
  }

  /** The two ways in which a search that found nothing leaves somebody unasked:
      its last round named nobody new and its batch did not cover the unasked, or
      it was the tenth and somebody unasked stayed on the list. */
  ghost predicate EndsEarly(h: Hunt, local: NodeId, key: NodeId, answers: ValueAnswers)
    requires |h.lists| == |h.batches|
  {
    && h.batches != []
    && var last := |h.batches| - 1;
       var named := NamedBy(local, h.batches, last, answers);
       if named == [] then
         exists c :: c in Unvisited(h.lists[last], AskedBefore(local, h.batches, last)) &&
                     c.id !in IdsOf(h.batches[last])
       else
         |h.batches| == MAX_ITERATIONS &&
         UnaskedKept(h.lists[last] + named, AskedBefore(local, h.batches, last + 1), key)
  }

  /** A search that returns no value has left somebody on its list unasked exactly
      in those two ways. */
  lemma {:induction false} UnaskedExactly(h: Hunt, iteration: nat, local: NodeId, key: NodeId, answers: ValueAnswers)
    requires HuntOk(h, local, key) && |h.batches| == iteration < MAX_ITERATIONS
    requires h.batches != [] ==> NamedBy(local, h.batches, iteration - 1, answers) != []
    requires Seek(h, iteration, key, answers).0 == None
    ensures var h' := Seek(h, iteration, key, answers).1;
            |h'.lists| == |h'.batches| && (LeftUnasked(h') <==> EndsEarly(h', local, key, answers))
    decreases MAX_ITERATIONS - iteration
  {
    hide RankTo, Unvisited, NamedUnvisited, FirstFound, TopK, AskedBefore, LeftUnasked, UnaskedKept, IdsOf, BatchOk;
    var batch := NextBatch(h);
    if batch == [] {
      NobodyLeft(h, iteration, key, answers);
    } else {
      VisitingKeepsOk(h, local, key);
      NamedIsMore(h, local, key, answers);
      var h1, replies := Visiting(h), RepliesOf(batch, iteration, answers);
      var more := NamedUnvisited(replies, h1.visited);
      assert h1.lists[iteration] == h.closest && h1.batches[iteration] == batch;
      AskedBeforePrefix(local, h.batches, [batch], iteration);
      if more == [] {
        SilentRoundEnds(h, iteration, key, answers);
      } else {
        var h2 := Widened(h1, more, key);
        if iteration == MAX_ITERATIONS - 1 {
          TenthRoundEnds(h, key, answers);
        } else {
          WideningKeepsOk(h1, local, key, more);
          UnaskedExactly(h2, iteration + 1, local, key, answers);
        }
      }
    }
  }

  // ----- what the search does not do -----

  lemma {:induction false} AllUnvisited(list: seq<Contact>, visited: set<NodeId>)
    requires forall c :: c in list ==> c.id !in visited
    ensures Unvisited(list, visited) == list
  {
    if list != [] {
      AllUnvisited(list[1..], visited);
    }
  }

  lemma {:induction false} SilentReplies(replies: seq<ValueReply>, visited: set<NodeId>)
    requires forall j :: 0 <= j < |replies| ==> replies[j] == Contacts([])
    ensures FirstFound(replies) == None && NamedUnvisited(replies, visited) == []
  {
    if replies != [] {
      SilentReplies(replies[1..], visited);
    }
  }

  /** When the first ALPHA contacts name nobody the search ends, and the contacts
      behind them on the list are never asked, whatever they would answer. */
  lemma StopsWithUnaskedLeft(local: NodeId, list: seq<Contact>, key: NodeId, answers: ValueAnswers)
    requires |list| > ALPHA && forall c :: c in list ==> c.id != local
    requires forall j :: 0 <= j < ALPHA ==> answers(0, j, list[j]) == Contacts([])
    ensures var (r, h) := Seek(Begin(local, list), 0, key, answers);
            r == None && h.batches == [list[..ALPHA]] &&
            (LeftUnasked(h) <==> IdsOf(list[ALPHA..]) - IdsOf(list[..ALPHA]) != {})
  {
    hide RankTo, Unvisited, FirstFound, NamedUnvisited;
    var h := Begin(local, list);
    AllUnvisited(list, {local});
    var batch := NextBatch(h);
    assert batch == list[..ALPHA];
    SilentReplies(RepliesOf(batch, 0, answers), Visiting(h).visited);
    SilentRoundEnds(h, 0, key, answers);
    assert list == list[..ALPHA] + list[ALPHA..];
    if c :| c in list && c.id !in IdsOf(batch) {
      assert c in list[ALPHA..] && c.id in IdsOf(list[ALPHA..]);
    }
  }

  /** A round without value that names somebody new before the tenth is followed by another. */
  lemma NextRound(h: Hunt, iteration: nat, key: NodeId, answers: ValueAnswers)
    requires iteration < MAX_ITERATIONS && NextBatch(h) != []
    requires FirstFound(RepliesOf(NextBatch(h), iteration, answers)) == None
    requires NamedUnvisited(RepliesOf(NextBatch(h), iteration, answers), Visiting(h).visited) != []
    ensures var more := NamedUnvisited(RepliesOf(NextBatch(h), iteration, answers), Visiting(h).visited);
            Seek(h, iteration, key, answers) == Seek(Widened(Visiting(h), more, key), iteration + 1, key, answers)
  {
    hide NextBatch, FirstFound, NamedUnvisited, RepliesOf, Visiting, Widened;
  }

  /** One answer that names a contact twice makes the next round ask it twice. */
  lemma AsksTwiceInARound(local: NodeId, key: NodeId, a: Contact, b: Contact, answers: ValueAnswers)
    requires a.id != local && b.id != local && a.id != b.id
    requires answers(0, 0, a) == Contacts([b, b])
    requires answers(1, 0, b) == Contacts([]) && answers(1, 1, b) == Contacts([])
    ensures Seek(Begin(local, [a]), 0, key, answers).1.batches == [[a], [b, b]]
  {
    hide RankTo, TopK, Seek, Unvisited, FirstFound, NamedUnvisited;
    var h0 := Begin(local, [a]);
    AllUnvisited([a], {local});
    assert NextBatch(h0) == [a];
    var h1 := Visiting(h0);
    assert a.id in h1.visited && b.id !in h1.visited && h1.batches == [[a]] by {
      assert a in [a];
    }
    OneReply(RepliesOf([a], 0, answers), [b, b], h1.visited);
    NextRound(h0, 0, key, answers);
    TwoOfThree(a, b, h1.visited, key);
    LastTwo(Widened(h1, [b, b], key), b, key, answers);
  }

  lemma LastTwo(h: Hunt, b: Contact, key: NodeId, answers: ValueAnswers)
    requires NextBatch(h) == [b, b]
    requires answers(1, 0, b) == Contacts([]) && answers(1, 1, b) == Contacts([])
    ensures Seek(h, 1, key, answers).1.batches == h.batches + [[b, b]]
  {
    hide NextBatch, Seek, FirstFound, NamedUnvisited;
    SilentReplies(RepliesOf([b, b], 1, answers), Visiting(h).visited);
    SilentRoundEnds(h, 1, key, answers);
  }

  lemma OneReply(replies: seq<ValueReply>, nodes: seq<Contact>, visited: set<NodeId>)
    requires replies == [Contacts(nodes)] && forall c :: c in nodes ==> c.id !in visited
    ensures FirstFound(replies) == None && NamedUnvisited(replies, visited) == nodes
  {
    AllUnvisited(nodes, visited);
    assert replies[1..] == [];
  }

  lemma TwoOfThree(a: Contact, b: Contact, visited: set<NodeId>, key: NodeId)
    requires a.id in visited && b.id !in visited
    ensures Take(Unvisited(TopK([a] + [b, b], K, RankTo(key)), visited), ALPHA) == [b, b]
  {
    hide RankTo;
    var rank, all := RankTo(key), [a] + [b, b];
    assert all == [a, b] + [b] && [a, b] == [a] + [b] && [a] == [] + [a];
    SortSnoc([a, b], b, rank);
    SortSnoc([a], b, rank);
    SortSnoc([], a, rank);
    assert Insert([], a, rank) == [a];
    var s1 := Insert([a], b, rank);
    assert s1 == if rank(b) < rank(a) then [b, a] else [a, b];
    var s := Insert(s1, b, rank);
    assert s == SortBy(all, rank);
    assert s1[1..] == [s1[1]];
    assert s == if rank(b) < rank(a) then [b, b, a] else [a, b, b];
    AllUnvisited([b, b], visited);
    assert Unvisited([a], visited) == [];
    if rank(b) < rank(a) {
      assert s == [b, b] + [a];
      UnvisitedConcat([b, b], [a], visited);
    } else {
      assert s == [a] + [b, b];
      UnvisitedConcat([a], [b, b], visited);
    }
  }

  lemma {:induction false} UnvisitedConcat(s: seq<Contact>, t: seq<Contact>, visited: set<NodeId>)
    ensures Unvisited(s + t, visited) == Unvisited(s, visited) + Unvisited(t, visited)
  {
    if s == [] {
      assert s + t == t;
    } else {
      assert (s + t)[1..] == s[1..] + t;
      UnvisitedConcat(s[1..], t, visited);
    }
  }
}
