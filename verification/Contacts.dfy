/** Contacts: what a node remembers about another node. */
module Contacts {
  import opened NodeIds

  const WORD: nat := 0x1_0000_0000
  const NODE_TIMEOUT: nat := 900
  const MIN_SUCCESS_RATE: real := 0.5

  type Address = nat
  type Count = n: nat | n < WORD

  datatype LastSeen = Never | At(seconds: nat)

  datatype ResponseStats = ResponseStats(successes: Count, failures: Count)

  datatype Contact = Contact(id: NodeId, addr: Address, lastSeen: LastSeen, stats: ResponseStats)

  /** Share of successes; the total is a 32-bit sum and wraps. */
  function SuccessRate(stats: ResponseStats): real {
    var total := (stats.successes + stats.failures) % WORD;
    if total == 0 then 1.0 else stats.successes as real / total as real
  }

  predicate IsReliable(stats: ResponseStats, threshold: real) {
    SuccessRate(stats) >= threshold
  }

  function RecordSuccess(stats: ResponseStats): ResponseStats {
    stats.(successes := if stats.successes == WORD - 1 then WORD - 1 else stats.successes + 1)
  }

  function RecordFailure(stats: ResponseStats): ResponseStats {
    stats.(failures := if stats.failures == WORD - 1 then WORD - 1 else stats.failures + 1)
  }

  predicate Reliable(c: Contact) {
    IsReliable(c.stats, MIN_SUCCESS_RATE)
  }

  /** The contact with its last-seen time set to `now`. */
  function SeenAt(c: Contact, now: nat): Contact {
    c.(lastSeen := At(now))
  }

  /** Whether the contact was last seen within the node timeout. */
  predicate IsActive(c: Contact, now: nat) {
    match c.lastSeen
    case Never => false
    case At(t) => now < t || now - t <= NODE_TIMEOUT
  }

  /** The reliability test needs no division: a contact passes exactly when its
      failures do not outnumber its successes, or its counters overflow. */
  lemma ReliableExactly(c: Contact)
    ensures Reliable(c) <==> (c.stats.successes >= c.stats.failures || c.stats.successes + c.stats.failures >= WORD)
  {
    var s, f := c.stats.successes, c.stats.failures;
    var total := (s + f) % WORD;
    assert total == if s + f < WORD then s + f else s + f - WORD;
    if total != 0 {
      HalfOrMore(s, total);
    }
  }

  lemma HalfOrMore(part: nat, total: nat)
    requires total > 0
    ensures part as real / total as real >= 0.5 <==> 2 * part >= total
  {
    var q := part as real / total as real;
    assert q * total as real == part as real;
    if q >= 0.5 {
      assert q * total as real >= 0.5 * total as real;
    } else {
      assert q * total as real < 0.5 * total as real;
    }
  }

  /** A contact is active while no more than 900 seconds have passed since it was last
      seen, also when the clock reads less than that; one never seen is not. */
  lemma ActiveExactly(c: Contact, now: nat)
    ensures IsActive(c, now) <==> c.lastSeen.At? && now <= c.lastSeen.seconds + 900
  {
  }

  // ----- counting responses -----

  /** The statistics after a series of calls, each answered or not. */
  function Recorded(stats: ResponseStats, answered: seq<bool>): ResponseStats {
    if answered == [] then stats
    else
      var before := Recorded(stats, answered[..|answered| - 1]);
      if answered[|answered| - 1] then RecordSuccess(before) else RecordFailure(before)
  }

  function Saturated(n: nat): Count {
    if n < WORD then n else WORD - 1
  }

  /** The counters count, up to the largest 32-bit number, where they stay. */
  lemma {:induction false} CountersExactly(stats: ResponseStats, answered: seq<bool>)
    ensures Recorded(stats, answered).successes == Saturated(stats.successes + multiset(answered)[true])
    ensures Recorded(stats, answered).failures == Saturated(stats.failures + multiset(answered)[false])
  {
    if answered != [] {
      var most, last := answered[..|answered| - 1], answered[|answered| - 1];
      CountersExactly(stats, most);
      assert answered == most + [last];
    }
  }

  /** A success never makes a reliable contact unreliable; a failure makes an
      unreliable one pass exactly when it overflows the sum. */
  lemma RecordingReliability(c: Contact)
    ensures Reliable(c) ==> Reliable(c.(stats := RecordSuccess(c.stats)))
    ensures !Reliable(c) ==> (Reliable(c.(stats := RecordFailure(c.stats))) <==>
              c.stats.failures < WORD - 1 && c.stats.successes + c.stats.failures == WORD - 1)
  {
    hide Reliable;
    ReliableExactly(c);
    ReliableExactly(c.(stats := RecordSuccess(c.stats)));
    ReliableExactly(c.(stats := RecordFailure(c.stats)));
  }

  function IdsOf(contacts: seq<Contact>): set<NodeId> {
    set c | c in contacts :: c.id
  }

  ghost predicate DistinctIds(contacts: seq<Contact>) {
    forall i, j :: 0 <= i < j < |contacts| ==> contacts[i].id != contacts[j].id
  }
}
