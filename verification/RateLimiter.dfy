/** The fixed-window request limit per source address. */
module RateLimiter {

  /** Nanoseconds in the window, and requests accepted per window. */
  const WINDOW: nat := 60_000_000_000
  const MAX_REQUESTS: nat := 100

  type Ip = nat

  datatype Entry = Entry(windowStart: nat, count: nat)

  type Limits = map<Ip, Entry>

  /** The entry a request at `now` is counted in. */
  function Current(t: Limits, ip: Ip, now: nat): Entry {
    if ip !in t || now > t[ip].windowStart + WINDOW then Entry(now, 0) else t[ip]
  }

  predicate Accepts(t: Limits, ip: Ip, now: nat) {
    Current(t, ip, now).count < MAX_REQUESTS
  }

  function AfterRequest(t: Limits, ip: Ip, now: nat): Limits {
    var e := Current(t, ip, now);
    t[ip := if e.count < MAX_REQUESTS then e.(count := e.count + 1) else e]
  }

  class RateLimitTable {
    var entries: Limits

    constructor ()
      ensures entries == map[]
    {
      entries := map[];
    }

    method CheckRateLimit(ip: Ip, now: nat) returns (allowed: bool)
      modifies this
      ensures allowed == Accepts(old(entries), ip, now)
      ensures entries == AfterRequest(old(entries), ip, now)
    {
      if ip !in entries {
        entries := entries[ip := Entry(now, 0)];
      }
      if now > entries[ip].windowStart + WINDOW {
        entries := entries[ip := Entry(now, 0)];
      }
      if entries[ip].count >= MAX_REQUESTS {
        return false;
      }
      entries := entries[ip := entries[ip].(count := entries[ip].count + 1)];
      return true;
    }
  }

  // ----- traces -----

  datatype Request = Request(ip: Ip, time: nat)

  ghost predicate ClockForward(trace: seq<Request>) {
    forall i, j :: 0 <= i < j < |trace| ==> trace[i].time <= trace[j].time
  }

  function TableAfter(trace: seq<Request>): Limits {
    if trace == [] then map[]
    else AfterRequest(TableAfter(trace[..|trace| - 1]), trace[|trace| - 1].ip, trace[|trace| - 1].time)
  }

  /** Whether the request that follows `trace` is accepted. */
  predicate Accepted(trace: seq<Request>, r: Request) {
    Accepts(TableAfter(trace), r.ip, r.time)
  }

  /** How many requests of `ip` with times from `lo` to `hi` were accepted. */
  function AcceptedWithin(trace: seq<Request>, ip: Ip, lo: int, hi: int): nat {
    if trace == [] then 0
    else
      var before, r := trace[..|trace| - 1], trace[|trace| - 1];
      AcceptedWithin(before, ip, lo, hi) + if r.ip == ip && lo <= r.time <= hi && Accepted(before, r) then 1 else 0
  }

  // ----- addresses do not affect each other -----

  function OnlyFrom(trace: seq<Request>, ip: Ip): seq<Request> {
    if trace == [] then []
    else OnlyFrom(trace[..|trace| - 1], ip) + if trace[|trace| - 1].ip == ip then [trace[|trace| - 1]] else []
  }

  /** Whether a request is accepted depends on the requests of its own address
      alone. */
  lemma {:induction false} AddressesIndependent(trace: seq<Request>, r: Request)
    ensures Accepted(trace, r) <==> Accepted(OnlyFrom(trace, r.ip), r)
    ensures r.ip in TableAfter(trace) <==> r.ip in TableAfter(OnlyFrom(trace, r.ip))
    ensures r.ip in TableAfter(trace) ==> TableAfter(trace)[r.ip] == TableAfter(OnlyFrom(trace, r.ip))[r.ip]
  {
    if trace != [] {
      var before, last := trace[..|trace| - 1], trace[|trace| - 1];
      AddressesIndependent(before, r);
      if last.ip == r.ip {
        assert OnlyFrom(trace, r.ip)[..|OnlyFrom(trace, r.ip)| - 1] == OnlyFrom(before, r.ip);
      } else {
        assert OnlyFrom(trace, r.ip) == OnlyFrom(before, r.ip);
      }
    }
  }

  // ----- the windows of an address -----

  /** Request `i` opens a window of the address: no window opened before it still runs. */
  ghost predicate Opens(trace: seq<Request>, ip: Ip, i: nat)
    requires i < |trace|
    decreases i
  {
    trace[i].ip == ip && forall j :: 0 <= j < i && Opens(trace, ip, j) ==> trace[i].time > trace[j].time + WINDOW
  }

  ghost predicate LastOpened(trace: seq<Request>, ip: Ip, i: nat) {
    i < |trace| && Opens(trace, ip, i) && forall j :: i < j < |trace| ==> !Opens(trace, ip, j)
  }

  /** How many requests the address sent from request `i` on, accepted or not. */
  function SentFrom(trace: seq<Request>, ip: Ip, i: nat): nat {
    if |trace| <= i then 0
    else SentFrom(trace[..|trace| - 1], ip, i) + if trace[|trace| - 1].ip == ip then 1 else 0
  }

  lemma {:induction false} OpensPrefix(trace: seq<Request>, n: nat, ip: Ip, i: nat)
    requires i < n <= |trace|
    ensures Opens(trace[..n], ip, i) <==> Opens(trace, ip, i)
    decreases i
  {
    forall j | 0 <= j < i
      ensures Opens(trace[..n], ip, j) <==> Opens(trace, ip, j)
    {
      OpensPrefix(trace, n, ip, j);
    }
  }

  /** One more request: the last window is the one it opens, if it does, else the same. */
  lemma LastOpenedNext(trace: seq<Request>, r: Request, ip: Ip, i: nat)
    requires ClockForward(trace + [r]) && LastOpened(trace, ip, i)
    ensures var opens := r.ip == ip && r.time > trace[i].time + WINDOW;
            && LastOpened(trace + [r], ip, if opens then |trace| else i)
            && (Opens(trace + [r], ip, |trace|) <==> opens)
  {
    var longer, n := trace + [r], |trace|;
    SameOpens(trace, r, ip);
    hide Opens;
    assert longer[n] == r && longer[i] == trace[i] && Opens(longer, ip, i);
    OpensMeans(longer, ip, n);
    forall j | 0 <= j < n && Opens(longer, ip, j)
      ensures trace[j].time <= trace[i].time
    {
      assert j <= i;
      assert longer[j].time <= longer[i].time;
    }
  }

  lemma OpensMeans(trace: seq<Request>, ip: Ip, i: nat)
    requires i < |trace|
    ensures Opens(trace, ip, i) <==>
            trace[i].ip == ip &&
            forall j :: 0 <= j < i && Opens(trace, ip, j) ==> trace[i].time > trace[j].time + WINDOW
  {
  }

  lemma SameOpens(trace: seq<Request>, r: Request, ip: Ip)
    ensures forall j :: 0 <= j < |trace| ==> (Opens(trace + [r], ip, j) <==> Opens(trace, ip, j))
  {
    hide Opens;
    forall j | 0 <= j < |trace|
      ensures Opens(trace + [r], ip, j) <==> Opens(trace, ip, j)
    {
      OpensPrefix(trace + [r], |trace|, ip, j);
      assert (trace + [r])[..|trace|] == trace;
    }
  }

  ghost predicate AnySent(trace: seq<Request>, ip: Ip) {
    exists j :: 0 <= j < |trace| && trace[j].ip == ip
  }

  /** The first request of an address opens its first window. */
  lemma FirstOpens(trace: seq<Request>, r: Request)
    requires !AnySent(trace, r.ip)
    ensures LastOpened(trace + [r], r.ip, |trace|)
  {
    var longer := trace + [r];
    assert forall j :: 0 <= j < |trace| ==> longer[j] == trace[j];
    assert longer[|trace|] == r;
  }

  lemma SentNext(trace: seq<Request>, r: Request, ip: Ip, i: nat)
    requires i <= |trace|
    ensures SentFrom(trace + [r], ip, i) == SentFrom(trace, ip, i) + if r.ip == ip then 1 else 0
  {
    assert (trace + [r])[..|trace|] == trace;
  }

  lemma AnyNext(trace: seq<Request>, r: Request, ip: Ip)
    ensures AnySent(trace + [r], ip) <==> AnySent(trace, ip) || r.ip == ip
  {
    var longer := trace + [r];
    assert longer[|trace|] == r;
    if j :| 0 <= j < |trace| && trace[j].ip == ip {
      assert longer[j] == trace[j];
    }
  }

  /** The entry of an address is its last window: opened when the window opened, and
      counting what was sent since, up to the limit.  There is none before the first
      request. */
  lemma {:induction false} EntryIsLastWindow(trace: seq<Request>, ip: Ip) returns (i: nat)
    requires ClockForward(trace)
    ensures ip in TableAfter(trace) <==> AnySent(trace, ip)
    ensures AnySent(trace, ip) ==> LastOpened(trace, ip, i)
    ensures AnySent(trace, ip) ==>
              var sent := SentFrom(trace, ip, i);
              TableAfter(trace)[ip] == Entry(trace[i].time, if sent < MAX_REQUESTS then sent else MAX_REQUESTS)
  {
    hide SentFrom, LastOpened, AnySent;
    i := 0;
    if trace == [] {
      assert !AnySent([], ip) by {
        NothingSent(ip);
      }
    } else {
      var before, r := trace[..|trace| - 1], trace[|trace| - 1];
      assert before + [r] == trace;
      var was := EntryIsLastWindow(before, ip);
      AnyNext(before, r, ip);
      if !AnySent(before, ip) {
        i := |before|;
        if r.ip == ip {
          FirstOpens(before, r);
        }
      } else {
        LastOpenedNext(before, r, ip, was);
        assert was < |before| by {
          OpenedInside(before, ip, was);
        }
        i := if r.ip == ip && r.time > before[was].time + WINDOW then |before| else was;
        SentNext(before, r, ip, was);
      }
      SentNext(before, r, ip, |before|);
      NoneSentAfter(before, ip);
    }
  }

  lemma NothingSent(ip: Ip)
    ensures !AnySent([], ip)
  {
  }

  lemma OpenedInside(trace: seq<Request>, ip: Ip, i: nat)
    requires LastOpened(trace, ip, i)
    ensures i < |trace|
  {
  }

  lemma NoneSentAfter(trace: seq<Request>, ip: Ip)
    ensures SentFrom(trace, ip, |trace|) == 0
  {
  }

  /** A request is accepted exactly when it opens a window or fewer requests than the
      limit have been sent since the last window opened. */
  lemma AcceptedExactly(trace: seq<Request>, r: Request)
    requires ClockForward(trace + [r])
    ensures Accepted(trace, r) <==>
            Opens(trace + [r], r.ip, |trace|) ||
            exists i: nat :: LastOpened(trace, r.ip, i) && SentFrom(trace, r.ip, i) < MAX_REQUESTS
  {
    hide Opens, SentFrom, AnySent;
    assert forall j :: 0 <= j < |trace| ==> (trace + [r])[j] == trace[j];
    var i := EntryIsLastWindow(trace, r.ip);
    if AnySent(trace, r.ip) {
      LastOpenedNext(trace, r, r.ip, i);
      assert forall j: nat :: LastOpened(trace, r.ip, j) ==> j == i;
    } else {
      FirstOpens(trace, r);
    }
  }

  // ----- how many requests get through -----

  function LastTime(trace: seq<Request>): nat {
    if trace == [] then 0 else trace[|trace| - 1].time
  }

  /** What the entry of an address says about the requests accepted from `lo` on:
      none later than its window, all of its count at its start, at most one less
      after its start, and at most a full count for every window length before. */
  ghost predicate Explains(e: Entry, accepted: nat, lo: int, hi: int, j: nat) {
    && 1 <= e.count <= MAX_REQUESTS && e.windowStart <= hi
    && (lo > e.windowStart + WINDOW ==> accepted == 0)
    && (lo > e.windowStart ==> accepted <= e.count - 1)
    && (lo == e.windowStart ==> accepted == e.count)
    && (lo < e.windowStart <= lo + j * WINDOW ==> accepted <= e.count + MAX_REQUESTS * j - 1)
  }

  lemma {:induction false} EntryExplains(trace: seq<Request>, ip: Ip, lo: int, hi: int, j: nat)
    requires ClockForward(trace) && LastTime(trace) <= hi
    ensures var t, accepted := TableAfter(trace), AcceptedWithin(trace, ip, lo, hi);
            if ip in t then Explains(t[ip], accepted, lo, LastTime(trace), j) else accepted == 0
  {
    if trace != [] {
      var before, r := trace[..|trace| - 1], trace[|trace| - 1];
      assert LastTime(before) <= r.time;
      EntryExplains(before, ip, lo, hi, j);
      if j > 0 {
        EntryExplains(before, ip, lo, hi, j - 1);
        assert lo + j * WINDOW == lo + (j - 1) * WINDOW + WINDOW;
      }
    }
  }

  lemma {:induction false} LaterDoNotCount(trace: seq<Request>, ip: Ip, lo: int, hi: int) returns (n: nat)
    requires ClockForward(trace)
    ensures n <= |trace| && ClockForward(trace[..n]) && (trace[..n] != [] ==> LastTime(trace[..n]) <= hi)
    ensures AcceptedWithin(trace, ip, lo, hi) == AcceptedWithin(trace[..n], ip, lo, hi)
  {
    if trace == [] || trace[|trace| - 1].time <= hi {
      n := |trace|;
      assert trace[..n] == trace;
    } else {
      n := LaterDoNotCount(trace[..|trace| - 1], ip, lo, hi);
      assert trace[..|trace| - 1][..n] == trace[..n];
    }
  }

  /** In any span of `n` window lengths at most n + 1 full windows get through,
      less one when n >= 1; in a single instant, one window. */
  lemma SpanBound(trace: seq<Request>, ip: Ip, lo: nat, n: nat)
    requires ClockForward(trace)
    ensures AcceptedWithin(trace, ip, lo, lo + n * WINDOW) <= (n + 1) * MAX_REQUESTS - (if n == 0 then 0 else 1)
  {
    var hi := lo + n * WINDOW;
    var m := LaterDoNotCount(trace, ip, lo, hi);
    EntryExplains(trace[..m], ip, lo, hi, n);
  }

  /** A refusal means that a full window of requests was accepted within the window
      length before it. */
  lemma RefusedOnlyWhenFull(trace: seq<Request>, r: Request)
    requires ClockForward(trace) && LastTime(trace) <= r.time && !Accepted(trace, r)
    ensures AcceptedWithin(trace, r.ip, r.time - WINDOW, r.time) >= MAX_REQUESTS
  {
    var start := TableAfter(trace)[r.ip].windowStart;
    EntryExplains(trace, r.ip, start, r.time, 0);
    EarlierCountsMore(trace, r.ip, r.time - WINDOW, start, r.time);
  }

  lemma {:induction false} EarlierCountsMore(trace: seq<Request>, ip: Ip, early: int, late: int, hi: int)
    requires early <= late
    ensures AcceptedWithin(trace, ip, early, hi) >= AcceptedWithin(trace, ip, late, hi)
  {
    if trace != [] {
      EarlierCountsMore(trace[..|trace| - 1], ip, early, late, hi);
    }
  }

  // ----- the bound is reached -----

  function Burst(ip: Ip, time: nat, count: nat): seq<Request> {
    seq(count, _ => Request(ip, time))
  }

  /** Requests at one time are all accepted while they fit the window. */
  lemma {:induction false} BurstFits(trace: seq<Request>, ip: Ip, time: nat, count: nat, lo: int, hi: int)
    requires count > 0 && Current(TableAfter(trace), ip, time).count + count <= MAX_REQUESTS
    requires lo <= time <= hi
    ensures var e, after := Current(TableAfter(trace), ip, time), TableAfter(trace + Burst(ip, time, count));
            ip in after && after[ip] == Entry(e.windowStart, e.count + count)
    ensures AcceptedWithin(trace + Burst(ip, time, count), ip, lo, hi) == AcceptedWithin(trace, ip, lo, hi) + count
  {
    hide TableAfter, AcceptedWithin;
    var before := trace + Burst(ip, time, count - 1);
    assert trace + Burst(ip, time, count) == before + [Request(ip, time)];
    Appended(before, Request(ip, time), lo, hi);
    if count == 1 {
      assert before == trace;
    } else {
      BurstFits(trace, ip, time, count - 1, lo, hi);
    }
  }

  lemma Appended(trace: seq<Request>, r: Request, lo: int, hi: int)
    requires lo <= r.time <= hi
    ensures TableAfter(trace + [r]) == AfterRequest(TableAfter(trace), r.ip, r.time)
    ensures AcceptedWithin(trace + [r], r.ip, lo, hi) ==
            AcceptedWithin(trace, r.ip, lo, hi) + if Accepted(trace, r) then 1 else 0
  {
    assert (trace + [r])[..|trace|] == trace;
  }

  /** A request that opens a window, 99 at its very end, and then `n` full windows,
      each opened as soon as the one before has expired. */
  function Chain(ip: Ip, n: nat): seq<Request> {
    if n == 0 then [Request(ip, 0)] + Burst(ip, WINDOW, MAX_REQUESTS - 1)
    else Chain(ip, n - 1) + Burst(ip, n * (WINDOW + 1), MAX_REQUESTS)
  }

  lemma {:induction false} ChainForward(ip: Ip, n: nat)
    ensures ClockForward(Chain(ip, n))
    ensures forall r :: r in Chain(ip, n) ==> r.time <= if n == 0 then WINDOW else n * (WINDOW + 1)
  {
    if n > 0 {
      ChainForward(ip, n - 1);
      assert n * (WINDOW + 1) == (n - 1) * (WINDOW + 1) + (WINDOW + 1);
    }
  }

  lemma {:induction false} ChainCounts(ip: Ip, n: nat, hi: int)
    requires WINDOW <= hi && n * (WINDOW + 1) <= hi
    ensures ip in TableAfter(Chain(ip, n))
    ensures TableAfter(Chain(ip, n))[ip] == Entry(n * (WINDOW + 1), MAX_REQUESTS)
    ensures AcceptedWithin(Chain(ip, n), ip, WINDOW, hi) == (n + 1) * MAX_REQUESTS - 1
  {
    hide AfterRequest;
    if n == 0 {
      ChainStarts(ip, hi);
    } else {
      assert n * (WINDOW + 1) == (n - 1) * (WINDOW + 1) + (WINDOW + 1);
      ChainCounts(ip, n - 1, hi);
      assert Current(TableAfter(Chain(ip, n - 1)), ip, n * (WINDOW + 1)) == Entry(n * (WINDOW + 1), 0);
      BurstFits(Chain(ip, n - 1), ip, n * (WINDOW + 1), MAX_REQUESTS, WINDOW, hi);
    }
  }

  lemma ChainStarts(ip: Ip, hi: int)
    requires WINDOW <= hi
    ensures ip in TableAfter(Chain(ip, 0)) && TableAfter(Chain(ip, 0))[ip] == Entry(0, MAX_REQUESTS)
    ensures AcceptedWithin(Chain(ip, 0), ip, WINDOW, hi) == MAX_REQUESTS - 1
  {
    var first := [Request(ip, 0)];
    assert first[..0] == [];
    assert TableAfter(first) == map[ip := Entry(0, 1)];
    assert AcceptedWithin(first, ip, WINDOW, hi) == 0;
    BurstFits(first, ip, WINDOW, MAX_REQUESTS - 1, WINDOW, hi);
  }

  /** The bound is reached in every span of 1 to WINDOW window lengths. */
  lemma BoundReached(ip: Ip, n: nat)
    requires 1 <= n <= WINDOW
    ensures ClockForward(Chain(ip, n))
    ensures AcceptedWithin(Chain(ip, n), ip, WINDOW, WINDOW + n * WINDOW) == (n + 1) * MAX_REQUESTS - 1
  {
    ChainForward(ip, n);
    assert n * (WINDOW + 1) == n * WINDOW + n;
    ChainCounts(ip, n, WINDOW + n * WINDOW);
  }
}
