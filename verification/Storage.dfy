/** Key-value storage with time to live, alone and mirrored into a shared map. */
module Storage {
  import opened Wrappers
  import opened NodeIds

  type Value = seq<bv8>

  /** One day, in the seconds used for storage times here. */
  const DEFAULT_TTL: nat := 86400

  datatype Entry = Entry(value: Value, timestamp: nat, ttl: nat)

  type Entries = map<NodeId, Entry>

  predicate Live(e: Entry, now: nat) {
    e.timestamp + e.ttl > now
  }

  function Fetch(m: Entries, key: NodeId, now: nat): Result<Value> {
    if key in m && Live(m[key], now) then Ok(m[key].value) else Err
  }

  function LiveOnly(m: Entries, now: nat): Entries {
    map key | key in m && Live(m[key], now) :: m[key]
  }

  class MemoryStorage {
    const defaultTtl: nat
    var storage: Entries

    constructor (ttl: nat)
      ensures storage == map[] && defaultTtl == ttl
    {
      storage, defaultTtl := map[], ttl;
    }

    method StoreWithTtl(key: NodeId, value: Value, ttl: nat, now: nat)
      modifies this
      ensures storage == old(storage)[key := Entry(value, now, ttl)]
    {
      storage := storage[key := Entry(value, now, ttl)];
    }

    method Store(key: NodeId, value: Value, now: nat)
      modifies this
      ensures storage == old(storage)[key := Entry(value, now, defaultTtl)]
    {
      StoreWithTtl(key, value, defaultTtl, now);
    }

    method Get(key: NodeId, now: nat) returns (r: Result<Value>)
      ensures r == Fetch(storage, key, now)
    {
      if key in storage {
        var entry := storage[key];
        if entry.timestamp + entry.ttl > now {
          return Ok(entry.value);
        }
      }
      return Err;
    }

    method Remove(key: NodeId) returns (r: Result<()>)
      modifies this
      ensures storage == old(storage) - {key}
      ensures r.Ok? <==> key in old(storage)
    {
      r := if key in storage then Ok(()) else Err;
      storage := storage - {key};
    }

    method Cleanup(now: nat)
      modifies this
      ensures storage == LiveOnly(old(storage), now)
    {
      storage := map key | key in storage && storage[key].timestamp + storage[key].ttl > now :: storage[key];
    }
  }

  // ----- runs of the memory storage -----

  datatype Action = Stored(key: NodeId, value: Value, ttl: nat) | Removed(key: NodeId) | CleanedUp

  datatype Event = Event(action: Action, time: nat)

  function AfterEvent(m: Entries, e: Event): Entries {
    match e.action
    case Stored(key, value, ttl) => m[key := Entry(value, e.time, ttl)]
    case Removed(key) => m - {key}
    case CleanedUp => LiveOnly(m, e.time)
  }

  function AfterEvents(events: seq<Event>): Entries {
    if events == [] then map[] else AfterEvent(AfterEvents(events[..|events| - 1]), events[|events| - 1])
  }

  ghost predicate ClockForward(events: seq<Event>) {
    forall i, j :: 0 <= i < j < |events| ==> events[i].time <= events[j].time
  }

  predicate About(e: Event, key: NodeId) {
    !e.action.CleanedUp? && e.action.key == key
  }

  /** Event `i` is the last one about the key. */
  ghost predicate LastAbout(events: seq<Event>, i: nat, key: NodeId) {
    i < |events| && About(events[i], key) && forall j :: i < j < |events| ==> !About(events[j], key)
  }

  /** Event `i`, the last about the key, stored `value` and has not expired at `now`. */
  ghost predicate Holding(events: seq<Event>, i: nat, key: NodeId, value: Value, now: nat) {
    LastAbout(events, i, key) && events[i].action.Stored? && events[i].action.value == value &&
    events[i].time + events[i].action.ttl > now
  }

  /** Event `i`, the last about the key, stored a value, and no clean-up since found
      its time to live run out. */
  ghost predicate Kept(events: seq<Event>, i: nat, key: NodeId) {
    && LastAbout(events, i, key) && events[i].action.Stored?
    && forall j :: i < j < |events| && events[j].action.CleanedUp? ==>
         events[j].time < events[i].time + events[i].action.ttl
  }

  /** Whatever the clock did, a key is held exactly when its last event stored it and
      every clean-up since came before its time to live ran out. */
  lemma {:induction false} HeldExactly(events: seq<Event>, key: NodeId)
    ensures key in AfterEvents(events) <==> exists i: nat :: Kept(events, i, key)
    ensures forall i: nat :: Kept(events, i, key) && key in AfterEvents(events) ==>
              AfterEvents(events)[key] == Entry(events[i].action.value, events[i].time, events[i].action.ttl)
  {
    if events != [] {
      var n := |events| - 1;
      var before, e := events[..n], events[n];
      HeldExactly(before, key);
      if About(e, key) {
        assert LastAbout(events, n, key);
        assert forall i: nat :: LastAbout(events, i, key) ==> i == n;
        assert e.action.Stored? ==> Kept(events, n, key);
      } else {
        forall i: nat
          ensures Kept(events, i, key) <==> Kept(before, i, key) && Outlives(before[i], e)
        {
          KeptOneLonger(events, i, key);
        }
      }
    }
  }

  /** What `e` stored survives a later event that is not about its key. */
  ghost predicate Outlives(e: Event, later: Event)
    requires e.action.Stored?
  {
    later.action.CleanedUp? ==> later.time < e.time + e.action.ttl
  }

  lemma KeptOneLonger(events: seq<Event>, i: nat, key: NodeId)
    requires events != [] && !About(events[|events| - 1], key)
    ensures var before, e := events[..|events| - 1], events[|events| - 1];
            Kept(events, i, key) <==> Kept(before, i, key) && Outlives(before[i], e)
  {
    var before := events[..|events| - 1];
    assert LastAbout(before, i, key) <==> LastAbout(events, i, key);
    assert forall j :: 0 <= j < |before| ==> before[j] == events[j];
  }

  /** Right after a clean-up, under a clock that does not run backwards, a key is held
      exactly when its last event stored it and its time to live has not run out. */
  lemma CleanupDropsExpired(events: seq<Event>, key: NodeId)
    requires ClockForward(events) && events != [] && events[|events| - 1].action.CleanedUp?
    ensures key in AfterEvents(events) <==>
            exists i: nat :: LastAbout(events, i, key) && events[i].action.Stored? &&
              events[i].time + events[i].action.ttl > events[|events| - 1].time
  {
    HeldExactly(events, key);
    forall i: nat | LastAbout(events, i, key) && events[i].action.Stored?
      ensures Kept(events, i, key) <==> events[i].time + events[i].action.ttl > events[|events| - 1].time
    {
    }
  }

  /** At any time not before the last event a lookup returns a value exactly when
      the last event about the key stored it and its time to live has not run out,
      however clean-ups were interleaved. */
  lemma FetchExactly(events: seq<Event>, key: NodeId, value: Value, now: nat)
    requires ClockForward(events)
    requires events != [] ==> events[|events| - 1].time <= now
    ensures Fetch(AfterEvents(events), key, now) == Ok(value) <==>
            exists i: nat :: Holding(events, i, key, value, now)
  {
    HeldExactly(events, key);
    if i: nat :| Holding(events, i, key, value, now) {
      assert Kept(events, i, key);
    }
    if i: nat :| Kept(events, i, key) && Fetch(AfterEvents(events), key, now) == Ok(value) {
      assert Holding(events, i, key, value, now);
    }
  }

  // ----- the mirrored storage -----

  datatype Dual = Dual(mem: Entries, shared: map<NodeId, Value>)

  /** Both maps hold the same keys with the same values. */
  ghost predicate Mirrored(d: Dual) {
    d.mem.Keys == d.shared.Keys && forall key :: key in d.mem ==> d.mem[key].value == d.shared[key]
  }

  function DualStore(d: Dual, key: NodeId, value: Value, now: nat): Dual {
    Dual(d.mem[key := Entry(value, now, DEFAULT_TTL)], d.shared[key := value])
  }

  function DualGet(d: Dual, key: NodeId, now: nat): (Dual, Result<Value>) {
    match Fetch(d.mem, key, now)
    case Ok(value) => (d, Ok(value))
    case Err =>
      if key in d.shared then
        (d.(mem := d.mem[key := Entry(d.shared[key], now, DEFAULT_TTL)]), Ok(d.shared[key]))
      else (d, Err)
  }

  function DualRemove(d: Dual, key: NodeId): Dual {
    Dual(d.mem - {key}, d.shared - {key})
  }

  function DualCleanup(d: Dual, now: nat): Dual {
    var live := LiveOnly(d.mem, now);
    Dual(live, map key | key in d.shared && key in live :: d.shared[key])
  }

  class DualStorage {
    const memory: MemoryStorage
    var shared: map<NodeId, Value>

    constructor ()
      ensures fresh(memory) && memory.defaultTtl == DEFAULT_TTL
      ensures State() == Dual(map[], map[])
    {
      memory := new MemoryStorage(DEFAULT_TTL);
      shared := map[];
    }

    function State(): Dual
      reads this, memory
    {
      Dual(memory.storage, shared)
    }

    method Store(key: NodeId, value: Value, now: nat)
      requires memory.defaultTtl == DEFAULT_TTL
      modifies this, memory
      ensures State() == DualStore(old(State()), key, value, now)
    {
      memory.Store(key, value, now);
      shared := shared[key := value];
    }

    method Get(key: NodeId, now: nat) returns (r: Result<Value>)
      requires memory.defaultTtl == DEFAULT_TTL
      modifies memory
      ensures (State(), r) == DualGet(old(State()), key, now)
    {
      r := memory.Get(key, now);
      if r.Err? && key in shared {
        var value := shared[key];
        memory.Store(key, value, now);
        r := Ok(value);
      }
    }

    method Remove(key: NodeId) returns (r: Result<()>)
      modifies this, memory
      ensures State() == DualRemove(old(State()), key)
      ensures r.Ok? <==> key in old(memory.storage)
    {
      r := memory.Remove(key);
      shared := shared - {key};
    }

    method Cleanup(now: nat)
      modifies this, memory
      ensures State() == DualCleanup(old(State()), now)
    {
      memory.Cleanup(now);
      var valid := memory.storage.Keys;
      shared := map key | key in shared && key in valid :: shared[key];
    }
  }

  // ----- runs of the mirrored storage -----

  datatype DualAction = Put(key: NodeId, value: Value) | Read(key: NodeId) | Drop(key: NodeId) | Purge

  datatype DualEvent = DualEvent(action: DualAction, time: nat)

  function DualAfter(d: Dual, e: DualEvent): Dual {
    match e.action
    case Put(key, value) => DualStore(d, key, value, e.time)
    case Read(key) => DualGet(d, key, e.time).0
    case Drop(key) => DualRemove(d, key)
    case Purge => DualCleanup(d, e.time)
  }

  function DualRun(events: seq<DualEvent>): Dual {
    if events == [] then Dual(map[], map[]) else DualAfter(DualRun(events[..|events| - 1]), events[|events| - 1])
  }

  /** The value of the last put of the key, if no drop came after it. */
  function Latest(events: seq<DualEvent>, key: NodeId): Option<Value> {
    if events == [] then None
    else
      var e := events[|events| - 1].action;
      if e.Put? && e.key == key then Some(e.value)
      else if e.Drop? && e.key == key then None
      else Latest(events[..|events| - 1], key)
  }

  /** Over every run the two maps stay equal in keys and values, and what they hold
      for a key is the value last put there; without purges they hold all of it. */
  lemma {:induction false} DualRunMirrored(events: seq<DualEvent>, key: NodeId)
    ensures Mirrored(DualRun(events))
    ensures key in DualRun(events).shared ==> Latest(events, key) == Some(DualRun(events).shared[key])
    ensures Latest(events, key).Some? && (forall e :: e in events ==> !e.action.Purge?) ==>
            key in DualRun(events).shared
  {
    if events != [] {
      var n := |events| - 1;
      DualRunMirrored(events[..n], key);
      assert forall e :: e in events[..n] ==> e in events;
      assert events[n] in events;
    }
  }

  /** When the time to live of what is held under a key began, told from the events
      alone: at its last put, or at a later read that found it expired.  Nothing is
      held after a drop, nor after a purge that found it expired. */
  ghost function Since(events: seq<DualEvent>, key: NodeId): Option<nat> {
    if events == [] then None
    else
      var before, e := Since(events[..|events| - 1], key), events[|events| - 1];
      var expired := before.Some? && before.value + 86400 <= e.time;
      match e.action
      case Put(k, value) => if k == key then Some(e.time) else before
      case Drop(k) => if k == key then None else before
      case Read(k) => if k == key && expired then Some(e.time) else before
      case Purge => if expired then None else before
  }

  /** Over every run, whatever the clock did: what the mirrored storage holds for a key
      is the value last put there, with its time to live begun when the events say. */
  lemma {:induction false} DualHeldExactly(events: seq<DualEvent>, key: NodeId)
    ensures var d, since := DualRun(events), Since(events, key);
            && (key in d.mem <==> since.Some?) && (key in d.shared <==> since.Some?)
            && (since.Some? ==> Latest(events, key).Some? && d.shared[key] == Latest(events, key).value &&
                                d.mem[key] == Entry(Latest(events, key).value, since.value, 86400))
  {
    if events != [] {
      DualHeldExactly(events[..|events| - 1], key);
    }
  }

  /** A lookup after a purge returns a value exactly when what was held had not expired
      at the purge. */
  lemma PurgeThenGet(events: seq<DualEvent>, purge: nat, key: NodeId, now: nat)
    ensures var d := DualRun(events + [DualEvent(Purge, purge)]);
            var since := Since(events, key);
            && (since.Some? ==> Latest(events, key).Some?)
            && DualGet(d, key, now).1 ==
            if since.Some? && since.value + 86400 > purge then Ok(Latest(events, key).value) else Err
  {
    var run := events + [DualEvent(Purge, purge)];
    assert run[..|run| - 1] == events;
    DualHeldExactly(events, key);
    DualHeldExactly(run, key);
  }

  /** Reading an expired entry gives it a new time to live: it survives a purge that
      would otherwise have dropped it. */
  lemma ReadingRevives(d: Dual, key: NodeId, now: nat, purge: nat)
    requires Mirrored(d) && key in d.mem && !Live(d.mem[key], now) && now <= purge < now + DEFAULT_TTL
    ensures DualGet(DualCleanup(d, purge), key, purge).1 == Err
    ensures DualGet(DualCleanup(DualGet(d, key, now).0, purge), key, purge).1 == Ok(d.mem[key].value)
  {
    var read := DualGet(d, key, now).0;
    assert read.mem[key] == Entry(d.mem[key].value, now, DEFAULT_TTL);
    assert key in LiveOnly(read.mem, purge);
  }

  /** A mirrored lookup returns whatever value is held, expired or not. */
  lemma DualGetIgnoresTtl(d: Dual, key: NodeId, now: nat)
    requires Mirrored(d)
    ensures DualGet(d, key, now).1 == if key in d.mem then Ok(d.mem[key].value) else Err
    ensures DualGet(d, key, now).1 == Fetch(d.mem, key, now) <==> (key in d.mem ==> Live(d.mem[key], now))
  {
  }

  /** An expired entry comes back to life: stored at 0, read long after. */
  lemma DualRevivesExpired(key: NodeId, value: Value)
    ensures var d := DualStore(Dual(map[], map[]), key, value, 0);
            Fetch(d.mem, key, DEFAULT_TTL) == Err && DualGet(d, key, DEFAULT_TTL).1 == Ok(value)
  {
  }
}
