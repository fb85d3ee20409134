// The response cache: one step at a time, over whole runs, and as the class
// whose map the steps change in place.
module Cache {
  import opened Wire
  import opened Names
  import opened Messages
  import opened Buffers
  import opened CacheWalk

  const TICKS_PER_SECOND := 1_000_000_000

  datatype Key = Key(domain: bytes, qtype: u16)

  /** `insertTime` is a reading of the steady clock, in ticks. */
  datatype Entry = Entry(response: bytes, insertTime: nat, minTtl: u32)

  type Store = map<Key, Entry>

  function KeyOf(domain: bytes, qtype: u16): Key {
    Key(Lower(domain), qtype)
  }

  /** duration_cast to seconds, which truncates toward zero. */
  function Elapsed(now: nat, since: nat): int {
    if now >= since then (now - since) / TICKS_PER_SECOND else -((since - now) / TICKS_PER_SECOND)
  }

  predicate Live(e: Entry, now: nat) {
    Elapsed(now, e.insertTime) < e.minTtl
  }

  predicate Cacheable(response: bytes) {
    |response| >= HEADER_SIZE && MinTtl(response) > 0
  }

  /** What Insert stores is a cacheable message with its own least TTL. */
  predicate Sound(e: Entry) {
    Cacheable(e.response) && e.minTtl == MinTtl(e.response)
  }

  // ---------------------------------------------------------------------
  // What a hit returns.

  /**
   * `out` is `response` under transaction ID `id`, with every non-OPT TTL that the cache
   * walks lowered by exactly `elapsed` and still positive, and not one other byte changed.
   */
  ghost predicate Served(response: bytes, id: u16, elapsed: int, out: bytes) {
    && |out| == |response| >= HEADER_SIZE
    && Get16(out, 0) == id
    && (forall i :: 2 <= i < |out| && !InSlots(Slots(response), i) ==> out[i] == response[i])
    && (forall k :: 0 <= k < |Slots(response)| ==>
          Get32(out, Slots(response)[k]) == Get32(response, Slots(response)[k]) - elapsed > 0)
  }

  lemma {:induction false} PastQuestionsFrame(d: bytes, e: bytes, o: nat, n: nat)
    requires |d| == |e| && forall i :: o <= i < |d| ==> d[i] == e[i]
    ensures PastQuestions(d, o, n) == PastQuestions(e, o, n)
    decreases n
  {
    if n > 0 {
      SkipFrame(d, e, o);
      var s := Skip(d, o);
      if s != 0 && s + 4 <= |d| {
        PastQuestionsFrame(d, e, s + 4, n - 1);
      }
    }
  }

  lemma {:induction false} SlotsFromFrame(d: bytes, e: bytes, o: nat, n: nat)
    requires |d| == |e| && forall i :: o <= i < |d| ==> d[i] == e[i]
    ensures SlotsFrom(d, o, n) == SlotsFrom(e, o, n)
    decreases n
  {
    hide Get16, Get32, Skip;
    if n > 0 {
      SameRecord(d, e, o);
      var s := Skip(d, o);
      if s != 0 && s + 10 <= |d| && s + 10 + Get16(d, s + 8) <= |d| {
        SlotsFromFrame(d, e, s + 10 + Get16(d, s + 8), n - 1);
      }
    }
  }

  /** Rewriting the ID does not move the walk. */
  lemma SlotsIgnoreId(d: bytes, id: u16)
    requires |d| >= HEADER_SIZE
    ensures Slots(Overwrite(d, 0, Put16(id))) == Slots(d)
  {
    hide SlotsFrom, PastQuestions, Put16;
    var e := Overwrite(d, 0, Put16(id));
    assert RecordTotal(e) == RecordTotal(d) && Get16(e, 4) == Get16(d, 4);
    PastQuestionsFrame(d, e, HEADER_SIZE, Get16(d, 4));
    PastQuestionsGrows(d, HEADER_SIZE, Get16(d, 4));
    if PastQuestions(d, HEADER_SIZE, Get16(d, 4)) != 0 {
      SlotsFromFrame(d, e, PastQuestions(d, HEADER_SIZE, Get16(d, 4)), RecordTotal(d));
    }
  }

  /** Before the entry expires the walk never has to clamp. */
  lemma RewrittenIsServed(response: bytes, id: u16, elapsed: u32, out: bytes)
    requires Cacheable(response) && elapsed < MinTtl(response)
    requires var e := Overwrite(response, 0, Put16(id));
             Rewritten(e, out, AdjustedSlots(e, elapsed), elapsed)
    ensures Served(response, id, elapsed, out)
  {
    hide Slots, MinTtl, Get32, Overwrite;
    var e := Overwrite(response, 0, Put16(id));
    var slots := Slots(response);
    SlotsIgnoreId(response, id);
    MinTtlMeaning(response);
    forall k | 0 <= k < |slots|
      ensures Get32(out, slots[k]) == Get32(response, slots[k]) - elapsed > 0
    {
      SameInt(response, e, slots[k]);
      if elapsed == 0 {
        SameInt(e, out, slots[k]);
      }
    }
    assert !InSlots(slots, 0) && !InSlots(slots, 1);
    assert out[0] == e[0] == Put16(id)[0] && out[1] == e[1] == Put16(id)[1];
  }

  // ---------------------------------------------------------------------
  // One step.

  /** What is left once EvictExpired, and then the oldest entry if need be, made room. */
  ghost predicate MadeRoom(m: Store, capacity: nat, k: Key, now: nat, room: Store) {
    if |m| < capacity || k in m then room == m
    else
      var live := map x | x in m && Live(m[x], now) :: m[x];
      if |live| < capacity then room == live
      else exists oldest :: Oldest(live, oldest) && room == live - {oldest}
  }

  predicate Oldest(m: Store, k: Key) {
    k in m && forall x :: x in m ==> m[k].insertTime <= m[x].insertTime
  }

  datatype Event =
    | Insert(domain: bytes, qtype: u16, response: bytes, evictAt: nat, storeAt: nat)
    | Lookup(domain: bytes, qtype: u16, id: u16, now: nat, result: Option<bytes>)
    | Clear
  {
    function Key(): Key
      requires !Clear?
    {
      KeyOf(domain, qtype)
    }
  }

  ghost predicate Step(m: Store, capacity: nat, ev: Event, m': Store) {
    match ev
    case Insert(domain, qtype, response, evictAt, storeAt) =>
      if !Cacheable(response) then m' == m
      else exists room ::
        MadeRoom(m, capacity, ev.Key(), evictAt, room) &&
        m' == room[ev.Key() := Entry(response, storeAt, MinTtl(response))]
    case Lookup(domain, qtype, id, now, result) =>
      var k := ev.Key();
      if k !in m then result == None && m' == m
      else if !Live(m[k], now) then result == None && m' == m - {k}
      else result.Some? && Served(m[k].response, id, Elapsed(now, m[k].insertTime), result.value) && m' == m
    case Clear => m' == map[]
  }

  /**
   * Eviction discipline. An insertion that finds the cache full and brings a new key drops
   * nothing but expired entries if there are any; otherwise it drops exactly one entry,
   * with the smallest insertion time. Any other insertion drops nothing.
   */
  lemma EvictionDiscipline(m: Store, capacity: nat, k: Key, now: nat, room: Store)
    requires capacity >= 1 && |m| <= capacity && MadeRoom(m, capacity, k, now, room)
    ensures forall x :: x in room ==> x in m && room[x] == m[x]
    ensures k in m || |m| < capacity ==> room == m
    ensures k !in m && |m| == capacity && (exists x :: x in m && !Live(m[x], now)) ==>
              forall x :: x in m ==> (x in room <==> Live(m[x], now))
    ensures k !in m && |m| == capacity && (forall x :: x in m ==> Live(m[x], now)) ==>
              exists x :: x in m && room == m - {x} && forall y :: y in m ==> m[x].insertTime <= m[y].insertTime
    ensures k in room || |room| < capacity
  {
    var live := map x | x in m && Live(m[x], now) :: m[x];
    if k !in m && |m| == capacity {
      assert live.Keys <= m.Keys;
      if x :| x in m && !Live(m[x], now) {
        SmallerMap(live, m, x);
      } else {
        assert live == m;
      }
      if |live| >= capacity {
        var oldest :| Oldest(live, oldest) && room == live - {oldest};
        assert room.Keys == live.Keys - {oldest};
      }
    }
  }

  lemma SmallerMap(a: Store, b: Store, x: Key)
    requires a.Keys <= b.Keys && x in b && x !in a
    ensures |a| < |b|
  {
    assert a.Keys <= b.Keys - {x};
    SubsetCardinality(a.Keys, b.Keys - {x});
    assert |a| == |a.Keys| && |b| == |b.Keys|;
  }

  lemma SubsetCardinality<T>(a: set<T>, b: set<T>)
    requires a <= b
    ensures |a| <= |b|
  {
    if a != {} {
      var x :| x in a;
      SubsetCardinality(a - {x}, b - {x});
    }
  }

  ghost predicate Good(m: Store, capacity: nat) {
    |m| <= capacity && forall k :: k in m ==> Sound(m[k])
  }

  /** Adding an entry to a store that has room for it. */
  lemma StoreKeepsGood(m: Store, capacity: nat, k: Key, e: Entry, room: Store)
    requires Good(m, capacity) && Sound(e)
    requires forall x :: x in room ==> x in m && room[x] == m[x]
    requires k in room || |room| < capacity
    ensures Good(room[k := e], capacity)
  {
    hide Sound;
    var m' := room[k := e];
    assert m'.Keys == room.Keys + {k};
    assert |m'| == |m'.Keys| && |room| == |room.Keys| && |m| == |m.Keys|;
    if k in room {
      assert m'.Keys == room.Keys;
      assert room.Keys <= m.Keys;
      SubsetCardinality(room.Keys, m.Keys);
    }
  }

  /** Every step keeps the entry count within capacity and the entries sound. */
  lemma StepKeepsGood(m: Store, capacity: nat, ev: Event, m': Store)
    requires capacity >= 1 && Good(m, capacity) && Step(m, capacity, ev, m')
    ensures Good(m', capacity)
  {
    hide MinTtl, Served, MadeRoom, Live;
    match ev
    case Clear =>
    case Lookup(_, _, _, now, _) =>
      var k := ev.Key();
      if m' != m {
        assert m'.Keys == m.Keys - {k};
      }
    case Insert(_, _, response, evictAt, storeAt) =>
      if Cacheable(response) {
        var k, e := ev.Key(), Entry(response, storeAt, MinTtl(response));
        var room :| MadeRoom(m, capacity, k, evictAt, room) && m' == room[k := e];
        EvictionDiscipline(m, capacity, k, evictAt, room);
        StoreKeepsGood(m, capacity, k, e, room);
      }
  }

  // ---------------------------------------------------------------------
  // Whole runs.

  /** `states[i]` is the cache before `events[i]`; it starts empty. */
  ghost predicate IsRun(states: seq<Store>, capacity: nat, events: seq<Event>) {
    && |states| == |events| + 1 && states[0] == map[]
    && forall i :: 0 <= i < |events| ==> Step(states[i], capacity, events[i], states[i + 1])
  }

  /** The entry made by the last cacheable insertion for `k` among the first `n` events, unless cleared since. */
  function Latest(events: seq<Event>, n: nat, k: Key): Option<Entry>
    requires n <= |events|
    decreases n
  {
    if n == 0 then None
    else
      match events[n - 1]
      case Clear => None
      case Insert(domain, qtype, response, _, storeAt) =>
        if KeyOf(domain, qtype) == k && Cacheable(response) then Some(Entry(response, storeAt, MinTtl(response)))
        else Latest(events, n - 1, k)
      case Lookup(_, _, _, _, _) => Latest(events, n - 1, k)
  }

  /** The cache only ever holds latest insertions, and never too many. */
  lemma {:induction false} RunHoldsLatest(states: seq<Store>, capacity: nat, events: seq<Event>, n: nat)
    requires capacity >= 1 && IsRun(states, capacity, events) && n <= |events|
    ensures Good(states[n], capacity)
    ensures forall k :: k in states[n] ==> Latest(events, n, k) == Some(states[n][k])
    decreases n
  {
    hide MinTtl, Served, MadeRoom, Live, Cacheable, KeyOf, Good;
    if n == 0 {
      EmptyIsGood(capacity);
    } else {
      RunHoldsLatest(states, capacity, events, n - 1);
      var m, ev, m' := states[n - 1], events[n - 1], states[n];
      assert Step(m, capacity, ev, m');
      StepKeepsGood(m, capacity, ev, m');
      if ev.Insert? && Cacheable(ev.response) {
        var e := Entry(ev.response, ev.storeAt, MinTtl(ev.response));
        var room :| MadeRoom(m, capacity, ev.Key(), ev.evictAt, room) && m' == room[ev.Key() := e];
        StoreIsWithinCapacity(m, capacity);
        EvictionDiscipline(m, capacity, ev.Key(), ev.evictAt, room);
      }
    }
  }

  lemma EmptyIsGood(capacity: nat)
    ensures Good(map[], capacity)
  {
  }

  lemma StoreIsWithinCapacity(m: Store, capacity: nat)
    requires Good(m, capacity)
    ensures |m| <= capacity
  {
  }

  /**
   * Soundness of hits over all runs: a hit is served from the latest cacheable insertion
   * for the lower-cased name and type, made less than its least TTL ago.
   */
  lemma HitsServeLatest(states: seq<Store>, capacity: nat, events: seq<Event>, n: nat)
    requires capacity >= 1 && IsRun(states, capacity, events) && n < |events|
    requires events[n].Lookup? && events[n].result.Some?
    ensures |states[n]| <= capacity
    ensures var ev := events[n];
            var e := Latest(events, n, ev.Key());
            && e.Some? && Sound(e.value)
            && Elapsed(ev.now, e.value.insertTime) < MinTtl(e.value.response)
            && Served(e.value.response, ev.id, Elapsed(ev.now, e.value.insertTime), ev.result.value)
  {
    hide MinTtl, Served, MadeRoom, Cacheable, KeyOf;
    RunHoldsLatest(states, capacity, events, n);
    assert Step(states[n], capacity, events[n], states[n + 1]);
  }

  // ---------------------------------------------------------------------
  // The cache forgets a live entry only for want of room.

  /** The keys of the first `n` insertions. */
  function KeysInserted(events: seq<Event>, n: nat): set<Key>
    requires n <= |events|
    decreases n
  {
    if n == 0 then {}
    else KeysInserted(events, n - 1) + if events[n - 1].Insert? then {events[n - 1].Key()} else {}
  }

  /** Every clock reading up to event `n` is at most `now`. */
  predicate ClockWithin(events: seq<Event>, n: nat, now: nat)
    requires n <= |events|
  {
    forall i :: 0 <= i < n ==> ReadsClockBy(events[i], now)
  }

  lemma LiveEarlier(e: Entry, before: nat, now: nat)
    requires before <= now && Live(e, now)
    ensures Live(e, before)
  {
  }

  /** The key whose entry an event may set. */
  predicate Sets(ev: Event, k: Key) {
    ev.Insert? && ev.Key() == k && Cacheable(ev.response)
  }

  predicate ReadsClockBy(ev: Event, now: nat) {
    match ev
    case Insert(_, _, _, evictAt, storeAt) => evictAt <= now && storeAt <= now
    case Lookup(_, _, _, at, _) => at <= now
    case Clear => true
  }

  /** Making room for one of at most `capacity` keys never costs a live entry. */
  lemma RoomKeepsLive(m: Store, capacity: nat, k: Key, now: nat, room: Store, x: Key, keys: set<Key>)
    requires MadeRoom(m, capacity, k, now, room)
    requires m.Keys <= keys && k in keys && |keys| <= capacity
    requires x in m && Live(m[x], now)
    ensures x in room
  {
    if k !in m {
      SubsetCardinality(m.Keys, keys - {k});
      assert |m| == |m.Keys| < capacity;
    }
  }

  lemma StepUsesKey(m: Store, capacity: nat, ev: Event, m': Store)
    requires capacity >= 1 && |m| <= capacity && Step(m, capacity, ev, m')
    ensures m'.Keys <= m.Keys + if ev.Insert? then {ev.Key()} else {}
  {
    hide MinTtl, Served, MadeRoom, Live, KeyOf;
    if ev.Insert? && Cacheable(ev.response) {
      var e := Entry(ev.response, ev.storeAt, MinTtl(ev.response));
      var room :| MadeRoom(m, capacity, ev.Key(), ev.evictAt, room) && m' == room[ev.Key() := e];
      EvictionDiscipline(m, capacity, ev.Key(), ev.evictAt, room);
    }
  }

  lemma StepKeepsLive(m: Store, capacity: nat, ev: Event, m': Store, k: Key, now: nat, keys: set<Key>)
    requires Step(m, capacity, ev, m') && !ev.Clear? && !Sets(ev, k) && ReadsClockBy(ev, now)
    requires m.Keys <= keys && |keys| <= capacity && (ev.Insert? ==> ev.Key() in keys)
    requires k in m && Live(m[k], now)
    ensures k in m'
  {
    hide MinTtl, Served, MadeRoom, Live, KeyOf, Cacheable;
    match ev
    case Lookup(_, _, _, at, _) => LiveEarlier(m[k], at, now);
    case Insert(_, _, response, evictAt, storeAt) =>
      if Cacheable(response) {
        var e := Entry(response, storeAt, MinTtl(response));
        var room :| MadeRoom(m, capacity, ev.Key(), evictAt, room) && m' == room[ev.Key() := e];
        LiveEarlier(m[k], evictAt, now);
        RoomKeepsLive(m, capacity, ev.Key(), evictAt, room, k, keys);
      }
  }

  lemma StepSetsKey(m: Store, capacity: nat, ev: Event, m': Store, k: Key)
    requires Step(m, capacity, ev, m') && Sets(ev, k)
    ensures k in m'
  {
    hide MinTtl, Served, MadeRoom;
  }

  lemma {:induction false} RunUsesInsertedKeys(states: seq<Store>, capacity: nat, events: seq<Event>, n: nat)
    requires capacity >= 1 && IsRun(states, capacity, events) && n <= |events|
    ensures states[n].Keys <= KeysInserted(events, n)
    decreases n
  {
    hide Step, Good, Latest, Event.Key;
    if n > 0 {
      RunUsesInsertedKeys(states, capacity, events, n - 1);
      RunHoldsLatest(states, capacity, events, n - 1);
      StoreIsWithinCapacity(states[n - 1], capacity);
      StepUsesKey(states[n - 1], capacity, events[n - 1], states[n]);
    }
  }

  /** With at most `capacity` keys in use, every latest insertion that is still live is in the cache. */
  lemma {:induction false} RunKeepsLive(states: seq<Store>, capacity: nat, events: seq<Event>, n: nat, k: Key, now: nat)
    requires capacity >= 1 && IsRun(states, capacity, events) && n <= |events|
    requires |KeysInserted(events, n)| <= capacity && ClockWithin(events, n, now)
    requires Latest(events, n, k).Some? && Live(Latest(events, n, k).value, now)
    ensures k in states[n]
    decreases n
  {
    hide Step, Good, Cacheable, Live, KeyOf, MinTtl;
    var ev := events[n - 1];
    if Sets(ev, k) {
      StepSetsKey(states[n - 1], capacity, ev, states[n], k);
    } else {
      SubsetCardinality(KeysInserted(events, n - 1), KeysInserted(events, n));
      RunKeepsLive(states, capacity, events, n - 1, k, now);
      RunHoldsLatest(states, capacity, events, n - 1);
      RunUsesInsertedKeys(states, capacity, events, n - 1);
      StepKeepsLive(states[n - 1], capacity, ev, states[n], k, now, KeysInserted(events, n));
    }
  }

  /**
   * Completeness of hits: while no more than `capacity` keys have been inserted, a lookup
   * hits exactly when the latest cacheable insertion for its key is still live.
   */
  lemma HitsIffLive(states: seq<Store>, capacity: nat, events: seq<Event>, n: nat)
    requires capacity >= 1 && IsRun(states, capacity, events) && n < |events| && events[n].Lookup?
    requires |KeysInserted(events, n)| <= capacity && ClockWithin(events, n, events[n].now)
    ensures var ev := events[n];
            var e := Latest(events, n, ev.Key());
            ev.result.Some? <==> e.Some? && Live(e.value, ev.now)
  {
    hide MinTtl, Served, MadeRoom, Live, Cacheable, KeyOf;
    var ev := events[n];
    RunHoldsLatest(states, capacity, events, n);
    assert Step(states[n], capacity, ev, states[n + 1]);
    var e := Latest(events, n, ev.Key());
    if e.Some? && Live(e.value, ev.now) {
      RunKeepsLive(states, capacity, events, n, ev.Key(), ev.now);
    }
  }

  // ---------------------------------------------------------------------
  // The class.

  class DnsCache {
    var cache: Store
    const maxEntries: nat

    /** The latest reading of the steady clock. */
    ghost var clock: nat

    ghost predicate Valid()
      reads this
    {
      && maxEntries >= 1 && Good(cache, maxEntries)
      && forall k :: k in cache ==> cache[k].insertTime <= clock
    }

    /** The source does not check the capacity, but erases an end iterator when it is 0. */
    constructor (maxEntries: nat)
      requires maxEntries >= 1
      ensures Valid() && cache == map[] && this.maxEntries == maxEntries && clock == 0
    {
      this.cache, this.maxEntries, this.clock := map[], maxEntries, 0;
    }

    method Lookup(domain: bytes, qtype: u16, id: u16, now: nat, output: Buffer) returns (hit: bool)
      requires Valid() && clock <= now
      modifies this, output
      ensures Valid() && clock == now
      ensures Step(old(cache), maxEntries, Event.Lookup(domain, qtype, id, now, if hit then Some(output.data) else None), cache)
      ensures !hit ==> output.data == old(output.data)
    {
      hide Served, MinTtl, Good, KeyOf, Cacheable, Elapsed;
      clock := now;
      var k := KeyOf(domain, qtype);
      if k !in cache {
        return false;
      }
      var entry := cache[k];
      var elapsed := Elapsed(now, entry.insertTime);
      if elapsed >= entry.minTtl {
        StepKeepsGood(cache, maxEntries, Event.Lookup(domain, qtype, id, now, None), cache - {k});
        cache := cache - {k};
        return false;
      }
      GoodEntry(cache, maxEntries, k, now);
      Serve(output, entry.response, id, elapsed);
      return true;
    }

    /** Copies the message and adjusts its ID and TTLs in the copy. */
    method Serve(output: Buffer, response: bytes, id: u16, elapsed: u32)
      requires Cacheable(response) && elapsed < MinTtl(response)
      modifies output
      ensures Served(response, id, elapsed, output.data)
    {
      hide Served, MinTtl, Overwrite, AdjustedSlots, Rewritten, Put16;
      output.data := response;
      if |output.data| >= 2 {
        output.Write16(0, id);
      }
      var _ := AdjustTtls(output, elapsed);
      RewrittenIsServed(response, id, elapsed, output.data);
    }

    /**
     * The clock is read once for eviction and once for the entry. Which of several equally
     * old entries goes depends on the hash table, so the choice is left open.
     */
    method Insert(domain: bytes, qtype: u16, response: bytes, evictAt: nat, storeAt: nat)
      requires Valid() && clock <= evictAt <= storeAt
      modifies this
      ensures Valid() && clock == storeAt
      ensures Step(old(cache), maxEntries, Event.Insert(domain, qtype, response, evictAt, storeAt), cache)
    {
      hide Sound, Served, Elapsed, MadeRoom, Good, MinTtl;
      ghost var before := cache;
      clock := storeAt;
      if |response| < HEADER_SIZE {
        return;
      }
      var minTtl := ExtractMinTtl(response);
      if minTtl == 0 {
        return;
      }
      var k := KeyOf(domain, qtype);
      MakeRoom(k, evictAt);
      ghost var room, ev := cache, Event.Insert(domain, qtype, response, evictAt, storeAt);
      cache := cache[k := Entry(response, storeAt, minTtl)];
      assert cache == room[ev.Key() := Entry(response, storeAt, MinTtl(response))];
      StepKeepsGood(before, maxEntries, ev, cache);
    }

    /** The eviction part of Insert. */
    method MakeRoom(k: Key, now: nat)
      requires maxEntries >= 1
      modifies `cache
      ensures MadeRoom(old(cache), maxEntries, k, now, cache)
    {
      if |cache| >= maxEntries && k !in cache {
        EvictExpired(now);
        if |cache| >= maxEntries {
          assert cache != map[];
          OldestExists(cache);
          var oldest :| Oldest(cache, oldest);
          cache := cache - {oldest};
        }
      }
    }

    method EvictExpired(now: nat)
      modifies `cache
      ensures cache == map x | x in old(cache) && Live(old(cache)[x], now) :: old(cache)[x]
    {
      var pending := cache.Keys;
      while pending != {}
        invariant forall x :: x in cache <==> x in old(cache) && (x in pending || Live(old(cache)[x], now))
        invariant forall x :: x in cache ==> cache[x] == old(cache)[x]
        invariant pending <= cache.Keys
        decreases pending
      {
        var k :| k in pending;
        pending := pending - {k};
        if Elapsed(now, cache[k].insertTime) >= cache[k].minTtl {
          cache := cache - {k};
        }
      }
    }

    method Clear()
      requires Valid()
      modifies `cache
      ensures Valid() && cache == map[]
      ensures Step(old(cache), maxEntries, Event.Clear, cache)
    {
      cache := map[];
    }
  }

  lemma GoodEntry(m: Store, capacity: nat, k: Key, now: nat)
    requires Good(m, capacity) && k in m && m[k].insertTime <= now
    ensures Cacheable(m[k].response) && m[k].minTtl == MinTtl(m[k].response) && Elapsed(now, m[k].insertTime) >= 0
  {
    hide MinTtl;
  }

  lemma OldestExists(m: Store)
    requires m != map[]
    ensures exists k :: Oldest(m, k)
  {
    var k :| k in m;
    if x :| x in m && x != k {
      var rest := m - {k};
      assert x in rest;
      OldestExists(rest);
      var r :| Oldest(rest, r);
      var o := if m[k].insertTime < m[r].insertTime then k else r;
      forall y | y in m ensures m[o].insertTime <= m[y].insertTime {
        assert y == k || y in rest;
      }
      assert Oldest(m, o);
    } else {
      assert Oldest(m, k);
    }
  }
}
