// Runs of the cache in terms of the queries that were made: which insertion a hit goes
// back to, and how long ago it was.
module CacheRuns {
  import opened Wire
  import opened CacheWalk
  import opened Cache

  // ---------------------------------------------------------------------
  // Which queries share an entry.

  /** The same byte, or one an upper-case and the other the same lower-case letter. */
  predicate SameLetter(a: byte, b: byte) {
    || a == b
    || (0x41 <= a <= 0x5A && b == a + 0x20)
    || (0x41 <= b <= 0x5A && a == b + 0x20)
  }

  /** Equal types, and names that differ at most in the case of ASCII letters. */
  predicate SameQuery(a: bytes, q: u16, b: bytes, r: u16) {
    q == r && |a| == |b| && forall i :: 0 <= i < |a| ==> SameLetter(a[i], b[i])
  }

  lemma KeysAgreeExactly(a: bytes, q: u16, b: bytes, r: u16)
    ensures KeyOf(a, q) == KeyOf(b, r) <==> SameQuery(a, q, b, r)
    ensures KeyOf(a, q) == KeyOf(b, r) <==> Lower(a) == Lower(b) && q == r
  {
    var x, y := Lower(a), Lower(b);
    forall i | 0 <= i < |a| && i < |b| ensures x[i] == y[i] <==> SameLetter(a[i], b[i]) {
    }
    if SameQuery(a, q, b, r) {
      assert x == y;
    }
    if x == y {
      assert |a| == |b|;
      forall i | 0 <= i < |a| ensures SameLetter(a[i], b[i]) {
        assert x[i] == y[i];
      }
    }
  }

  // ---------------------------------------------------------------------
  // Age.

  /** An entry is live for exactly its least TTL, to the tick. */
  lemma LiveExactly(e: Entry, now: nat)
    requires e.insertTime <= now
    ensures Live(e, now) <==> now - e.insertTime < e.minTtl * 1_000_000_000
    ensures Elapsed(now, e.insertTime) == (now - e.insertTime) / 1_000_000_000
  {
    var age := now - e.insertTime;
    assert age == age / 1_000_000_000 * 1_000_000_000 + age % 1_000_000_000;
  }

  // ---------------------------------------------------------------------
  // Which insertion counts.

  predicate InsertsFor(ev: Event, domain: bytes, qtype: u16) {
    ev.Insert? && SameQuery(ev.domain, ev.qtype, domain, qtype) && Cacheable(ev.response)
  }

  /** Event `i` is the last cacheable insertion for the query before event `n`, and nothing was cleared since. */
  predicate IsLatest(events: seq<Event>, i: nat, n: nat, domain: bytes, qtype: u16) {
    && i < n <= |events| && InsertsFor(events[i], domain, qtype)
    && forall j :: i < j < n ==> !events[j].Clear? && !InsertsFor(events[j], domain, qtype)
  }

  lemma {:induction false} LatestIsInsertion(events: seq<Event>, n: nat, domain: bytes, qtype: u16)
    requires n <= |events|
    ensures var e := Latest(events, n, KeyOf(domain, qtype));
            if e.None? then forall i: nat :: !IsLatest(events, i, n, domain, qtype)
            else exists i: nat :: IsLatest(events, i, n, domain, qtype) &&
                   e.value == Entry(events[i].response, events[i].storeAt, MinTtl(events[i].response))
    decreases n
  {
    hide KeyOf, Cacheable, MinTtl, SameQuery;
    if n > 0 {
      var k, ev := KeyOf(domain, qtype), events[n - 1];
      if ev.Insert? {
        KeysAgreeExactly(ev.domain, ev.qtype, domain, qtype);
      }
      if InsertsFor(ev, domain, qtype) {
        assert IsLatest(events, n - 1, n, domain, qtype);
      } else if !ev.Clear? {
        LatestIsInsertion(events, n - 1, domain, qtype);
        if Latest(events, n, k).Some? {
          var i: nat :| IsLatest(events, i, n - 1, domain, qtype) &&
            Latest(events, n, k).value == Entry(events[i].response, events[i].storeAt, MinTtl(events[i].response));
          assert IsLatest(events, i, n, domain, qtype);
        } else {
          forall i: nat ensures !IsLatest(events, i, n, domain, qtype) {
            assert !IsLatest(events, i, n - 1, domain, qtype);
          }
        }
      }
    }
  }

  // ---------------------------------------------------------------------
  // Hits.

  /**
   * Every hit of every run serves the response of the last cacheable insertion for the same name,
   * letter case aside, and the same type, with the TTLs lowered by the whole seconds since then,
   * which are fewer than its least TTL; and there are never more entries than allowed.
   */
  lemma HitsAreLatest(states: seq<Store>, capacity: nat, events: seq<Event>, n: nat)
    requires capacity >= 1 && IsRun(states, capacity, events) && n < |events|
    requires events[n].Lookup? && events[n].result.Some?
    ensures |states[n]| <= capacity
    ensures var ev := events[n];
            exists i: nat :: IsLatest(events, i, n, ev.domain, ev.qtype) &&
              var elapsed := Elapsed(ev.now, events[i].storeAt);
              && (events[i].storeAt <= ev.now ==> elapsed == (ev.now - events[i].storeAt) / 1_000_000_000)
              && elapsed < MinTtl(events[i].response)
              && Served(events[i].response, ev.id, elapsed, ev.result.value)
  {
    hide IsRun, KeyOf, Cacheable, MinTtl, SameQuery, Served, Latest;
    var ev := events[n];
    HitsServeLatest(states, capacity, events, n);
    LatestIsInsertion(events, n, ev.domain, ev.qtype);
    var e := Latest(events, n, KeyOf(ev.domain, ev.qtype)).value;
    var i: nat :| IsLatest(events, i, n, ev.domain, ev.qtype) &&
      e == Entry(events[i].response, events[i].storeAt, MinTtl(events[i].response));
  }

  /**
   * As long as no more queries have been inserted for than there is room, a lookup hits exactly when
   * the last cacheable insertion for it is less than its least TTL old.
   */
  lemma HitsAreComplete(states: seq<Store>, capacity: nat, events: seq<Event>, n: nat)
    requires capacity >= 1 && IsRun(states, capacity, events) && n < |events| && events[n].Lookup?
    requires |KeysInserted(events, n)| <= capacity && ClockWithin(events, n, events[n].now)
    ensures var ev := events[n];
            ev.result.Some? <==>
              exists i: nat :: IsLatest(events, i, n, ev.domain, ev.qtype) &&
                ev.now - events[i].storeAt < MinTtl(events[i].response) * 1_000_000_000
  {
    hide IsRun, KeyOf, Cacheable, MinTtl, SameQuery, Served, Latest, Live;
    var ev := events[n];
    HitsIffLive(states, capacity, events, n);
    LatestIsInsertion(events, n, ev.domain, ev.qtype);
    forall i: nat, j: nat | IsLatest(events, i, n, ev.domain, ev.qtype) && IsLatest(events, j, n, ev.domain, ev.qtype)
      ensures i == j
    {
    }
    var e := Latest(events, n, KeyOf(ev.domain, ev.qtype));
    if e.Some? {
      var i: nat :| IsLatest(events, i, n, ev.domain, ev.qtype) &&
        e.value == Entry(events[i].response, events[i].storeAt, MinTtl(events[i].response));
      assert ReadsClockBy(events[i], ev.now);
      LiveExactly(e.value, ev.now);
    }
  }
}
