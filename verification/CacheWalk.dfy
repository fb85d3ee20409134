// The two record walkers of the cache: one finds the smallest TTL of a raw
// message, the other ages every TTL in place.
module CacheWalk {
  import opened Wire
  import opened Names
  import opened Messages
  import opened Frames
  import opened Buffers

  const NO_TTL: u32 := 0xFFFF_FFFF

  /** The source adds the three counts in 16 bits. */
  function RecordTotal(d: bytes): u16
    requires HEADER_SIZE <= |d|
  {
    (Get16(d, 6) + Get16(d, 8) + Get16(d, 10)) % 0x1_0000
  }

  /** The offset past `n` questions, 0 standing for failure. */
  function PastQuestions(d: bytes, o: nat, n: nat): nat
    decreases n
  {
    if n == 0 then o
    else
      var s := Skip(d, o);
      if s == 0 || s + 4 > |d| then 0 else PastQuestions(d, s + 4, n - 1)
  }

  /** The TTL offsets of the non-OPT records that a walk of `n` records from `o` visits. */
  function SlotsFrom(d: bytes, o: nat, n: nat): (r: seq<nat>)
    ensures forall k :: 0 <= k < |r| ==> o + 4 < r[k] && r[k] + 6 <= |d|
    decreases n
  {
    if n == 0 then []
    else
      var s := Skip(d, o);
      if s == 0 || s + 10 > |d| then []
      else
        var here := if Get16(d, s) == TYPE_OPT then [] else [s + 4];
        var next := s + 10 + Get16(d, s + 8);
        if next > |d| then here else here + SlotsFrom(d, next, n - 1)
  }

  /** The walk reaches the end of all its records. */
  predicate Complete(d: bytes, o: nat, n: nat)
    decreases n
  {
    n > 0 ==>
      var s := Skip(d, o);
      && s != 0 && s + 10 <= |d| && s + 10 + Get16(d, s + 8) <= |d|
      && Complete(d, s + 10 + Get16(d, s + 8), n - 1)
  }

  /** Every TTL offset that either walker visits in `d`. */
  function Slots(d: bytes): (r: seq<nat>)
    ensures forall k :: 0 <= k < |r| ==> HEADER_SIZE + 4 < r[k] && r[k] + 6 <= |d|
  {
    if |d| < HEADER_SIZE || RecordTotal(d) == 0 then []
    else
      var o := PastQuestions(d, HEADER_SIZE, Get16(d, 4));
      if o == 0 then [] else PastQuestionsGrows(d, HEADER_SIZE, Get16(d, 4)); SlotsFrom(d, o, RecordTotal(d))
  }

  lemma {:induction false} PastQuestionsGrows(d: bytes, o: nat, n: nat)
    ensures PastQuestions(d, o, n) == 0 || o <= PastQuestions(d, o, n)
    ensures n > 0 ==> PastQuestions(d, o, n) <= |d|
    decreases n
  {
    if n > 0 {
      var s := Skip(d, o);
      if s != 0 && s + 4 <= |d| {
        PastQuestionsGrows(d, s + 4, n - 1);
      }
    }
  }

  // ---------------------------------------------------------------------
  // Truncated messages.

  /** The slots whose records have all their fixed fields within the first `size` bytes. */
  function Within(slots: seq<nat>, size: nat): seq<nat> {
    if slots == [] || slots[0] + 6 > size then [] else [slots[0]] + Within(slots[1..], size)
  }

  lemma {:induction false} SkipTruncated(d: bytes, size: nat, o: nat)
    requires size <= |d|
    ensures var s, t := Skip(d, o), Skip(d[..size], o);
            (t != 0 && t + 10 <= size <==> s != 0 && s + 10 <= size) && (t != 0 && t + 10 <= size ==> t == s)
    decreases |d| - o
  {
    if o < size && d[o] != 0 && !IsPointer(d[o]) {
      SkipTruncated(d, size, LabelEnd(d, o));
    }
  }

  lemma WithinNothing(slots: seq<nat>, size: nat)
    requires forall k :: 0 <= k < |slots| ==> slots[k] + 6 > size
    ensures Within(slots, size) == []
  {
  }

  lemma WithinCons(slot: nat, rest: seq<nat>, size: nat)
    requires slot + 6 <= size
    ensures Within([slot] + rest, size) == [slot] + Within(rest, size)
  {
    assert ([slot] + rest)[1..] == rest;
  }

  /** Cutting a message short keeps exactly the slots of the records whose fixed fields are still there. */
  lemma {:induction false} SlotsTruncated(d: bytes, size: nat, o: nat, n: nat)
    requires size <= |d|
    ensures SlotsFrom(d[..size], o, n) == Within(SlotsFrom(d, o, n), size)
    decreases n, 1
  {
    hide Skip, Within, Get16, SlotsFrom, LaterSlots;
    var e := d[..size];
    var s := Skip(d, o);
    SkipTruncated(d, size, o);
    if n == 0 || s == 0 || s + 10 > |d| {
      SlotsStop(d, o, n);
      SlotsStop(e, o, n);
      WithinNothing([], size);
    } else if s + 10 > size {
      SlotsStop(e, o, n);
      SlotsUnfold(d, o, n);
      WithinNothing(SlotsFrom(d, o, n), size);
    } else {
      SameWords(d, size, s);
      SlotsUnfold(d, o, n);
      SlotsUnfold(e, o, n);
      LaterTruncated(d, size, s, n);
      WithinCons(s + 4, LaterSlots(d, s, n), size);
    }
  }

  lemma {:induction false} LaterTruncated(d: bytes, size: nat, s: nat, n: nat)
    requires n > 0 && s + 10 <= size <= |d|
    ensures LaterSlots(d[..size], s, n) == Within(LaterSlots(d, s, n), size)
    decreases n, 0
  {
    hide Skip, Within, Get16, SlotsFrom;
    SameWords(d, size, s);
    var next := s + 10 + Get16(d, s + 8);
    if next > size {
      WithinNothing(LaterSlots(d, s, n), size);
    } else {
      SlotsTruncated(d, size, next, n - 1);
    }
  }

  /** The slots behind the record whose fields start at `s`. */
  function LaterSlots(d: bytes, s: nat, n: nat): (r: seq<nat>)
    requires n > 0 && s + 10 <= |d|
    ensures forall k :: 0 <= k < |r| ==> s + 4 < r[k]
  {
    var next := s + 10 + Get16(d, s + 8);
    if next > |d| then [] else SlotsFrom(d, next, n - 1)
  }

  lemma SlotsUnfold(d: bytes, o: nat, n: nat)
    requires n > 0 && Skip(d, o) != 0 && Skip(d, o) + 10 <= |d|
    ensures var s := Skip(d, o);
            SlotsFrom(d, o, n) == if Get16(d, s) == TYPE_OPT then LaterSlots(d, s, n) else [s + 4] + LaterSlots(d, s, n)
  {
    hide Skip, Get16;
    var s := Skip(d, o);
    assert [s + 4] + [] == [s + 4];
    assert [] + LaterSlots(d, s, n) == LaterSlots(d, s, n);
  }

  lemma SameWords(d: bytes, size: nat, o: nat)
    requires o + 10 <= size <= |d|
    ensures Get16(d[..size], o) == Get16(d, o) && Get16(d[..size], o + 8) == Get16(d, o + 8)
  {
  }

  // ---------------------------------------------------------------------
  // The smallest TTL.

  function Min(a: u32, b: u32): u32 {
    if b < a then b else a
  }

  /** The fold of std::min over the TTLs at `slots`, from `least`. */
  function LeastTtl(d: bytes, slots: seq<nat>, least: u32): u32
    requires forall k :: 0 <= k < |slots| ==> slots[k] + 4 <= |d|
  {
    if slots == [] then least else LeastTtl(d, slots[1..], Min(least, Get32(d, slots[0])))
  }

  function MinTtl(d: bytes): u32 {
    var least := LeastTtl(d, Slots(d), NO_TTL);
    if least == NO_TTL then 0 else least
  }

  lemma {:induction false} LeastTtlIsLeast(d: bytes, slots: seq<nat>, least: u32)
    requires forall k :: 0 <= k < |slots| ==> slots[k] + 4 <= |d|
    ensures LeastTtl(d, slots, least) <= least
    ensures forall k :: 0 <= k < |slots| ==> LeastTtl(d, slots, least) <= Get32(d, slots[k])
    ensures LeastTtl(d, slots, least) == least ||
            exists k :: 0 <= k < |slots| && LeastTtl(d, slots, least) == Get32(d, slots[k])
  {
    hide Get32;
    if slots != [] {
      LeastTtlIsLeast(d, slots[1..], Min(least, Get32(d, slots[0])));
      forall k | 1 <= k < |slots| ensures LeastTtl(d, slots, least) <= Get32(d, slots[k]) {
        assert slots[k] == slots[1..][k - 1];
      }
    }
  }

  /**
   * What ExtractMinTtl returns: 0 when nothing is cacheable, which is when some visited
   * TTL is 0 or none is below 2^32 - 1; otherwise the least visited TTL.
   */
  lemma MinTtlMeaning(d: bytes)
    ensures MinTtl(d) == 0 <==>
              || (exists k :: 0 <= k < |Slots(d)| && Get32(d, Slots(d)[k]) == 0)
              || (forall k :: 0 <= k < |Slots(d)| ==> Get32(d, Slots(d)[k]) == NO_TTL)
    ensures MinTtl(d) > 0 ==>
              && (exists k :: 0 <= k < |Slots(d)| && Get32(d, Slots(d)[k]) == MinTtl(d))
              && (forall k :: 0 <= k < |Slots(d)| ==> MinTtl(d) <= Get32(d, Slots(d)[k]))
  {
    hide Slots, Get32;
    LeastTtlIsLeast(d, Slots(d), NO_TTL);
  }

  /** A walk that cannot go on adds nothing. */
  lemma SlotsStop(d: bytes, o: nat, n: nat)
    requires n == 0 || Skip(d, o) == 0 || Skip(d, o) + 10 > |d|
    ensures SlotsFrom(d, o, n) == []
  {
  }

  /** One step of the walk, seen from the fold. */
  lemma LeastTtlStep(d: bytes, o: nat, n: nat, least: u32)
    requires n > 0 && Skip(d, o) != 0 && Skip(d, o) + 10 <= |d|
    ensures var s := Skip(d, o);
            var next := s + 10 + Get16(d, s + 8);
            var seen := if Get16(d, s) == TYPE_OPT then least else Min(least, Get32(d, s + 4));
            LeastTtl(d, SlotsFrom(d, o, n), least) ==
              if next > |d| then seen else LeastTtl(d, SlotsFrom(d, next, n - 1), seen)
  {
    hide Get16, Get32, Skip, LeastTtl, Min;
    var s := Skip(d, o);
    var next := s + 10 + Get16(d, s + 8);
    var rest := if next > |d| then [] else SlotsFrom(d, next, n - 1);
    assert SlotsFrom(d, o, n) == (if Get16(d, s) == TYPE_OPT then [] else [s + 4]) + rest;
    if Get16(d, s) == TYPE_OPT {
      assert [] + rest == rest;
    } else {
      LeastTtlCons(d, s + 4, rest, least);
    }
    LeastTtlNil(d, least);
    LeastTtlNil(d, Min(least, Get32(d, s + 4)));
  }

  lemma LeastTtlCons(d: bytes, p: nat, rest: seq<nat>, least: u32)
    requires forall k :: 0 <= k < |rest| ==> rest[k] + 4 <= |d|
    requires p + 4 <= |d|
    ensures forall k :: 0 <= k < |[p] + rest| ==> ([p] + rest)[k] + 4 <= |d|
    ensures LeastTtl(d, [p] + rest, least) == LeastTtl(d, rest, Min(least, Get32(d, p)))
  {
    assert ([p] + rest)[1..] == rest;
  }

  lemma LeastTtlNil(d: bytes, least: u32)
    ensures LeastTtl(d, [], least) == least
  {
  }

  /** The question loop that both walkers start with. */
  method SkipQuestions(d: bytes, qdcount: nat) returns (offset: nat)
    ensures offset == PastQuestions(d, HEADER_SIZE, qdcount)
  {
    offset := HEADER_SIZE;
    for i := 0 to qdcount
      invariant PastQuestions(d, HEADER_SIZE, qdcount) == PastQuestions(d, offset, qdcount - i)
    {
      offset := SkipDnsName(d, offset);
      if offset == 0 {
        return;
      }
      offset := offset + 4;
      if offset > |d| {
        return 0;
      }
    }
  }

  /** The record loop of ExtractMinTtl. */
  method LeastRecordTtl(d: bytes, start: nat, total: nat) returns (least: u32)
    ensures least == LeastTtl(d, SlotsFrom(d, start, total), NO_TTL)
  {
    hide SlotsFrom, Get16, Get32, Skip, Min;
    var offset: nat := start;
    least := NO_TTL;
    for i := 0 to total
      invariant LeastTtl(d, SlotsFrom(d, start, total), NO_TTL) == LeastTtl(d, SlotsFrom(d, offset, total - i), least)
    {
      var s := SkipDnsName(d, offset);
      if s == 0 || s + 10 > |d| {
        SlotsStop(d, offset, total - i);
        return;
      }
      LeastTtlStep(d, offset, total - i, least);
      var rtype, ttl, rdlength := Get16(d, s), Get32(d, s + 4), Get16(d, s + 8);
      if rtype != TYPE_OPT {
        least := Min(least, ttl);
      }
      offset := s + 10 + rdlength;
      if offset > |d| {
        return;
      }
    }
    SlotsStop(d, offset, 0);
  }

  method ExtractMinTtl(d: bytes) returns (r: u32)
    ensures r == MinTtl(d)
  {
    if |d| < HEADER_SIZE {
      return 0;
    }
    var total := RecordTotal(d);
    if total == 0 {
      return 0;
    }
    var start := SkipQuestions(d, Get16(d, 4));
    if start == 0 {
      return 0;
    }
    var least := LeastRecordTtl(d, start, total);
    return if least == NO_TTL then 0 else least;
  }

  // ---------------------------------------------------------------------
  // Ageing the TTLs in place.

  predicate InSlots(slots: seq<nat>, i: int) {
    exists k :: 0 <= k < |slots| && slots[k] <= i < slots[k] + 4
  }

  function NewTtl(ttl: u32, elapsed: u32): u32 {
    if ttl > elapsed then ttl - elapsed else 1
  }

  /** `e` is `d` with exactly the TTLs at `slots` aged; this determines `e`. */
  ghost predicate Rewritten(d: bytes, e: bytes, slots: seq<nat>, elapsed: u32)
    requires forall k :: 0 <= k < |slots| ==> slots[k] + 4 <= |d|
  {
    && |e| == |d|
    && (forall i :: 0 <= i < |d| && !InSlots(slots, i) ==> e[i] == d[i])
    && (forall k :: 0 <= k < |slots| ==> Get32(e, slots[k]) == NewTtl(Get32(d, slots[k]), elapsed))
  }

  /** The slots that AdjustTtls rewrites; with nothing elapsed it does not walk at all. */
  function AdjustedSlots(d: bytes, elapsed: u32): (r: seq<nat>)
    ensures forall k :: 0 <= k < |r| ==> HEADER_SIZE + 4 < r[k] && r[k] + 6 <= |d|
  {
    if elapsed == 0 then [] else Slots(d)
  }

  lemma {:induction false} SkipFrame(d: bytes, e: bytes, o: nat)
    requires |d| == |e| && forall i :: o <= i < |d| ==> d[i] == e[i]
    ensures Skip(d, o) == Skip(e, o)
    decreases |d| - o
  {
    if o < |d| && !IsPointer(d[o]) && d[o] != 0 {
      SkipFrame(d, e, LabelEnd(d, o));
    }
  }

  lemma InBothSlots(x: seq<nat>, y: seq<nat>, i: int)
    ensures InSlots(x + y, i) <==> InSlots(x, i) || InSlots(y, i)
  {
    var xy := x + y;
    if InSlots(x, i) {
      var k :| 0 <= k < |x| && x[k] <= i < x[k] + 4;
      assert xy[k] == x[k];
    }
    if InSlots(y, i) {
      var k :| 0 <= k < |y| && y[k] <= i < y[k] + 4;
      assert xy[|x| + k] == y[k];
    }
  }

  /** Writing one more aged TTL, past those written so far. */
  lemma RewriteOne(d: bytes, e: bytes, slots: seq<nat>, p: nat, elapsed: u32)
    requires p + 4 <= |d| && forall k :: 0 <= k < |slots| ==> slots[k] + 4 <= p
    requires Rewritten(d, e, slots, elapsed)
    requires Get32(e, p) == Get32(d, p)
    ensures Rewritten(d, Overwrite(e, p, Put32(NewTtl(Get32(d, p), elapsed))), slots + [p], elapsed)
  {
    var x := Put32(NewTtl(Get32(d, p), elapsed));
    var e' := Overwrite(e, p, x);
    var slots' := slots + [p];
    forall i | 0 <= i < |d| && !InSlots(slots', i) ensures e'[i] == d[i] {
      InBothSlots(slots, [p], i);
      assert [p][0] == p;
    }
    forall k | 0 <= k < |slots'| ensures Get32(e', slots'[k]) == NewTtl(Get32(d, slots'[k]), elapsed) {
      if k < |slots| {
        assert slots'[k] == slots[k];
        SameInt(e, e', slots[k]);
      } else {
        assert e'[p] == x[0] && e'[p + 1] == x[1] && e'[p + 2] == x[2] && e'[p + 3] == x[3];
      }
    }
  }

  /** AdjustTtls reports success: it had nothing to walk, or walked to the end. */
  predicate Adjustable(d: bytes, elapsed: u32) {
    || |d| < HEADER_SIZE || elapsed == 0 || RecordTotal(d) == 0
    || (var o := PastQuestions(d, HEADER_SIZE, Get16(d, 4)); o != 0 && Complete(d, o, RecordTotal(d)))
  }

  lemma Regrouped(x: seq<nat>, y: seq<nat>, z: seq<nat>)
    ensures x + (y + z) == x + y + z && x + [] == x && y + [] == y
  {
  }

  lemma SlotsStep(d: bytes, done: seq<nat>, o: nat, n: nat)
    requires n > 0 && Skip(d, o) != 0 && Skip(d, o) + 10 <= |d|
    ensures var s := Skip(d, o);
            var next := s + 10 + Get16(d, s + 8);
            var seen := if Get16(d, s) == TYPE_OPT then done else done + [s + 4];
            done + SlotsFrom(d, o, n) == if next > |d| then seen else seen + SlotsFrom(d, next, n - 1)
  {
    hide Get16, Skip;
    var s := Skip(d, o);
    var next := s + 10 + Get16(d, s + 8);
    var here := if Get16(d, s) == TYPE_OPT then [] else [s + 4];
    if next > |d| {
      assert SlotsFrom(d, o, n) == here;
    } else {
      assert SlotsFrom(d, o, n) == here + SlotsFrom(d, next, n - 1);
    }
    Regrouped(done, here, if next > |d| then [] else SlotsFrom(d, next, n - 1));
  }

  /** The walk over a buffer whose bytes from `o` on are still those of `d`. */
  lemma SameRecord(d: bytes, e: bytes, o: nat)
    requires |d| == |e| && forall i :: o <= i < |d| ==> d[i] == e[i]
    ensures Skip(e, o) == Skip(d, o)
    ensures var s := Skip(d, o);
            s != 0 && s + 10 <= |d| ==>
              Get16(e, s) == Get16(d, s) && Get32(e, s + 4) == Get32(d, s + 4) && Get16(e, s + 8) == Get16(d, s + 8)
  {
    SkipFrame(d, e, o);
    var s := Skip(d, o);
    if s != 0 && s + 10 <= |d| {
      SameInt(d, e, s);
      SameInt(d, e, s + 4);
      SameInt(d, e, s + 6);
    }
  }

  /** The record loop of AdjustTtls. */
  method AgeRecords(buffer: Buffer, start: nat, total: nat, elapsed: u32) returns (ok: bool)
    modifies buffer
    ensures Rewritten(old(buffer.data), buffer.data, SlotsFrom(old(buffer.data), start, total), elapsed)
    ensures ok == Complete(old(buffer.data), start, total)
  {
    hide SlotsFrom, Get16, Get32, Skip, Rewritten, Overwrite;
    ghost var d := buffer.data;
    var length := |buffer.data|;
    ghost var done: seq<nat> := [];
    var offset: nat := start;
    assert [] + SlotsFrom(d, start, total) == SlotsFrom(d, start, total);
    NothingRewritten(d, elapsed);
    for i := 0 to total
      invariant |buffer.data| == length == |d|
      invariant forall k :: offset <= k < |d| ==> buffer.data[k] == d[k]
      invariant SlotsFrom(d, start, total) == done + SlotsFrom(d, offset, total - i)
      invariant Complete(d, start, total) == Complete(d, offset, total - i)
      invariant forall k :: 0 <= k < |done| ==> done[k] + 4 <= offset && done[k] + 6 <= |d|
      invariant Rewritten(d, buffer.data, done, elapsed)
    {
      SameRecord(d, buffer.data, offset);
      var s := SkipDnsName(buffer.data, offset);
      if s == 0 || s + 10 > length {
        SlotsStop(d, offset, total - i);
        assert done + [] == done;
        return false;
      }
      SlotsStep(d, done, offset, total - i);
      var rtype, rdlength := Get16(buffer.data, s), Get16(buffer.data, s + 8);
      if rtype != TYPE_OPT {
        RewriteOne(d, buffer.data, done, s + 4, elapsed);
        var ttl := Get32(buffer.data, s + 4);
        var newTtl := if ttl > elapsed then ttl - elapsed else 1;
        buffer.Write32(s + 4, newTtl);
        done := done + [s + 4];
      }
      offset := s + 10 + rdlength;
      if offset > length {
        return false;
      }
    }
    SlotsStop(d, offset, 0);
    assert done + [] == done;
    return true;
  }

  /**
   * The in-place walk. Although it reads what it rewrites, the result is `Rewritten` at
   * the slots of the message it was given; `ok` is false on a truncated message.
   */
  method AdjustTtls(buffer: Buffer, elapsed: u32) returns (ok: bool)
    modifies buffer
    ensures Rewritten(old(buffer.data), buffer.data, AdjustedSlots(old(buffer.data), elapsed), elapsed)
    ensures ok == Adjustable(old(buffer.data), elapsed)
  {
    NothingRewritten(buffer.data, elapsed);
    if |buffer.data| < HEADER_SIZE || elapsed == 0 {
      return true;
    }
    var total := RecordTotal(buffer.data);
    if total == 0 {
      return true;
    }
    var start := SkipQuestions(buffer.data, Get16(buffer.data, 4));
    if start == 0 {
      return false;
    }
    ok := AgeRecords(buffer, start, total, elapsed);
  }

  lemma NothingRewritten(d: bytes, elapsed: u32)
    ensures Rewritten(d, d, [], elapsed)
  {
  }
}
