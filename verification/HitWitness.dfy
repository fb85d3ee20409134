// Why a cache hit may only be read as the stored message when no name resolution
// goes through the ID or a TTL: a stored message for which it is not.
module HitWitness {
  import opened Wire
  import opened Names
  import opened Messages
  import opened CacheWalk
  import opened Cache
  import opened HitExactly

  /** ID, flags and counts; the ID is the first two bytes. */
  const STORED_HEADER: bytes := [0, 0, 0x80, 0, 0, 1, 0, 1, 0, 0, 0, 0]
  const HIT_HEADER: bytes := [1, 0, 0x80, 0, 0, 1, 0, 1, 0, 0, 0, 0]

  /** A question whose name is a pointer to the ID, and an A record of the root. */
  const BODY: bytes := [0xC0, 0, 0, 1, 0, 1, 0, 0, 1, 0, 1, 0, 0, 0, 60, 0, 0]

  /** The ID's first byte is 0, so the question's name is the root. */
  const STORED: bytes := STORED_HEADER + BODY

  /** Under ID 0x0100 the pointer hits a label that is followed by the flags. */
  const HIT: bytes := HIT_HEADER + BODY

  lemma RootAt(d: bytes, o: nat, hops: nat)
    requires o < |d| && d[o] == 0
    ensures ParseName(d, o, hops) == Some(Named([], o + 1))
  {
  }

  /** One question and one record, whose names are the pointer and the root. */
  predicate IsMessage(d: bytes, high: byte) {
    && |d| == 29 && d[0] == high && d[1] == 0
    && Get16(d, 2) == 0x8000 && Get16(d, 4) == 1 && Get16(d, 6) == 1 && Get16(d, 8) == 0 && Get16(d, 10) == 0
    && d[12] == 0xC0 && d[13] == 0
    && d[18] == 0 && Get16(d, 19) == TYPE_A && Get32(d, 23) == 60 && Get16(d, 27) == 0
  }

  lemma StoredParses(d: bytes)
    requires IsMessage(d, 0)
    ensures ParseResponse(d).Some?
  {
    hide ParseName, StoredRdata, Get16, Get32, ParseQuestions, ParseAnswers;
    RootAt(d, 0, MAX_POINTER_HOPS - 1);
    PointerParses(d, 12, 0);
    RootAt(d, 18, MAX_POINTER_HOPS);
    NoQuestions(d, 18);
    ParseQuestionsCons(d, 12, 1);
    NoAnswers(d, 29);
    ParseAnswersCons(d, 18, 1);
  }

  lemma HitFails(d: bytes)
    requires IsMessage(d, 1)
    ensures ParseResponse(d).None?
  {
    hide ParseAnswers, Get32;
    assert d[2] == 0x80;
    assert LabelEnd(d, 0) == 2 && ParseName(d, 2, MAX_POINTER_HOPS - 1) == None;
    assert ParseName(d, 0, MAX_POINTER_HOPS - 1) == None;
    PointerParses(d, 12, 0);
    assert ParseQuestion(d, 12) == None;
    assert ParseQuestions(d, 12, 1) == None;
  }

  lemma StoredSlots(d: bytes)
    requires IsMessage(d, 0)
    ensures Slots(d) == [23]
  {
    hide Get16, Get32, Skip;
    assert Skip(d, 12) == 14 && Skip(d, 18) == 19 by { StoredSkips(d); }
    assert PastQuestions(d, 18, 0) == 18 && PastQuestions(d, 12, 1) == 18;
    assert SlotsFrom(d, 29, 0) == [];
    assert SlotsFrom(d, 18, 1) == [23] + SlotsFrom(d, 29, 0);
  }

  lemma StoredSkips(d: bytes)
    requires IsMessage(d, 0)
    ensures Skip(d, 12) == 14 && Skip(d, 18) == 19
  {
  }

  predicate IsHeader(h: bytes, high: byte) {
    && |h| == HEADER_SIZE && h[0] == high && h[1] == 0
    && Get16(h, 2) == 0x8000 && Get16(h, 4) == 1 && Get16(h, 6) == 1 && Get16(h, 8) == 0 && Get16(h, 10) == 0
  }

  lemma HeaderOfMessage(h: bytes, high: byte)
    requires IsHeader(h, high)
    ensures IsMessage(h + BODY, high)
  {
    var d := h + BODY;
    assert forall i :: 0 <= i < 12 ==> d[i] == h[i];
    assert forall i :: 0 <= i < 17 ==> d[12 + i] == BODY[i];
    BodyReads();
    assert d[12 + 0] == 0xC0 && d[12 + 1] == 0 && d[12 + 6] == 0;
    assert d[12 + 7] == BODY[7] && d[12 + 8] == BODY[8];
    assert d[12 + 11] == BODY[11] && d[12 + 12] == BODY[12] && d[12 + 13] == BODY[13] && d[12 + 14] == BODY[14];
    assert d[12 + 15] == BODY[15] && d[12 + 16] == BODY[16];
  }

  lemma BodyReads()
    ensures |BODY| == 17 && BODY[0] == 0xC0 && BODY[1] == 0 && BODY[6] == 0
    ensures Get16(BODY, 7) == TYPE_A && Get32(BODY, 11) == 60 && Get16(BODY, 15) == 0
  {
  }

  lemma BothAreMessages()
    ensures IsMessage(STORED, 0) && IsMessage(HIT, 1) && forall i :: 2 <= i < 29 ==> HIT[i] == STORED[i]
  {
    HeaderOfMessage(STORED_HEADER, 0);
    HeaderOfMessage(HIT_HEADER, 1);
    assert STORED_HEADER[2..] == HIT_HEADER[2..];
    assert STORED[2..] == STORED_HEADER[2..] + BODY && HIT[2..] == HIT_HEADER[2..] + BODY;
    forall i | 2 <= i < 29 ensures HIT[i] == STORED[i] {
      assert STORED[2..][i - 2] == HIT[2..][i - 2];
    }
  }

  /** Stored, accepted by the parser, and yet what a hit at once serves is not accepted. */
  lemma HitCanChangeMeaning()
    ensures ParseResponse(STORED).Some? && Cacheable(STORED)
    ensures Served(STORED, 0x100, 0, HIT) && ParseResponse(HIT).None? && !ResolvesAlike(STORED, HIT)
  {
    hide ParseResponse, Served, ResolvesAlike, Cacheable, IsMessage;
    BothAreMessages();
    HitFails(HIT);
    StoredParses(STORED);
    HitIsServed(STORED, HIT);
    HitCommutesExactly(STORED, HIT, 0x100, 0);
  }

  lemma HitIsServed(d: bytes, e: bytes)
    requires IsMessage(d, 0) && IsMessage(e, 1) && forall i :: 2 <= i < 29 ==> e[i] == d[i]
    ensures Cacheable(d) && Served(d, 0x100, 0, e)
  {
    hide Slots, MinTtl, Get32;
    StoredSlots(d);
    MinTtlMeaning(d);
    assert Get32(d, Slots(d)[0]) == 60 && Get32(e, 23) == 60;
  }
}
