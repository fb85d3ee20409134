// Exactly when a cache hit means the stored message: if and only if every name in it
// resolves in the bytes served as it did in the bytes stored.
module HitExactly {
  import opened Wire
  import opened Names
  import opened Messages
  import opened Frames
  import opened RoundTrip
  import opened CacheWalk
  import opened Cache
  import opened CacheMeaning

  /** The cap on what an upstream server may send, which is what the cache is given. */
  const MAX_DOH_RESPONSE_SIZE := 65535

  // ---------------------------------------------------------------------
  // Which names resolve alike.

  predicate NameAlike(d: bytes, e: bytes, o: nat) {
    ParseName(e, o, MAX_POINTER_HOPS) == ParseName(d, o, MAX_POINTER_HOPS)
  }

  predicate RdataAlike(d: bytes, e: bytes, start: nat, rtype: u16) {
    Decompress(e, start, rtype) == Decompress(d, start, rtype)
  }

  predicate QuestionsAlike(d: bytes, e: bytes, o: nat, n: nat)
    requires ParseQuestions(d, o, n).Some?
    decreases n
  {
    n > 0 ==> NameAlike(d, e, o) && QuestionsAlike(d, e, ParseQuestion(d, o).value.next, n - 1)
  }

  predicate RecordsAlike(d: bytes, e: bytes, o: nat, n: nat)
    requires ParseAnswers(d, o, n).Some?
    decreases n
  {
    n > 0 ==>
      && NameAlike(d, e, o) && RdataAlike(d, e, FieldsOf(d, o) + 10, Get16(d, FieldsOf(d, o)))
      && RecordsAlike(d, e, ParseAnswer(d, o).value.next, n - 1)
  }

  /** Every question name, owner name and name-bearing RDATA of `d` resolves in `e` as in `d`. */
  predicate ResolvesAlike(d: bytes, e: bytes)
    requires ParseResponse(d).Some?
  {
    var h := HeaderAt(d);
    && QuestionsAlike(d, e, HEADER_SIZE, h.qdcount)
    && RecordsAlike(d, e, AnswersAt(d), h.ancount)
    && RecordsAlike(d, e, AuthorityAt(d), h.nscount)
    && RecordsAlike(d, e, AdditionalAt(d), h.arcount)
  }

  // ---------------------------------------------------------------------
  // Offsets stay in step.

  lemma {:induction false} SkipLocally(d: bytes, e: bytes, o: nat)
    requires |d| == |e| && Skip(d, o) != 0 && forall i :: o <= i < Skip(d, o) ==> Same(d, e, i)
    ensures Skip(e, o) == Skip(d, o)
    decreases |d| - o
  {
    assert Same(d, e, o);
    if d[o] != 0 && !IsPointer(d[o]) {
      SkipLocally(d, e, LabelEnd(d, o));
    }
  }

  /** A name whose own bytes are the same ends where it did, if it still resolves. */
  lemma NamesEndAlike(d: bytes, e: bytes, o: nat)
    requires |d| == |e| && ParseName(d, o, MAX_POINTER_HOPS).Some?
    requires forall i :: o <= i < ParseName(d, o, MAX_POINTER_HOPS).value.next ==> Same(d, e, i)
    requires ParseName(e, o, MAX_POINTER_HOPS).Some?
    ensures ParseName(e, o, MAX_POINTER_HOPS).value.next == ParseName(d, o, MAX_POINTER_HOPS).value.next
  {
    hide ParseName, Skip;
    SkippersAgreeWithParser(d, o, MAX_POINTER_HOPS);
    SkippersAgreeWithParser(e, o, MAX_POINTER_HOPS);
    SkipLocally(d, e, o);
  }

  // ---------------------------------------------------------------------
  // One question, one record.

  lemma QuestionExactly(d: bytes, e: bytes, o: nat)
    requires |d| == |e| && ParseQuestion(d, o).Some?
    requires forall i :: o <= i < ParseQuestion(d, o).value.next ==> Same(d, e, i)
    ensures ParseQuestion(e, o).Some? ==> ParseQuestion(e, o).value.next == ParseQuestion(d, o).value.next
    ensures NameAlike(d, e, o) <==>
            ParseQuestion(e, o).Some? && ParseQuestion(e, o).value.question == ParseQuestion(d, o).value.question
  {
    hide ParseName, Get16;
    var f := ParseName(d, o, MAX_POINTER_HOPS).value.next;
    if ParseName(e, o, MAX_POINTER_HOPS).Some? {
      NamesEndAlike(d, e, o);
      Get16Frame(d, e, f);
      Get16Frame(d, e, f + 2);
    }
  }

  /** Stored RDATA is the same exactly when decompression comes out the same. */
  lemma StoredExactly(d: bytes, e: bytes, start: nat, length: nat, rtype: u16)
    requires start + length <= |d| == |e| && forall i :: start <= i < start + length ==> Same(d, e, i)
    ensures StoredRdata(e, start, length, rtype) == StoredRdata(d, start, length, rtype) <==> RdataAlike(d, e, start, rtype)
  {
    hide Decompress, SelfContained;
    SliceFrame(d, e, start, start + length);
    if ShapeOf(rtype).Some? {
      SelfContainedIffDecompressed(d, start, length, rtype);
      SelfContainedIffDecompressed(e, start, length, rtype);
    } else {
      NoShape(d, start, rtype);
      NoShape(e, start, rtype);
    }
  }

  lemma NoShape(d: bytes, start: nat, rtype: u16)
    requires ShapeOf(rtype).None?
    ensures Decompress(d, start, rtype) == None
  {
  }

  lemma RecordExactly(d: bytes, e: bytes, o: nat, elapsed: u32)
    requires |d| == |e| && ParseAnswer(d, o).Some? && RecordAged(d, e, o, elapsed)
    ensures ParseAnswer(e, o).Some? ==> ParseAnswer(e, o).value.next == ParseAnswer(d, o).value.next
    ensures NameAlike(d, e, o) && RdataAlike(d, e, FieldsOf(d, o) + 10, Get16(d, FieldsOf(d, o))) <==>
            ParseAnswer(e, o).Some? && ParseAnswer(e, o).value.answer == Aged(ParseAnswer(d, o).value.answer, elapsed)
  {
    hide ParseName, StoredRdata, RdataAlike, Get16, Get32, AgedTtl;
    var f := ParseName(d, o, MAX_POINTER_HOPS).value.next;
    if ParseName(e, o, MAX_POINTER_HOPS).Some? {
      NamesEndAlike(d, e, o);
      Get16Frame(d, e, f);
      Get16Frame(d, e, f + 2);
      Get16Frame(d, e, f + 8);
      StoredExactly(d, e, f + 10, Get16(d, f + 8), Get16(d, f));
    }
  }

  // ---------------------------------------------------------------------
  // Sections.

  lemma {:induction false} QuestionsExactly(d: bytes, e: bytes, o: nat, n: nat)
    requires |d| == |e| && o <= |d| && ParseQuestions(d, o, n).Some?
    requires forall i :: o <= i < ParseQuestions(d, o, n).value.next ==> Same(d, e, i)
    ensures ParseQuestions(e, o, n).Some? ==> ParseQuestions(e, o, n).value.next == ParseQuestions(d, o, n).value.next
    ensures QuestionsAlike(d, e, o, n) <==>
            ParseQuestions(e, o, n).Some? && ParseQuestions(e, o, n).value.questions == ParseQuestions(d, o, n).value.questions
    decreases n
  {
    hide ParseQuestion, NameAlike, Same;
    if n > 0 {
      var first := ParseQuestion(d, o).value;
      QuestionExactly(d, e, o);
      QuestionsExactly(d, e, first.next, n - 1);
      if ParseQuestions(e, o, n).Some? {
        var others := ParseQuestions(d, first.next, n - 1).value.questions;
        SameFirstAndRest(ParseQuestion(e, o).value.question, ParseQuestions(e, first.next, n - 1).value.questions, [first.question] + others);
        assert ([first.question] + others)[1..] == others;
      }
    }
  }

  lemma {:induction false} SectionExactly(d: bytes, e: bytes, o: nat, n: nat, elapsed: u32)
    requires |d| == |e| && ParseAnswers(d, o, n).Some? && RecordsAged(d, e, o, n, elapsed)
    ensures ParseAnswers(e, o, n).Some? ==> ParseAnswers(e, o, n).value.next == ParseAnswers(d, o, n).value.next
    ensures RecordsAlike(d, e, o, n) <==>
            ParseAnswers(e, o, n).Some? && ParseAnswers(e, o, n).value.answers == AgedAll(ParseAnswers(d, o, n).value.answers, elapsed)
    decreases n
  {
    hide ParseAnswer, NameAlike, RdataAlike, Same, Get16, Get32, AgedTtl, Aged, AgedAll, FieldsOf;
    if n == 0 {
      NothingToAge(elapsed);
    } else {
      var first := ParseAnswer(d, o).value;
      var others := ParseAnswers(d, first.next, n - 1).value.answers;
      RecordExactly(d, e, o, elapsed);
      SectionExactly(d, e, first.next, n - 1, elapsed);
      AgedCons(first.answer, others, elapsed);
      if ParseAnswers(e, o, n).Some? {
        var aged := [Aged(first.answer, elapsed)] + AgedAll(others, elapsed);
        SameFirstAndRest(ParseAnswer(e, o).value.answer, ParseAnswers(e, first.next, n - 1).value.answers, aged);
        assert aged[1..] == AgedAll(others, elapsed);
      }
    }
  }

  lemma NothingToAge(elapsed: u32)
    ensures AgedAll([], elapsed) == []
  {
  }

  lemma AgedCons(a: Answer, rest: seq<Answer>, elapsed: u32)
    ensures AgedAll([a] + rest, elapsed) == [Aged(a, elapsed)] + AgedAll(rest, elapsed)
  {
    assert ([a] + rest)[1..] == rest;
  }

  // ---------------------------------------------------------------------
  // The whole message.

  /** A record takes at least 11 bytes, so the counts of a message that parses are bounded by its size. */
  lemma {:induction false} RecordsTakeRoom(d: bytes, o: nat, n: nat)
    requires ParseAnswers(d, o, n).Some?
    ensures o + 11 * n <= ParseAnswers(d, o, n).value.next
    decreases n
  {
    hide ParseAnswer;
    if n > 0 {
      assert o < FieldsOf(d, o);
      RecordsTakeRoom(d, ParseAnswer(d, o).value.next, n - 1);
    }
  }

  lemma CountsFit(d: bytes)
    requires ParseResponse(d).Some? && |d| <= MAX_DOH_RESPONSE_SIZE
    ensures var h := HeaderAt(d); h.ancount + h.nscount + h.arcount < 0x1_0000
  {
    hide ParseAnswers, ParseResponse, HeaderAt, AnswersAt, AuthorityAt, AdditionalAt;
    ResponseParts(d);
    RecordsTakeRoom(d, AnswersAt(d), HeaderAt(d).ancount);
    RecordsTakeRoom(d, AuthorityAt(d), HeaderAt(d).nscount);
    RecordsTakeRoom(d, AdditionalAt(d), HeaderAt(d).arcount);
  }

  /** The exact condition, for any message whose record counts do not wrap around. */
  lemma ServedExactly(d: bytes, out: bytes, id: u16, elapsed: u32)
    requires ParseResponse(d).Some? && Served(d, id, elapsed, out)
    requires var h := HeaderAt(d); h.ancount + h.nscount + h.arcount < 0x1_0000
    ensures ParseResponse(out).Some? && ParseResponse(out).value.packet == AgedPacket(ParseResponse(d).value.packet, id, elapsed)
            <==> ResolvesAlike(d, out)
    ensures ResolvesAlike(d, out) ==> ParseResponse(out).value.next == ParseResponse(d).value.next
  {
    hide ParseAnswers, ParseQuestions, Slots, RecordsAged, TtlsAbove, Get32, AgedAll, QuestionsAlike, RecordsAlike;
    ResponseParts(d);
    SectionsServed(d, out, id, elapsed);
    var h := HeaderAt(d);
    assert HeaderAt(out) == h.(id := id);
    QuestionsExactly(d, out, HEADER_SIZE, h.qdcount);
    SectionExactly(d, out, AnswersAt(d), h.ancount, elapsed);
    SectionExactly(d, out, AuthorityAt(d), h.nscount, elapsed);
    SectionExactly(d, out, AdditionalAt(d), h.arcount, elapsed);
  }

  /**
   * A hit commutes with parsing, exactly. For every message the cache can hold that the parser
   * accepts: what a hit serves parses to the stored packet, with the new ID and every non-OPT
   * TTL lowered by the seconds elapsed, if and only if every name resolves as it did.
   */
  lemma HitCommutesExactly(d: bytes, out: bytes, id: u16, elapsed: u32)
    requires ParseResponse(d).Some? && |d| <= MAX_DOH_RESPONSE_SIZE && Served(d, id, elapsed, out)
    ensures ParseResponse(out).Some? && ParseResponse(out).value.packet == AgedPacket(ParseResponse(d).value.packet, id, elapsed)
            <==> ResolvesAlike(d, out)
    ensures var p := ParseResponse(d).value.packet;
            TtlsAbove(p.answers, elapsed) && TtlsAbove(p.authority, elapsed) && TtlsAbove(p.additional, elapsed)
  {
    hide ParseResponse, ResolvesAlike, Served, TtlsAbove, AgedPacket, ParseAnswers, RecordsAged;
    CountsFit(d);
    ServedExactly(d, out, id, elapsed);
    SectionsServed(d, out, id, elapsed);
    ResponseParts(d);
  }

  /**
   * A condition on the stored message alone: if no name in it is resolved through an ID or TTL
   * byte, then every hit commutes with parsing, whatever its ID and age.
   */
  lemma HitCommutesWithParsing(d: bytes, out: bytes, id: u16, elapsed: u32)
    requires ParseResponse(d).Some? && |d| <= MAX_DOH_RESPONSE_SIZE && Served(d, id, elapsed, out)
    requires forall i: nat :: ResolutionReads(d, i) ==> 2 <= i && !InSlots(Slots(d), i)
    ensures ParseResponse(out) == Some(Parsed(AgedPacket(ParseResponse(d).value.packet, id, elapsed), ParseResponse(d).value.next))
    ensures ResolvesAlike(d, out)
  {
    hide ParseResponse, ResolvesAlike, Served, AgedPacket, Slots, TtlsAbove, HeaderAt;
    CountsFit(d);
    ServedCommutes(d, out, id, elapsed);
    ServedExactly(d, out, id, elapsed);
  }
}
