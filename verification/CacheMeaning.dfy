// What a cache hit means: parsing the bytes served gives the packet that was
// stored, under the new ID and with its TTLs lowered.
module CacheMeaning {
  import opened Wire
  import opened Names
  import opened Messages
  import opened Frames
  import opened CacheWalk
  import opened Cache

  // ---------------------------------------------------------------------
  // The walker and the parser visit the same records.

  lemma {:induction false} QuestionsSkipped(d: bytes, o: nat, n: nat)
    requires ParseQuestions(d, o, n).Some?
    ensures PastQuestions(d, o, n) == ParseQuestions(d, o, n).value.next
    decreases n
  {
    hide ParseName, Skip;
    if n > 0 {
      SkippersAgreeWithParser(d, o, MAX_POINTER_HOPS);
      QuestionsSkipped(d, ParseQuestion(d, o).value.next, n - 1);
    }
  }

  lemma RecordSkipped(d: bytes, o: nat)
    requires ParseAnswer(d, o).Some?
    ensures var s := Skip(d, o);
            s == FieldsOf(d, o) && s + 10 <= |d| && ParseAnswer(d, o).value.next == s + 10 + Get16(d, s + 8)
    ensures ParseAnswer(d, o).value.answer.rtype == Get16(d, Skip(d, o))
    ensures ParseAnswer(d, o).value.answer.ttl == Get32(d, Skip(d, o) + 4)
  {
    hide ParseName, Skip, StoredRdata, Get16, Get32;
    SkippersAgreeWithParser(d, o, MAX_POINTER_HOPS);
  }

  /** One parsed record is one step of the walk. */
  lemma SlotsOfRecord(d: bytes, o: nat, n: nat)
    requires n > 0 && ParseAnswer(d, o).Some?
    ensures var first := ParseAnswer(d, o).value;
            SlotsFrom(d, o, n) == (if first.answer.rtype == TYPE_OPT then [] else [FieldsOf(d, o) + 4]) + SlotsFrom(d, first.next, n - 1)
  {
    hide ParseAnswer, Skip, Get16;
    RecordSkipped(d, o);
  }

  lemma {:induction false} SlotsSplit(d: bytes, o: nat, a: nat, b: nat)
    requires ParseAnswers(d, o, a).Some?
    ensures SlotsFrom(d, o, a + b) == SlotsFrom(d, o, a) + SlotsFrom(d, ParseAnswers(d, o, a).value.next, b)
    decreases a
  {
    hide ParseAnswer, SlotsFrom, FieldsOf;
    if a == 0 {
      SlotsStop(d, o, 0);
      assert [] + SlotsFrom(d, o, b) == SlotsFrom(d, o, b);
    } else {
      SlotsOfRecord(d, o, a);
      SlotsOfRecord(d, o, a + b);
      var first := ParseAnswer(d, o).value;
      SlotsSplit(d, first.next, a - 1, b);
      var here := if first.answer.rtype == TYPE_OPT then [] else [FieldsOf(d, o) + 4];
      var mine, rest := SlotsFrom(d, first.next, a - 1), SlotsFrom(d, ParseAnswers(d, o, a).value.next, b);
      assert here + (mine + rest) == (here + mine) + rest;
    }
  }

  lemma {:induction false} SlotsWithin(d: bytes, o: nat, n: nat)
    requires ParseAnswers(d, o, n).Some?
    ensures forall k :: 0 <= k < |SlotsFrom(d, o, n)| ==> SlotsFrom(d, o, n)[k] + 6 <= ParseAnswers(d, o, n).value.next
    decreases n
  {
    hide ParseAnswer, SlotsFrom, FieldsOf;
    if n == 0 {
      SlotsStop(d, o, 0);
    } else {
      SlotsOfRecord(d, o, n);
      SlotsWithin(d, ParseAnswer(d, o).value.next, n - 1);
      LaterIsFurther(d, ParseAnswer(d, o).value.next, n - 1);
    }
  }

  lemma LaterIsFurther(d: bytes, o: nat, n: nat)
    requires ParseAnswers(d, o, n).Some?
    ensures o <= ParseAnswers(d, o, n).value.next
    decreases n
  {
    hide ParseAnswer;
    if n > 0 {
      LaterIsFurther(d, ParseAnswer(d, o).value.next, n - 1);
    }
  }

  // ---------------------------------------------------------------------
  // One section.

  /** `out` is `d` on [lo, hi), but for the TTLs at `slots`, which are lower by `elapsed`. */
  ghost predicate Lowered(d: bytes, out: bytes, lo: nat, hi: nat, slots: seq<nat>, elapsed: u32)
    requires hi <= |d| == |out|
    requires forall k :: 0 <= k < |slots| ==> slots[k] + 4 <= |d|
  {
    && (forall i :: lo <= i < hi && !InSlots(slots, i) ==> out[i] == d[i])
    && (forall k :: 0 <= k < |slots| ==> Get32(out, slots[k]) == Get32(d, slots[k]) - elapsed > 0)
  }

  /** No TTL that the cache lowers was too small. */
  predicate TtlsAbove(answers: seq<Answer>, elapsed: u32) {
    forall k :: 0 <= k < |answers| ==> answers[k].rtype != TYPE_OPT ==> answers[k].ttl > elapsed
  }

  lemma NotInSlots(slots: seq<nat>, lo: nat, hi: nat)
    requires forall k :: 0 <= k < |slots| ==> slots[k] + 4 <= lo || hi <= slots[k]
    ensures forall i :: lo <= i < hi ==> !InSlots(slots, i)
  {
  }

  lemma FirstRecordAged(d: bytes, out: bytes, o: nat, hi: nat, rest: seq<nat>, elapsed: u32)
    requires ParseAnswer(d, o).Some? && ParseAnswer(d, o).value.next <= hi <= |d| == |out|
    requires forall k :: 0 <= k < |rest| ==> ParseAnswer(d, o).value.next <= rest[k] && rest[k] + 4 <= |d|
    requires var here := if ParseAnswer(d, o).value.answer.rtype == TYPE_OPT then [] else [FieldsOf(d, o) + 4];
             Lowered(d, out, o, hi, here + rest, elapsed)
    ensures RecordAged(d, out, o, elapsed)
    ensures var a := ParseAnswer(d, o).value.answer; a.rtype != TYPE_OPT ==> a.ttl > elapsed
    ensures Lowered(d, out, ParseAnswer(d, o).value.next, hi, rest, elapsed)
  {
    hide ParseAnswer, Skip, Get32, Get16, FieldsOf;
    RecordSkipped(d, o);
    var f, next := FieldsOf(d, o), ParseAnswer(d, o).value.next;
    var here := if ParseAnswer(d, o).value.answer.rtype == TYPE_OPT then [] else [f + 4];
    var slots := here + rest;
    NotInSlots(slots, o, f + 4);
    NotInSlots(slots, f + 8, next);
    if here == [] {
      NotInSlots(slots, f + 4, f + 8);
      SameInt(d, out, f + 4);
    } else {
      assert slots[0] == f + 4;
    }
    NotInSlots(here, next, hi);
    forall i | next <= i < hi && !InSlots(rest, i) ensures out[i] == d[i] {
      InBothSlots(here, rest, i);
    }
    forall k | 0 <= k < |rest| ensures Get32(out, rest[k]) == Get32(d, rest[k]) - elapsed > 0 {
      assert rest[k] == slots[|here| + k];
    }
  }

  lemma {:induction false} SectionAged(d: bytes, out: bytes, o: nat, n: nat, elapsed: u32)
    requires |d| == |out| && ParseAnswers(d, o, n).Some? && ParseAnswers(d, o, n).value.next <= |d|
    requires Lowered(d, out, o, ParseAnswers(d, o, n).value.next, SlotsFrom(d, o, n), elapsed)
    ensures RecordsAged(d, out, o, n, elapsed)
    ensures TtlsAbove(ParseAnswers(d, o, n).value.answers, elapsed)
    decreases n
  {
    hide ParseAnswer, SlotsFrom, Lowered, FieldsOf, Get16, Get32, AgedTtl, Same;
    if n > 0 {
      var first := ParseAnswer(d, o).value;
      var rest := ParseAnswers(d, first.next, n - 1).value;
      SlotsOfRecord(d, o, n);
      LaterIsFurther(d, first.next, n - 1);
      FirstRecordAged(d, out, o, rest.next, SlotsFrom(d, first.next, n - 1), elapsed);
      SectionAged(d, out, first.next, n - 1, elapsed);
    }
  }

  // ---------------------------------------------------------------------
  // The whole message.

  /** Parsing `d` resolves some name, in an owner or in record data, through offset `i`. */
  ghost predicate ResolutionReads(d: bytes, i: nat)
    requires ParseResponse(d).Some?
  {
    var h := HeaderAt(d);
    var an, ns, ar := AnswersAt(d), AuthorityAt(d), AdditionalAt(d);
    || QuestionsRead(d, HEADER_SIZE, h.qdcount, i)
    || AnswersRead(d, an, h.ancount, i)
    || AnswersRead(d, ns, h.nscount, i)
    || AnswersRead(d, ar, h.arcount, i)
  }

  /** The slots of one section, seen among those of the whole message. */
  lemma SectionLowered(d: bytes, out: bytes, lo: nat, hi: nat, before: seq<nat>, mine: seq<nat>, after: seq<nat>, elapsed: u32)
    requires lo <= hi <= |d| == |out|
    requires forall k :: 0 <= k < |before| ==> before[k] + 4 <= lo
    requires forall k :: 0 <= k < |mine| ==> mine[k] + 4 <= |d|
    requires forall k :: 0 <= k < |after| ==> hi <= after[k] && after[k] + 4 <= |d|
    requires Lowered(d, out, lo, hi, before + (mine + after), elapsed)
    ensures Lowered(d, out, lo, hi, mine, elapsed)
  {
    hide Get32;
    var all := before + (mine + after);
    NotInSlots(before, lo, hi);
    NotInSlots(after, lo, hi);
    forall i | lo <= i < hi && !InSlots(mine, i) ensures out[i] == d[i] {
      InBothSlots(before, mine + after, i);
      InBothSlots(mine, after, i);
    }
    forall k | 0 <= k < |mine| ensures Get32(out, mine[k]) == Get32(d, mine[k]) - elapsed > 0 {
      assert mine[k] == (mine + after)[k] == all[|before| + k];
    }
  }

  lemma LoweredWithin(d: bytes, out: bytes, lo: nat, hi: nat, lo': nat, hi': nat, slots: seq<nat>, elapsed: u32)
    requires lo <= lo' && hi' <= hi <= |d| == |out|
    requires forall k :: 0 <= k < |slots| ==> slots[k] + 4 <= |d|
    requires Lowered(d, out, lo, hi, slots, elapsed)
    ensures Lowered(d, out, lo', hi', slots, elapsed)
  {
  }

  lemma SlotsOfSections(d: bytes, an: nat, a: nat, ns: nat, b: nat, ar: nat, c: nat)
    requires ParseAnswers(d, an, a).Some? && ParseAnswers(d, an, a).value.next == ns
    requires ParseAnswers(d, ns, b).Some? && ParseAnswers(d, ns, b).value.next == ar
    ensures SlotsFrom(d, an, a + b + c) == SlotsFrom(d, an, a) + (SlotsFrom(d, ns, b) + SlotsFrom(d, ar, c))
  {
    hide ParseAnswers, SlotsFrom;
    SlotsSplit(d, an, a, b + c);
    SlotsSplit(d, ns, b, c);
    assert a + (b + c) == a + b + c;
  }

  lemma SlotsAfterQuestions(d: bytes)
    requires HEADER_SIZE <= |d| && ParseQuestions(d, HEADER_SIZE, Get16(d, 4)).Some?
    ensures Slots(d) == SlotsFrom(d, ParseQuestions(d, HEADER_SIZE, Get16(d, 4)).value.next, RecordTotal(d))
  {
    hide ParseQuestions, PastQuestions, SlotsFrom, RecordTotal;
    QuestionsSkipped(d, HEADER_SIZE, Get16(d, 4));
    SlotsStop(d, ParseQuestions(d, HEADER_SIZE, Get16(d, 4)).value.next, 0);
  }

  lemma TotalIsExact(d: bytes)
    requires HEADER_SIZE <= |d|
    requires var h := HeaderAt(d); h.ancount + h.nscount + h.arcount < 0x1_0000
    ensures RecordTotal(d) == HeaderAt(d).ancount + HeaderAt(d).nscount + HeaderAt(d).arcount
    ensures HeaderAt(d).qdcount == Get16(d, 4)
  {
    hide Get16;
  }

  /** Where the parser reads the TTLs of the non-OPT records among the `n` records at `o`. */
  function TtlFields(d: bytes, o: nat, n: nat): seq<nat>
    requires ParseAnswers(d, o, n).Some?
    decreases n
  {
    if n == 0 then []
    else
      var first := ParseAnswer(d, o).value;
      (if first.answer.rtype == TYPE_OPT then [] else [FieldsOf(d, o) + 4]) + TtlFields(d, first.next, n - 1)
  }

  function NonOptTtls(answers: seq<Answer>): seq<u32> {
    if answers == [] then []
    else (if answers[0].rtype == TYPE_OPT then [] else [answers[0].ttl]) + NonOptTtls(answers[1..])
  }

  /** The walker stops at exactly the TTL fields of the parser's non-OPT records, and they hold those TTLs. */
  lemma {:induction false} SlotsAreTtlFields(d: bytes, o: nat, n: nat)
    requires ParseAnswers(d, o, n).Some?
    ensures SlotsFrom(d, o, n) == TtlFields(d, o, n)
    ensures var ttls := NonOptTtls(ParseAnswers(d, o, n).value.answers);
            |ttls| == |TtlFields(d, o, n)| &&
            forall k :: 0 <= k < |ttls| ==> TtlFields(d, o, n)[k] + 4 <= |d| && Get32(d, TtlFields(d, o, n)[k]) == ttls[k]
    decreases n
  {
    hide ParseAnswer, SlotsFrom, FieldsOf, Get32;
    if n == 0 {
      SlotsStop(d, o, 0);
    } else {
      var first := ParseAnswer(d, o).value;
      SlotsOfRecord(d, o, n);
      SlotsAreTtlFields(d, first.next, n - 1);
      RecordSkipped(d, o);
      var rest := ParseAnswers(d, first.next, n - 1).value.answers;
      assert ([first.answer] + rest)[1..] == rest;
    }
  }

  /** The slots of a message that parses are the TTL fields of its non-OPT records, section by section. */
  lemma SlotsOfResponse(d: bytes)
    requires ParseResponse(d).Some?
    requires var h := HeaderAt(d); h.ancount + h.nscount + h.arcount < 0x1_0000
    ensures var h := HeaderAt(d);
            && Slots(d) == TtlFields(d, AnswersAt(d), h.ancount) +
                           (TtlFields(d, AuthorityAt(d), h.nscount) + TtlFields(d, AdditionalAt(d), h.arcount))
            && TtlFields(d, AnswersAt(d), h.ancount) == SlotsFrom(d, AnswersAt(d), h.ancount)
            && TtlFields(d, AuthorityAt(d), h.nscount) == SlotsFrom(d, AuthorityAt(d), h.nscount)
            && TtlFields(d, AdditionalAt(d), h.arcount) == SlotsFrom(d, AdditionalAt(d), h.arcount)
  {
    hide TtlFields, ParseAnswers, SlotsFrom, ParseQuestions, Get16, Slots, ParseResponse, HeaderAt, RecordTotal, AnswersAt, AuthorityAt, AdditionalAt;
    ResponseParts(d);
    TotalIsExact(d);
    SlotsAfterQuestions(d);
    SlotsOfSections(d, AnswersAt(d), HeaderAt(d).ancount, AuthorityAt(d), HeaderAt(d).nscount, AdditionalAt(d), HeaderAt(d).arcount);
    SlotsAreTtlFields(d, AnswersAt(d), HeaderAt(d).ancount);
    SlotsAreTtlFields(d, AuthorityAt(d), HeaderAt(d).nscount);
    SlotsAreTtlFields(d, AdditionalAt(d), HeaderAt(d).arcount);
  }

  /** Each section of the served message holds the records of the stored one, aged. */
  lemma SectionsServed(d: bytes, out: bytes, id: u16, elapsed: u32)
    requires ParseResponse(d).Some? && Served(d, id, elapsed, out)
    requires var h := HeaderAt(d); h.ancount + h.nscount + h.arcount < 0x1_0000
    ensures var h := HeaderAt(d);
            var an, ns, ar := AnswersAt(d), AuthorityAt(d), AdditionalAt(d);
            && (forall i :: 2 <= i < an ==> out[i] == d[i])
            && RecordsAged(d, out, an, h.ancount, elapsed) && TtlsAbove(ParseAnswers(d, an, h.ancount).value.answers, elapsed)
            && RecordsAged(d, out, ns, h.nscount, elapsed) && TtlsAbove(ParseAnswers(d, ns, h.nscount).value.answers, elapsed)
            && RecordsAged(d, out, ar, h.arcount, elapsed) && TtlsAbove(ParseAnswers(d, ar, h.arcount).value.answers, elapsed)
  {
    hide ParseAnswers, SlotsFrom, TtlFields, ParseQuestions, Slots, RecordsAged, TtlsAbove, Get32, AnswersRead;
    ResponseParts(d);
    SlotsOfResponse(d);
    var h := HeaderAt(d);
    var an, ns, ar := AnswersAt(d), AuthorityAt(d), AdditionalAt(d);
    var end := ParseAnswers(d, ar, h.arcount).value.next;
    var s1, s2, s3 := SlotsFrom(d, an, h.ancount), SlotsFrom(d, ns, h.nscount), SlotsFrom(d, ar, h.arcount);
    SlotsWithin(d, an, h.ancount);
    SlotsWithin(d, ns, h.nscount);
    SlotsWithin(d, ar, h.arcount);
    LaterIsFurther(d, ar, h.arcount);
    assert Lowered(d, out, 2, |d|, s1 + (s2 + s3), elapsed);
    assert s1 + (s2 + s3) == [] + (s1 + (s2 + s3)) && s1 + (s2 + s3) == (s1 + s2) + (s3 + []);
    NotInSlots(s1 + (s2 + s3), 2, an);
    SectionOf(d, out, 2, an, ns, [], s1, s2 + s3, elapsed);
    SectionAged(d, out, an, h.ancount, elapsed);
    SectionOf(d, out, 2, ns, ar, s1, s2, s3, elapsed);
    SectionAged(d, out, ns, h.nscount, elapsed);
    SectionOf(d, out, 2, ar, end, s1 + s2, s3, [], elapsed);
    SectionAged(d, out, ar, h.arcount, elapsed);
  }

  lemma SectionOf(d: bytes, out: bytes, from: nat, lo: nat, hi: nat, before: seq<nat>, mine: seq<nat>, after: seq<nat>, elapsed: u32)
    requires from <= lo <= hi <= |d| == |out|
    requires forall k :: 0 <= k < |before| ==> before[k] + 4 <= lo
    requires forall k :: 0 <= k < |mine| ==> mine[k] + 4 <= |d|
    requires forall k :: 0 <= k < |after| ==> hi <= after[k] && after[k] + 4 <= |d|
    requires Lowered(d, out, from, |d|, before + (mine + after), elapsed)
    ensures Lowered(d, out, lo, hi, mine, elapsed)
  {
    hide Lowered;
    LoweredWithin(d, out, from, |d|, lo, hi, before + (mine + after), elapsed);
    SectionLowered(d, out, lo, hi, before, mine, after, elapsed);
  }

  /** The packet that a hit stands for. */
  function AgedPacket(p: Packet, id: u16, elapsed: u32): Packet {
    Packet(p.header.(id := id), p.questions,
           AgedAll(p.answers, elapsed), AgedAll(p.authority, elapsed), AgedAll(p.additional, elapsed))
  }

  /**
   * If the three record counts of a stored message do not wrap around in 16 bits, and no name in
   * it is resolved through an ID or TTL byte, then the served bytes parse to the stored packet
   * with the new ID and with every non-OPT TTL lowered by the seconds elapsed, which never
   * reaches the clamp.
   */
  lemma ServedCommutes(d: bytes, out: bytes, id: u16, elapsed: u32)
    requires ParseResponse(d).Some? && Served(d, id, elapsed, out)
    requires var h := HeaderAt(d); h.ancount + h.nscount + h.arcount < 0x1_0000
    requires forall i: nat :: ResolutionReads(d, i) ==> 2 <= i && !InSlots(Slots(d), i)
    ensures var p := ParseResponse(d).value.packet;
            && ParseResponse(out) == Some(Parsed(AgedPacket(p, id, elapsed), ParseResponse(d).value.next))
            && TtlsAbove(p.answers, elapsed) && TtlsAbove(p.authority, elapsed) && TtlsAbove(p.additional, elapsed)
  {
    hide ParseAnswers, ParseQuestions, Slots, RecordsAged, TtlsAbove, Get32, AnswersRead, QuestionsRead, AgedAll;
    ResponseParts(d);
    SectionsServed(d, out, id, elapsed);
    var h := HeaderAt(d);
    var an, ns, ar := AnswersAt(d), AuthorityAt(d), AdditionalAt(d);
    assert HeaderAt(out) == h.(id := id);
    forall i: nat | ResolutionReads(d, i) ensures Same(d, out, i) {
      ReadsAreInside(d, i);
    }
    assert forall i: nat :: QuestionsRead(d, HEADER_SIZE, h.qdcount, i) ==> ResolutionReads(d, i);
    assert forall i: nat :: AnswersRead(d, an, h.ancount, i) ==> ResolutionReads(d, i);
    assert forall i: nat :: AnswersRead(d, ns, h.nscount, i) ==> ResolutionReads(d, i);
    assert forall i: nat :: AnswersRead(d, ar, h.arcount, i) ==> ResolutionReads(d, i);
    QuestionsFrame(d, out, HEADER_SIZE, h.qdcount);
    AnswersFrame(d, out, an, h.ancount, elapsed);
    AnswersFrame(d, out, ns, h.nscount, elapsed);
    AnswersFrame(d, out, ar, h.arcount, elapsed);
  }

  lemma ReadsAreInside(d: bytes, i: nat)
    requires ParseResponse(d).Some? && ResolutionReads(d, i)
    ensures i < |d|
  {
    hide ParseAnswers, ParseQuestions, ParseResponse;
    ResponseParts(d);
    var h := HeaderAt(d);
    var an, ns, ar := AnswersAt(d), AuthorityAt(d), AdditionalAt(d);
    QuestionReadsInside(d, HEADER_SIZE, h.qdcount, i);
    AnswerReadsInside(d, an, h.ancount, i);
    AnswerReadsInside(d, ns, h.nscount, i);
    AnswerReadsInside(d, ar, h.arcount, i);
  }
}
