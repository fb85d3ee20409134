// Exactly when parse, print, parse is stable, and a message for which it is not:
// RDATA that failed to decompress is kept raw, and its pointers may hit different
// bytes in the printed message.
module RawRdata {
  import opened Wire
  import opened Names
  import opened Messages
  import opened Frames
  import opened RoundTrip

  /** RDATA reads back as itself if and only if it is self-contained or its names do not resolve. */
  lemma SettledExactly(d: bytes, start: nat, a: Answer)
    requires start + |a.rdata| <= |d| && d[start..start + |a.rdata|] == a.rdata
    ensures Settled(d, start, a) <==> SelfContained(a.rtype, a.rdata) || Decompress(d, start, a.rtype).None?
  {
    hide Decompress, SelfContained;
    if SelfContained(a.rtype, a.rdata) {
      SelfContainedSettles(d, start, a);
    } else if Decompress(d, start, a.rtype).Some? {
      DecompressedIsSelfContained(d, start, a.rtype);
    }
  }

  /** Every record printed at `o` of `d` has self-contained RDATA, or RDATA that does not resolve in `d`. */
  ghost predicate StaysRaw(d: bytes, o: nat, answers: seq<Answer>)
    decreases |answers|
  {
    |answers| > 0 ==>
      var a := answers[0];
      (SelfContained(a.rtype, a.rdata) || Decompress(d, RdataStart(o, a), a.rtype).None?) &&
      StaysRaw(d, o + AnswerSize(a), answers[1..])
  }

  lemma {:induction false} SectionSettlesExactly(d: bytes, o: nat, answers: seq<Answer>)
    requires AnswersIn(d, o, answers)
    ensures AllSettled(d, o, answers) <==> StaysRaw(d, o, answers)
    decreases |answers|
  {
    hide Decompress, SelfContained, ParseName, NameSize, Settled;
    if answers != [] {
      SettledExactly(d, RdataStart(o, answers[0]), answers[0]);
      SectionSettlesExactly(d, o + AnswerSize(answers[0]), answers[1..]);
    }
  }

  /**
   * Parse, print, parse, exactly: the packet comes back if and only if whatever failed to
   * decompress in `d` fails again in the printed message.
   */
  lemma ParsePrintParseExactly(d: bytes)
    requires ParseResponse(d).Some? && SizedSections(ParseResponse(d).value.packet)
    ensures var p := ParseResponse(d).value.packet;
            var e := PrintResponse(p);
            ParseResponse(e).Some? &&
            (ParseResponse(e).value.packet == p <==>
              && StaysRaw(e, AnswersStart(p), p.answers)
              && StaysRaw(e, AuthorityStart(p), p.authority)
              && StaysRaw(e, AdditionalStart(p), p.additional))
  {
    hide ParseResponse, PrintResponse, AnswersIn, AllSettled, StaysRaw, WellFormed;
    var p := ParseResponse(d).value.packet;
    var e := PrintResponse(p);
    ParsedIsWellFormed(d);
    WellFormedParses(p);
    PrintedResponse(p);
    SectionSettlesExactly(e, AnswersStart(p), p.answers);
    SectionSettlesExactly(e, AuthorityStart(p), p.authority);
    SectionSettlesExactly(e, AdditionalStart(p), p.additional);
  }

  // ---------------------------------------------------------------------
  // A message that does not survive.

  const HEADER := Header(0, 0x8000, 1, 1, 0, 0)
  const OWNER: Labels := [[0x61]]
  const QUESTION := Question(OWNER, TYPE_A, 1)

  /** A CNAME whose target points at its own TTL, which is no label length. */
  const RECORD := Answer(OWNER, TYPE_CNAME, 1, 0x8000_0000, 2, [0xC0, 25])
  const PACKET := Packet(HEADER, [QUESTION], [RECORD], [], [])

  const RECEIVED: bytes :=
    [0, 0, 0x80, 0, 0, 1, 0, 1, 0, 0, 0, 0,
     1, 0x61, 0, 0, 1, 0, 1,
     0xC0, 12, 0, 5, 0, 1, 0x80, 0, 0, 0, 0, 2, 0xC0, 25]

  /** With the owner written out, offset 25 is the low byte of CLASS. */
  const REPRINTED: bytes :=
    [0, 0, 0x80, 0, 0, 1, 0, 1, 0, 0, 0, 0,
     1, 0x61, 0, 0, 1, 0, 1,
     1, 0x61, 0, 0, 5, 0, 1, 0x80, 0, 0, 0, 0, 2, 0xC0, 25]

  lemma OneName(d: bytes, o: nat, text: bytes)
    requires 1 <= |text| <= MAX_LABEL && At(d, o, Prefixed(text) + [0])
    ensures forall hops: nat :: hops <= MAX_POINTER_HOPS ==> ParseName(d, o, hops) == Some(Named([text], o + |text| + 2))
    ensures PrintName([text]) == Prefixed(text) + [0]
  {
    var labels: Labels := [text];
    assert PrintName(labels[1..]) == [0];
    assert PrintName(labels) == Prefixed(text) + [0];
    forall hops: nat | hops <= MAX_POINTER_HOPS ensures ParseName(d, o, hops) == Some(Named([text], o + |text| + 2)) {
      PrintedNameParses(d, o, hops, labels);
    }
  }

  lemma ReceivedNames()
    ensures ParseName(RECEIVED, 12, MAX_POINTER_HOPS) == Some(Named(OWNER, 15))
    ensures ParseName(RECEIVED, 19, MAX_POINTER_HOPS) == Some(Named(OWNER, 21))
    ensures ParseName(RECEIVED, 31, MAX_POINTER_HOPS) == None
  {
    hide ParseName;
    var d := RECEIVED;
    OneName(d, 12, [0x61]);
    PointerParses(d, 19, 12);
    PointerParses(d, 31, 25);
    assert ParseName(d, 25, 15) == None by { TooLong(d, 25, 15); }
  }

  lemma TooLong(d: bytes, o: nat, hops: nat)
    requires o < |d| && MAX_LABEL < d[o] as int && !IsPointer(d[o])
    ensures ParseName(d, o, hops) == None
  {
  }

  lemma ReceivedParses()
    ensures ParseResponse(RECEIVED) == Some(Parsed(PACKET, 33))
  {
    hide ParseName, ParseQuestion, ParseQuestions, ParseAnswer, ParseAnswers, Decompress;
    var d := RECEIVED;
    assert HeaderAt(d) == HEADER;
    QuestionReceived();
    RecordReceived();
    NoQuestions(d, 19);
    ParseQuestionsCons(d, 12, 1);
    NoAnswers(d, 33);
    ParseAnswersCons(d, 19, 1);
    assert [QUESTION] + [] == [QUESTION] && [RECORD] + [] == [RECORD];
  }

  lemma QuestionReceived()
    ensures ParseQuestion(RECEIVED, 12) == Some(QuestionAt(QUESTION, 19))
  {
    hide ParseName;
    ReceivedNames();
  }

  lemma RecordReceived()
    ensures ParseAnswer(RECEIVED, 19) == Some(AnswerAt(RECORD, 33))
  {
    hide ParseName, Decompress;
    var d := RECEIVED;
    ReceivedNames();
    assert Decompress(d, 31, TYPE_CNAME) == None by { Unresolved(d, 31); }
    assert d[31..33] == [0xC0, 25];
  }

  lemma Unresolved(d: bytes, start: nat)
    requires ParseName(d, start, MAX_POINTER_HOPS).None?
    ensures Decompress(d, start, TYPE_CNAME) == None
  {
    hide ParseName;
    assert ParseNames(d, start, 1) == None;
  }

  lemma Resolved(d: bytes, start: nat)
    requires ParseName(d, start, MAX_POINTER_HOPS).Some?
    ensures Decompress(d, start, TYPE_CNAME) == Some(PrintName(ParseName(d, start, MAX_POINTER_HOPS).value.labels))
  {
    hide ParseName, PrintName;
    var name := ParseName(d, start, MAX_POINTER_HOPS).value;
    NoNames(d, name.next);
    ParseNamesCons(d, start, 1);
    var names := [name.labels];
    assert [name.labels] + [] == names;
    PrintNamesFrom(names, 0);
    assert names[0..] == names && names[1..] == [];
    assert PrintNames(names) == PrintName(name.labels);
    assert d[start..start] + PrintNames(names) + d[name.next..name.next] == PrintNames(names);
  }

  lemma PacketPrints()
    ensures PrintResponse(PACKET) == REPRINTED
  {
    hide PrintHeader, PrintName, PrintFixed, PrintQuestions, PrintAnswers, Put16, Put32, Prefixed;
    var name: bytes := [1, 0x61, 0];
    assert PrintHeader(HEADER) == REPRINTED[..12] by { HeaderPrints(); }
    OwnerPrints();
    Words();
    OneQuestion(QUESTION);
    OneAnswer(RECORD);
    assert PrintQuestion(QUESTION) == name + ([0, 1] + [0, 1]);
    QuestionBytes(PrintQuestion(QUESTION));
    assert PrintAnswer(RECORD) == REPRINTED[19..];
  }

  lemma QuestionBytes(q: bytes)
    requires q == [1, 0x61, 0] + ([0, 1] + [0, 1])
    ensures q == REPRINTED[12..19]
  {
    assert q == [1, 0x61, 0, 0, 1, 0, 1];
    var r := REPRINTED[12..19];
    assert r[0] == 1 && r[1] == 0x61 && r[2] == 0 && r[3] == 0 && r[4] == 1 && r[5] == 0 && r[6] == 1;
  }

  lemma OwnerPrints()
    ensures PrintName(OWNER) == [1, 0x61, 0]
  {
    OneName([1, 0x61, 0], 0, [0x61]);
  }

  lemma HeaderPrints()
    ensures PrintHeader(HEADER) == [0, 0, 0x80, 0, 0, 1, 0, 1, 0, 0, 0, 0]
  {
  }

  lemma Words()
    ensures Put16(1) == [0, 1]
    ensures PrintFixed(TYPE_CNAME, 1, 0x8000_0000, 2) == [0, 5, 0, 1, 0x80, 0, 0, 0, 0, 2]
  {
    assert Put32(0x8000_0000) == [0x80, 0, 0, 0];
  }

  lemma OneQuestion(q: Question)
    ensures PrintQuestions([q]) == PrintQuestion(q)
  {
    hide PrintQuestion;
    assert PrintQuestions([q]) == PrintQuestion(q) + PrintQuestions([q][1..]);
  }

  lemma OneAnswer(a: Answer)
    ensures PrintAnswers([a]) == PrintAnswer(a) && PrintAnswers([]) == []
  {
    hide PrintAnswer;
    assert PrintAnswers([a]) == PrintAnswer(a) + PrintAnswers([a][1..]);
  }

  lemma ReprintedResolves()
    ensures Decompress(REPRINTED, 32, TYPE_CNAME) == Some([1, 0x80, 0])
  {
    hide ParseName, Decompress, PrintName;
    var d := REPRINTED;
    OneName(d, 25, [0x80]);
    assert Prefixed([0x80]) + [0] == [1, 0x80, 0];
    PointerParses(d, 32, 25);
    Resolved(d, 32);
  }

  /** Accepted, with every RDATA small enough, and yet printing changes what the message means. */
  lemma PrintingCanChangeMeaning()
    ensures ParseResponse(RECEIVED).Some? && SizedSections(ParseResponse(RECEIVED).value.packet)
    ensures var p := ParseResponse(RECEIVED).value.packet;
            ParseResponse(PrintResponse(p)).Some? && ParseResponse(PrintResponse(p)).value.packet != p
  {
    hide ParseResponse, PrintResponse, StaysRaw;
    ReceivedParses();
    PacketPrints();
    ParsePrintParseExactly(RECEIVED);
    RecordIsNotSettled();
  }

  lemma RecordIsNotSettled()
    ensures !StaysRaw(REPRINTED, AnswersStart(PACKET), PACKET.answers)
  {
    hide Decompress, PrintName, SelfContained;
    ReprintedResolves();
    assert NameSize(OWNER) == 3 by { SizeOfOwner(); }
    assert QuestionsSize([QUESTION]) == 7 by { OneQuestion(QUESTION); }
    assert AnswersStart(PACKET) == 19 && RdataStart(19, RECORD) == 32;
    assert At(REPRINTED, 32, RECORD.rdata);
    if SelfContained(TYPE_CNAME, RECORD.rdata) {
      SelfContainedDecompresses(REPRINTED, 32, TYPE_CNAME, RECORD.rdata);
    }
  }

  lemma SizeOfOwner()
    ensures NameSize(OWNER) == 3
  {
    assert NameSize(OWNER[1..]) == 1;
  }
}
