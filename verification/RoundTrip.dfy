// Printing and parsing responses are inverse, and parsing, printing and parsing
// again changes bytes but not meaning.
module RoundTrip {
  import opened Wire
  import opened Names
  import opened Messages
  import opened Frames

  // ---------------------------------------------------------------------
  // Self-contained RDATA.

  ghost predicate IsLayout(s: Shape, rdata: bytes, prefix: bytes, names: seq<Labels>, suffix: bytes) {
    && |prefix| == s.prefix && |names| == s.names && |suffix| == s.suffix
    && (forall k :: 0 <= k < |names| ==> ValidLabels(names[k]))
    && rdata == prefix + PrintNames(names) + suffix
  }

  /** Name-bearing RDATA that holds whole, uncompressed names and nothing else. */
  ghost predicate SelfContained(rtype: u16, rdata: bytes) {
    ShapeOf(rtype).Some? ==>
      exists prefix, names, suffix :: IsLayout(ShapeOf(rtype).value, rdata, prefix, names, suffix)
  }

  lemma {:induction false} PrintedNamesParse(d: bytes, o: nat, names: seq<Labels>)
    requires forall k :: 0 <= k < |names| ==> ValidLabels(names[k])
    requires At(d, o, PrintNames(names))
    ensures ParseNames(d, o, |names|) == Some(NameList(names, o + |PrintNames(names)|))
    decreases |names|
  {
    hide PrintName, PrintNames, ParseName, ParseNames, At, NameReads, ValidLabels;
    if names == [] {
      NoNames(d, o);
    } else {
      var first, rest := names[0], names[1..];
      assert names[0..] == names;
      PrintNamesFrom(names, 0);
      AtSplit(d, o, PrintName(first), PrintNames(rest));
      PrintedNameParses(d, o, MAX_POINTER_HOPS, first);
      PrintedNamesParse(d, o + |PrintName(first)|, rest);
      ParseNamesCons(d, o, |names|);
      assert [first] + rest == names;
    }
  }

  lemma {:induction false} ParsedNamesAreValid(d: bytes, o: nat, n: nat)
    requires ParseNames(d, o, n).Some?
    ensures forall k :: 0 <= k < n ==> ValidLabels(ParseNames(d, o, n).value.names[k])
    decreases n
  {
    if n > 0 {
      ParsedLabelsAreValid(d, o, MAX_POINTER_HOPS);
      ParsedNamesAreValid(d, ParseName(d, o, MAX_POINTER_HOPS).value.next, n - 1);
    }
  }

  /** What Decompress returns never needs decompressing again. */
  lemma DecompressedIsSelfContained(d: bytes, start: nat, rtype: u16)
    requires Decompress(d, start, rtype).Some?
    ensures SelfContained(rtype, Decompress(d, start, rtype).value)
  {
    hide PrintNames, ParseNames;
    var s := ShapeOf(rtype).value;
    ParsedNamesAreValid(d, start + s.prefix, s.names);
    var list := ParseNames(d, start + s.prefix, s.names).value;
    var prefix, suffix := d[start..start + s.prefix], d[list.next..list.next + s.suffix];
    assert IsLayout(s, prefix + PrintNames(list.names) + suffix, prefix, list.names, suffix);
  }

  /** Self-contained RDATA decompresses to itself, wherever it lies. */
  lemma SelfContainedDecompresses(d: bytes, start: nat, rtype: u16, rdata: bytes)
    requires ShapeOf(rtype).Some? && SelfContained(rtype, rdata) && At(d, start, rdata)
    ensures Decompress(d, start, rtype) == Some(rdata)
  {
    hide PrintNames, ParseNames;
    var s := ShapeOf(rtype).value;
    var prefix, names, suffix :| IsLayout(s, rdata, prefix, names, suffix);
    var middle := PrintNames(names);
    AtSplit(d, start, prefix + middle, suffix);
    AtSplit(d, start, prefix, middle);
    AtSlice(d, start, prefix);
    AtSlice(d, start + |prefix| + |middle|, suffix);
    PrintedNamesParse(d, start + |prefix|, names);
  }

  /** FromWire stores self-contained RDATA exactly when its call to DecompressRDATA succeeds. */
  lemma SelfContainedIffDecompressed(d: bytes, start: nat, length: nat, rtype: u16)
    requires start + length <= |d| && ShapeOf(rtype).Some?
    ensures SelfContained(rtype, StoredRdata(d, start, length, rtype)) <==> Decompress(d, start, rtype).Some?
  {
    if Decompress(d, start, rtype).Some? {
      DecompressedIsSelfContained(d, start, rtype);
    } else if SelfContained(rtype, d[start..start + length]) {
      AtSlice(d, start, d[start..start + length]);
      SelfContainedDecompresses(d, start, rtype, d[start..start + length]);
    }
  }

  // ---------------------------------------------------------------------
  // One record.

  /** UpdateRDLENGTH keeps this: the size fits (its assertion) and the field holds it. */
  predicate Sized(a: Answer) {
    a.rdlength == |a.rdata|
  }

  predicate FixedIn(d: bytes, o: nat, rtype: u16, rclass: u16, ttl: u32, rdlength: u16) {
    && o + 10 <= |d|
    && Get16(d, o) == rtype && Get16(d, o + 2) == rclass
    && Get32(d, o + 4) == ttl && Get16(d, o + 8) == rdlength
  }

  /** The owner name at `o` ends at `f` and the rest of `a` follows it. */
  predicate RecordIn(d: bytes, o: nat, f: nat, a: Answer) {
    && ParseName(d, o, MAX_POINTER_HOPS) == Some(Named(a.name, f))
    && FixedIn(d, f, a.rtype, a.rclass, a.ttl, a.rdlength)
    && f + 10 + |a.rdata| <= |d| && d[f + 10..f + 10 + |a.rdata|] == a.rdata
  }

  /** `d` holds `answers` from `o` on, with their owner names written out. */
  predicate AnswersIn(d: bytes, o: nat, answers: seq<Answer>)
    decreases |answers|
  {
    |answers| > 0 ==>
      RecordIn(d, o, o + NameSize(answers[0].name), answers[0]) &&
      AnswersIn(d, o + AnswerSize(answers[0]), answers[1..])
  }

  lemma PrintedFixed(d: bytes, o: nat, rtype: u16, rclass: u16, ttl: u32, rdlength: u16)
    requires At(d, o, PrintFixed(rtype, rclass, ttl, rdlength))
    ensures FixedIn(d, o, rtype, rclass, ttl, rdlength)
  {
    AtSplit(d, o, Put16(rtype) + Put16(rclass) + Put32(ttl), Put16(rdlength));
    AtSplit(d, o, Put16(rtype) + Put16(rclass), Put32(ttl));
    AtSplit(d, o, Put16(rtype), Put16(rclass));
    AtPut16(d, o, rtype);
    AtPut16(d, o + 2, rclass);
    AtPut32(d, o + 4, ttl);
    AtPut16(d, o + 8, rdlength);
  }

  lemma PrintedAnswer(d: bytes, o: nat, a: Answer)
    requires ValidLabels(a.name) && At(d, o, PrintAnswer(a))
    ensures RecordIn(d, o, o + NameSize(a.name), a)
  {
    hide PrintName, ParseName, PrintFixed;
    var fixed := PrintFixed(a.rtype, a.rclass, a.ttl, a.rdlength);
    var f := o + NameSize(a.name);
    AtSplit(d, o, PrintName(a.name), fixed + a.rdata);
    AtSplit(d, f, fixed, a.rdata);
    PrintedFixed(d, f, a.rtype, a.rclass, a.ttl, a.rdlength);
    PrintedNameParses(d, o, MAX_POINTER_HOPS, a.name);
    AtSlice(d, f + 10, a.rdata);
  }

  lemma {:induction false} PrintedAnswers(d: bytes, o: nat, answers: seq<Answer>)
    requires Printable(answers) && At(d, o, PrintAnswers(answers))
    ensures AnswersIn(d, o, answers)
    decreases |answers|
  {
    hide ParseName, PrintAnswer, At, NameSize, RecordIn;
    if answers != [] {
      AtSplit(d, o, PrintAnswer(answers[0]), PrintAnswers(answers[1..]));
      PrintedAnswer(d, o, answers[0]);
      PrintedAnswers(d, o + AnswerSize(answers[0]), answers[1..]);
    }
  }

  function RdataStart(o: nat, a: Answer): nat {
    o + NameSize(a.name) + 10
  }

  /** Reading the RDATA that lies at `start` of `d` gives back the same RDATA. */
  predicate Settled(d: bytes, start: nat, a: Answer) {
    match Decompress(d, start, a.rtype)
    case None => true
    case Some(expanded) => expanded == a.rdata
  }

  lemma SelfContainedSettles(d: bytes, start: nat, a: Answer)
    requires SelfContained(a.rtype, a.rdata)
    requires start + |a.rdata| <= |d| && d[start..start + |a.rdata|] == a.rdata
    ensures Settled(d, start, a)
  {
    if ShapeOf(a.rtype).Some? {
      AtSlice(d, start, a.rdata);
      SelfContainedDecompresses(d, start, a.rtype, a.rdata);
    }
  }

  lemma RecordParses(d: bytes, o: nat, f: nat, a: Answer)
    requires Sized(a) && RecordIn(d, o, f, a)
    ensures ParseAnswer(d, o).Some? && ParseAnswer(d, o).value.next == f + 10 + |a.rdata|
    ensures ParseAnswer(d, o).value.answer == a <==> Settled(d, f + 10, a)
  {
    hide Decompress, ParseName;
  }

  /**
   * Without the assertion of UpdateRDLENGTH the field wraps around. The printed record still
   * parses, but the next one is looked for in the right place only if the size fits.
   */
  lemma RecordEndsExactly(d: bytes, o: nat, f: nat, a: Answer)
    requires a.rdlength == |a.rdata| % 0x1_0000 && RecordIn(d, o, f, a)
    ensures ParseAnswer(d, o).Some?
    ensures ParseAnswer(d, o).value.next == f + 10 + |a.rdata| <==> Sized(a)
  {
    hide Decompress, ParseName;
  }

  // ---------------------------------------------------------------------
  // Sections.

  predicate AllSettled(d: bytes, o: nat, answers: seq<Answer>)
    decreases |answers|
  {
    |answers| > 0 ==>
      Settled(d, RdataStart(o, answers[0]), answers[0]) &&
      AllSettled(d, o + AnswerSize(answers[0]), answers[1..])
  }

  predicate SizedSection(answers: seq<Answer>) {
    forall k :: 0 <= k < |answers| ==> Sized(answers[k])
  }

  predicate Printable(answers: seq<Answer>) {
    forall k :: 0 <= k < |answers| ==> ValidLabels(answers[k].name)
  }

  lemma {:induction false} AnswersInParse(d: bytes, o: nat, answers: seq<Answer>)
    requires SizedSection(answers) && AnswersIn(d, o, answers)
    ensures ParseAnswers(d, o, |answers|).Some?
    ensures ParseAnswers(d, o, |answers|).value.next == o + AnswersSize(answers)
    ensures ParseAnswers(d, o, |answers|).value.answers == answers <==> AllSettled(d, o, answers)
    decreases |answers|
  {
    hide ParseAnswers, ParseAnswer, Settled, RecordIn, NameSize;
    if answers == [] {
      NoAnswers(d, o);
    } else {
      var a, rest := answers[0], answers[1..];
      RecordParses(d, o, o + NameSize(a.name), a);
      AnswersInParse(d, o + AnswerSize(a), rest);
      ParseAnswersCons(d, o, |answers|);
      var got := ParseAnswers(d, o + AnswerSize(a), |rest|).value.answers;
      SameFirstAndRest(ParseAnswer(d, o).value.answer, got, answers);
    }
  }

  lemma SameFirstAndRest<T>(a: T, rest: seq<T>, all: seq<T>)
    requires |all| == 1 + |rest|
    ensures [a] + rest == all <==> a == all[0] && rest == all[1..]
  {
    assert all == [all[0]] + all[1..];
  }

  lemma {:induction false} SelfContainedSettle(d: bytes, o: nat, answers: seq<Answer>)
    requires SelfContainedSection(answers)
    requires AnswersIn(d, o, answers)
    ensures AllSettled(d, o, answers)
    decreases |answers|
  {
    hide Decompress, ParseName, SelfContained, NameSize;
    if answers != [] {
      var a := answers[0];
      SelfContainedSettles(d, RdataStart(o, a), a);
      SelfContainedSettle(d, o + AnswerSize(a), answers[1..]);
    }
  }

  predicate PrintableQuestions(qs: seq<Question>) {
    forall k :: 0 <= k < |qs| ==> ValidLabels(qs[k].qname)
  }

  lemma PrintedQuestionParses(d: bytes, o: nat, q: Question)
    requires ValidLabels(q.qname) && At(d, o, PrintQuestion(q))
    ensures ParseQuestion(d, o) == Some(QuestionAt(q, o + QuestionSize(q)))
  {
    hide ParseName, PrintName;
    var f := o + NameSize(q.qname);
    AtSplit(d, o, PrintName(q.qname), Put16(q.qtype) + Put16(q.qclass));
    AtSplit(d, f, Put16(q.qtype), Put16(q.qclass));
    PrintedNameParses(d, o, MAX_POINTER_HOPS, q.qname);
    AtPut16(d, f, q.qtype);
    AtPut16(d, f + 2, q.qclass);
  }

  lemma {:induction false} PrintedQuestionsParse(d: bytes, o: nat, qs: seq<Question>)
    requires PrintableQuestions(qs) && At(d, o, PrintQuestions(qs))
    ensures ParseQuestions(d, o, |qs|) == Some(QuestionList(qs, o + QuestionsSize(qs)))
    decreases |qs|
  {
    hide PrintQuestion, PrintQuestions, ParseQuestion, ParseQuestions, At;
    if qs == [] {
      NoQuestions(d, o);
    } else {
      var first, rest := qs[0], qs[1..];
      assert qs[0..] == qs;
      PrintQuestionsFrom(qs, 0);
      AtSplit(d, o, PrintQuestion(first), PrintQuestions(rest));
      PrintedQuestionParses(d, o, first);
      PrintedQuestionsParse(d, o + QuestionSize(first), rest);
      ParseQuestionsCons(d, o, |qs|);
      assert [first] + rest == qs;
    }
  }

  lemma PrintedHeaderParses(d: bytes, h: Header)
    requires At(d, 0, PrintHeader(h))
    ensures HEADER_SIZE <= |d| && HeaderAt(d) == h
  {
    AtSplit(d, 0, Put16(h.id) + Put16(h.flags) + Put16(h.qdcount) + Put16(h.ancount) + Put16(h.nscount), Put16(h.arcount));
    AtSplit(d, 0, Put16(h.id) + Put16(h.flags) + Put16(h.qdcount) + Put16(h.ancount), Put16(h.nscount));
    AtSplit(d, 0, Put16(h.id) + Put16(h.flags) + Put16(h.qdcount), Put16(h.ancount));
    AtSplit(d, 0, Put16(h.id) + Put16(h.flags), Put16(h.qdcount));
    AtSplit(d, 0, Put16(h.id), Put16(h.flags));
    AtPut16(d, 0, h.id);
    AtPut16(d, 2, h.flags);
    AtPut16(d, 4, h.qdcount);
    AtPut16(d, 6, h.ancount);
    AtPut16(d, 8, h.nscount);
    AtPut16(d, 10, h.arcount);
  }

  // ---------------------------------------------------------------------
  // Whole responses.

  /** What a response must satisfy, apart from its RDATA, to survive ToWire and FromWire. */
  predicate WellFormed(p: Packet) {
    && p.header.Qr() && !p.header.Z()
    && p.header.qdcount == |p.questions| && p.header.ancount == |p.answers|
    && p.header.nscount == |p.authority| && p.header.arcount == |p.additional|
    && PrintableQuestions(p.questions)
    && Printable(p.answers) && Printable(p.authority) && Printable(p.additional)
  }

  predicate SizedSections(p: Packet) {
    SizedSection(p.answers) && SizedSection(p.authority) && SizedSection(p.additional)
  }

  function AnswersStart(p: Packet): nat { HEADER_SIZE + QuestionsSize(p.questions) }
  function AuthorityStart(p: Packet): nat { AnswersStart(p) + AnswersSize(p.answers) }
  function AdditionalStart(p: Packet): nat { AuthorityStart(p) + AnswersSize(p.authority) }

  /** Every record's RDATA reads back as itself out of the message `d`. */
  predicate SettledIn(d: bytes, p: Packet) {
    && AllSettled(d, AnswersStart(p), p.answers)
    && AllSettled(d, AuthorityStart(p), p.authority)
    && AllSettled(d, AdditionalStart(p), p.additional)
  }

  predicate RecordsIn(d: bytes, p: Packet) {
    && AnswersIn(d, AnswersStart(p), p.answers)
    && AnswersIn(d, AuthorityStart(p), p.authority)
    && AnswersIn(d, AdditionalStart(p), p.additional)
  }

  lemma PrintedRecords(d: bytes, p: Packet)
    requires WellFormed(p)
    requires At(d, AnswersStart(p), PrintAnswers(p.answers) + (PrintAnswers(p.authority) + PrintAnswers(p.additional)))
    ensures RecordsIn(d, p)
  {
    hide PrintAnswers, AnswersSize, AnswersIn;
    var an, ns, ar := PrintAnswers(p.answers), PrintAnswers(p.authority), PrintAnswers(p.additional);
    AtSplit(d, AnswersStart(p), an, ns + ar);
    AtSplit(d, AnswersStart(p) + |an|, ns, ar);
    PrintedAnswers(d, AnswersStart(p), p.answers);
    PrintedAnswers(d, AuthorityStart(p), p.authority);
    PrintedAnswers(d, AdditionalStart(p), p.additional);
  }

  lemma PrintedResponse(p: Packet)
    requires WellFormed(p)
    ensures var d := PrintResponse(p);
            |d| == ResponseSize(p) && HeaderAt(d) == p.header && At(d, HEADER_SIZE, PrintQuestions(p.questions)) && RecordsIn(d, p)
  {
    hide PrintAnswers, PrintQuestions, AnswersIn, PrintHeader;
    var d := PrintResponse(p);
    var records := PrintAnswers(p.answers) + (PrintAnswers(p.authority) + PrintAnswers(p.additional));
    AtSplit(d, 0, PrintHeader(p.header), PrintQuestions(p.questions) + records);
    AtSplit(d, HEADER_SIZE, PrintQuestions(p.questions), records);
    PrintedHeaderParses(d, p.header);
    PrintedRecords(d, p);
  }

  lemma SectionsParse(d: bytes, p: Packet)
    requires WellFormed(p) && SizedSections(p) && RecordsIn(d, p)
    ensures var r := ParseSections(d, AnswersStart(p), p.header, p.questions);
            && r.Some? && r.value.next == ResponseSize(p)
            && (r.value.packet == p <==> SettledIn(d, p))
  {
    hide ParseAnswers, AnswersIn, AnswersSize, AllSettled;
    AnswersInParse(d, AnswersStart(p), p.answers);
    AnswersInParse(d, AuthorityStart(p), p.authority);
    AnswersInParse(d, AdditionalStart(p), p.additional);
  }

  lemma WellFormedParses(p: Packet)
    requires WellFormed(p) && SizedSections(p)
    ensures var r := ParseResponse(PrintResponse(p));
            && r.Some? && r.value.next == ResponseSize(p)
            && (r.value.packet == p <==> SettledIn(PrintResponse(p), p))
  {
    hide ParseAnswers, ParseQuestions, PrintQuestions, PrintResponse, AnswersIn, AllSettled;
    var d := PrintResponse(p);
    PrintedResponse(p);
    PrintedQuestionsParse(d, HEADER_SIZE, p.questions);
    SectionsParse(d, p);
  }

  lemma {:induction false} ParsedQuestionsArePrintable(d: bytes, o: nat, n: nat)
    requires ParseQuestions(d, o, n).Some?
    ensures PrintableQuestions(ParseQuestions(d, o, n).value.questions)
    decreases n
  {
    if n > 0 {
      ParsedLabelsAreValid(d, o, MAX_POINTER_HOPS);
      ParsedQuestionsArePrintable(d, ParseQuestion(d, o).value.next, n - 1);
    }
  }

  lemma ParsedOwnerIsValid(d: bytes, o: nat)
    requires ParseAnswer(d, o).Some?
    ensures ValidLabels(ParseAnswer(d, o).value.answer.name)
  {
    hide ParseName, StoredRdata;
    ParsedLabelsAreValid(d, o, MAX_POINTER_HOPS);
  }

  lemma {:induction false} ParsedOwnersAreValid(d: bytes, o: nat, n: nat)
    requires ParseAnswers(d, o, n).Some?
    ensures forall k :: 0 <= k < n ==> ValidLabels(ParseAnswers(d, o, n).value.answers[k].name)
    decreases n
  {
    hide ParseAnswer, ValidLabels;
    if n > 0 {
      ParsedOwnerIsValid(d, o);
      ParsedOwnersAreValid(d, ParseAnswer(d, o).value.next, n - 1);
    }
  }

  /** Whatever FromWire accepts is well formed. */
  lemma ParsedIsWellFormed(d: bytes)
    requires ParseResponse(d).Some?
    ensures WellFormed(ParseResponse(d).value.packet)
  {
    var h := HeaderAt(d);
    var an, ns, ar := AnswersAt(d), AuthorityAt(d), AdditionalAt(d);
    ResponseParts(d);
    ParsedQuestionsArePrintable(d, HEADER_SIZE, h.qdcount);
    ParsedOwnersAreValid(d, an, h.ancount);
    ParsedOwnersAreValid(d, ns, h.nscount);
    ParsedOwnersAreValid(d, ar, h.arcount);
  }

  /**
   * Among packets whose RDLENGTH fields are right (what UpdateRDLENGTH asserts),
   * ToWire followed by FromWire gives the packet back exactly when it is a well-formed
   * response and no RDATA changes when its names are expanded in the printed message.
   */
  lemma RoundTripExactly(p: Packet)
    requires SizedSections(p)
    ensures (ParseResponse(PrintResponse(p)).Some? && ParseResponse(PrintResponse(p)).value.packet == p)
            <==> WellFormed(p) && SettledIn(PrintResponse(p), p)
  {
    var d := PrintResponse(p);
    if WellFormed(p) {
      WellFormedParses(p);
    } else if ParseResponse(d).Some? && ParseResponse(d).value.packet == p {
      ParsedIsWellFormed(d);
    }
  }

  ghost predicate SelfContainedSection(answers: seq<Answer>) {
    forall k :: 0 <= k < |answers| ==> SelfContained(answers[k].rtype, answers[k].rdata)
  }

  /** Records with self-contained RDATA always survive, and ToWire's bytes are all consumed. */
  lemma SelfContainedRoundTrip(p: Packet)
    requires WellFormed(p) && SizedSections(p)
    requires SelfContainedSection(p.answers) && SelfContainedSection(p.authority) && SelfContainedSection(p.additional)
    ensures ParseResponse(PrintResponse(p)) == Some(Parsed(p, |PrintResponse(p)|))
  {
    var d := PrintResponse(p);
    PrintedResponse(p);
    SelfContainedSettle(d, AnswersStart(p), p.answers);
    SelfContainedSettle(d, AuthorityStart(p), p.authority);
    SelfContainedSettle(d, AdditionalStart(p), p.additional);
    WellFormedParses(p);
  }

  // ---------------------------------------------------------------------
  // Parse, print, parse.

  predicate ResponseDecompresses(d: bytes)
    requires ParseResponse(d).Some?
  {
    var h := HeaderAt(d);
    var an, ns, ar := AnswersAt(d), AuthorityAt(d), AdditionalAt(d);
    AllDecompress(d, an, h.ancount) && AllDecompress(d, ns, h.nscount) && AllDecompress(d, ar, h.arcount)
  }

  lemma FirstRecordSelfContained(d: bytes, o: nat)
    requires ParseAnswer(d, o).Some?
    ensures var f := ParseName(d, o, MAX_POINTER_HOPS).value.next;
            var a := ParseAnswer(d, o).value.answer;
            SelfContained(a.rtype, a.rdata) <==>
              (ShapeOf(Get16(d, f)).Some? ==> Decompress(d, f + 10, Get16(d, f)).Some?)
  {
    hide Decompress, ParseName;
    var f := ParseName(d, o, MAX_POINTER_HOPS).value.next;
    if ShapeOf(Get16(d, f)).Some? {
      SelfContainedIffDecompressed(d, f + 10, Get16(d, f + 8), Get16(d, f));
    }
  }

  lemma SelfContainedCons(a: Answer, rest: seq<Answer>)
    ensures SelfContainedSection([a] + rest) <==> SelfContained(a.rtype, a.rdata) && SelfContainedSection(rest)
  {
    hide SelfContained;
    var all := [a] + rest;
    assert all[0] == a && forall k :: 0 <= k < |rest| ==> all[1 + k] == rest[k];
    if SelfContainedSection(all) {
      forall k | 0 <= k < |rest| ensures SelfContained(rest[k].rtype, rest[k].rdata) {
        assert all[1 + k] == rest[k];
      }
    }
  }

  lemma {:induction false} StoredSelfContained(d: bytes, o: nat, n: nat)
    requires ParseAnswers(d, o, n).Some?
    ensures AllDecompress(d, o, n) <==> SelfContainedSection(ParseAnswers(d, o, n).value.answers)
    decreases n
  {
    hide ParseAnswer, Decompress, SelfContained, Get16;
    if n > 0 {
      FirstRecordSelfContained(d, o);
      var first := ParseAnswer(d, o).value;
      StoredSelfContained(d, first.next, n - 1);
      SelfContainedCons(first.answer, ParseAnswers(d, first.next, n - 1).value.answers);
    }
  }

  /** After FromWire, self-contained RDATA throughout means that no DecompressRDATA call failed. */
  lemma ResponseSelfContained(d: bytes)
    requires ParseResponse(d).Some?
    ensures var p := ParseResponse(d).value.packet;
            ResponseDecompresses(d) <==>
              SelfContainedSection(p.answers) && SelfContainedSection(p.authority) && SelfContainedSection(p.additional)
  {
    var h := HeaderAt(d);
    var an, ns, ar := AnswersAt(d), AuthorityAt(d), AdditionalAt(d);
    ResponseParts(d);
    StoredSelfContained(d, an, h.ancount);
    StoredSelfContained(d, ns, h.nscount);
    StoredSelfContained(d, ar, h.arcount);
  }

  /**
   * Parse, print, parse. If FromWire accepts `d`, every DecompressRDATA call succeeds and
   * every stored RDATA fits RDLENGTH, then the printed packet, which has no compression
   * pointer left, parses to the same packet.
   */
  lemma ParsePrintParse(d: bytes)
    requires ParseResponse(d).Some? && ResponseDecompresses(d)
    requires SizedSections(ParseResponse(d).value.packet)
    ensures var p := ParseResponse(d).value.packet;
            ParseResponse(PrintResponse(p)) == Some(Parsed(p, |PrintResponse(p)|))
  {
    ParsedIsWellFormed(d);
    ResponseSelfContained(d);
    SelfContainedRoundTrip(ParseResponse(d).value.packet);
  }
}
