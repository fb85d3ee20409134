// What the built messages mean: the parser reads back exactly what the builders
// were given.
module BuilderMeaning {
  import opened Wire
  import opened Names
  import opened Messages
  import opened Frames
  import opened RoundTrip
  import opened Responses
  import opened CacheMeaning
  import opened RdataMeaning

  // ---------------------------------------------------------------------
  // Built RDATA is self-contained.

  lemma OneNameLayout(prefix: bytes, ls: Labels)
    requires LabelsWire(ls).Some?
    ensures IsLayout(Shape(|prefix|, 1, 0), prefix + LabelsWire(ls).value, prefix, [ls], [])
  {
    hide PrintName;
    assert [ls][1..] == [];
    assert PrintNames([ls]) == PrintName(ls);
    assert prefix + PrintName(ls) + [] == prefix + PrintName(ls);
  }

  lemma TwoNameLayout(m: Labels, r: Labels, suffix: bytes)
    requires LabelsWire(m).Some? && LabelsWire(r).Some? && |suffix| == 20
    ensures IsLayout(Shape(0, 2, 20), LabelsWire(m).value + LabelsWire(r).value + suffix, [], [m, r], suffix)
  {
    hide PrintName;
    assert [m, r][1..] == [r] && [r][1..] == [];
    assert PrintNames([r]) == PrintName(r);
    assert PrintNames([m, r]) == PrintName(m) + PrintName(r);
    assert [] + (PrintName(m) + PrintName(r)) + suffix == PrintName(m) + PrintName(r) + suffix;
  }

  lemma DomainIsSelfContained(rtype: u16, prefix: bytes, s: bytes)
    requires NameWire(s).Some? && ShapeOf(rtype) == Some(Shape(|prefix|, 1, 0))
    ensures SelfContained(rtype, prefix + NameWire(s).value)
  {
    hide NameWire, IsLayout;
    NameWireIsLabels(s);
    OneNameLayout(prefix, TextLabels(s));
  }

  lemma SoaIsSelfContained(m: bytes, r: bytes, suffix: bytes)
    requires NameWire(m).Some? && NameWire(r).Some? && |suffix| == 20
    ensures SelfContained(TYPE_SOA, NameWire(m).value + NameWire(r).value + suffix)
  {
    hide NameWire, IsLayout;
    NameWireIsLabels(m);
    NameWireIsLabels(r);
    TwoNameLayout(TextLabels(m), TextLabels(r), suffix);
  }

  lemma BuiltRdataIsSelfContained(rtype: string, data: Json)
    requires RdataOf(rtype, data).Some?
    ensures SelfContained(RdataOf(rtype, data).value.rtype, RdataOf(rtype, data).value.rdata)
  {
    hide NameWire, SelfContained, Put16, Put32;
    var x := RdataOf(rtype, data).value;
    if x.rtype == TYPE_A || x.rtype == TYPE_AAAA || x.rtype == TYPE_TXT {
      PlainIsSelfContained(x.rtype, x.rdata);
    } else if x.rtype == TYPE_SOA {
      SoaIsSelfContained(data.fields["primary"].s, data.fields["admin"].s, x.rdata[|x.rdata| - 20..]);
      SuffixOf(FieldName(data, "primary").value + FieldName(data, "admin").value, x.rdata);
    } else if x.rtype == TYPE_MX {
      DomainIsSelfContained(TYPE_MX, Put16(Number16(data, "preference")), data.fields["exchange"].s);
    } else if x.rtype == TYPE_SRV {
      DomainIsSelfContained(TYPE_SRV, Put16(Number16(data, "priority")) + Put16(Number16(data, "weight")) + Put16(Number16(data, "port")),
                            data.fields["target"].s);
    } else {
      DomainIsSelfContained(x.rtype, [], data.s);
      assert [] + x.rdata == x.rdata;
    }
  }

  lemma SuffixOf(x: bytes, y: bytes)
    requires |x| + 20 == |y| && y[..|x|] == x
    ensures y == x + y[|y| - 20..]
  {
  }

  lemma PlainIsSelfContained(rtype: u16, rdata: bytes)
    requires ShapeOf(rtype).None?
    ensures SelfContained(rtype, rdata)
  {
  }

  /** Resolving names in self-contained RDATA never looks before it. */
  lemma {:induction false} PrintedNamesRead(d: bytes, o: nat, names: seq<Labels>)
    requires forall k :: 0 <= k < |names| ==> ValidLabels(names[k])
    requires At(d, o, PrintNames(names))
    ensures forall i: nat :: NamesRead(d, o, |names|, i) ==> o <= i
    decreases |names|
  {
    hide PrintName, PrintNames, ParseName, NameReads, At, ValidLabels;
    if names != [] {
      assert names[0..] == names;
      PrintNamesFrom(names, 0);
      AtSplit(d, o, PrintName(names[0]), PrintNames(names[1..]));
      PrintedNameParses(d, o, MAX_POINTER_HOPS, names[0]);
      PrintedNamesRead(d, o + NameSize(names[0]), names[1..]);
    }
  }

  lemma SelfContainedReads(d: bytes, start: nat, rtype: u16, rdata: bytes)
    requires SelfContained(rtype, rdata) && At(d, start, rdata)
    ensures forall i: nat :: RdataReads(d, start, rtype, i) ==> start <= i
  {
    hide PrintNames, ParseNames, NamesRead, At;
    if ShapeOf(rtype).Some? {
      var s := ShapeOf(rtype).value;
      var prefix, names, suffix :| IsLayout(s, rdata, prefix, names, suffix);
      AtSplit(d, start, prefix + PrintNames(names), suffix);
      AtSplit(d, start, prefix, PrintNames(names));
      PrintedNamesRead(d, start + |prefix|, names);
      PrintedNamesParse(d, start + |prefix|, names);
    }
  }

  // ---------------------------------------------------------------------
  // Records.

  /** The record that a piece stands for under the question name `qname`. */
  function PieceAnswer(x: Piece, qname: Labels, qclass: u16, ttl: u32): Answer {
    Answer(if x.name == [] then qname else TextLabels(x.name), x.rtype, qclass, ttl, |x.rdata| % 0x1_0000, x.rdata)
  }

  function PieceAnswers(xs: seq<Piece>, qname: Labels, qclass: u16, ttl: u32): (r: seq<Answer>)
    ensures |r| == |xs| && forall k :: 0 <= k < |r| ==> r[k] == PieceAnswer(xs[k], qname, qclass, ttl)
  {
    if xs == [] then [] else [PieceAnswer(xs[0], qname, qclass, ttl)] + PieceAnswers(xs[1..], qname, qclass, ttl)
  }

  ghost predicate SelfContainedPieces(xs: seq<Piece>) {
    forall k :: 0 <= k < |xs| ==> SelfContained(xs[k].rtype, xs[k].rdata)
  }

  /** The question's name is written out at offset 12, where the pointer 0xC00C points. */
  predicate QuestionNameIn(d: bytes, qname: Labels) {
    LabelsWire(qname).Some? && At(d, HEADER_SIZE, LabelsWire(qname).value)
  }

  ghost predicate NameAvoidsHeader(d: bytes, o: nat) {
    forall i: nat :: NameReads(d, o, MAX_POINTER_HOPS, i) ==> HEADER_SIZE <= i
  }

  ghost predicate RdataAvoidsHeader(d: bytes, start: nat, rtype: u16) {
    forall i: nat :: RdataReads(d, start, rtype, i) ==> HEADER_SIZE <= i
  }

  /** Resolving the names of the `n` records at `o` never looks at the header. */
  ghost predicate RecordsAvoidHeader(d: bytes, o: nat, n: nat) {
    forall i: nat :: AnswersRead(d, o, n, i) ==> HEADER_SIZE <= i
  }

  /** Nothing in the record at `o` is resolved through the header, and nothing fails to resolve. */
  ghost predicate RecordStandsAlone(d: bytes, o: nat)
    requires ParseAnswer(d, o).Some?
  {
    var f := FieldsOf(d, o);
    && NameAvoidsHeader(d, o) && RdataAvoidsHeader(d, f + 10, Get16(d, f))
    && (ShapeOf(Get16(d, f)).Some? ==> Decompress(d, f + 10, Get16(d, f)).Some?)
  }

  ghost predicate SectionStandsAlone(d: bytes, o: nat, n: nat)
    requires ParseAnswers(d, o, n).Some?
  {
    RecordsAvoidHeader(d, o, n) && AllDecompress(d, o, n)
  }

  /** An owner name resolves to the given name, or through the pointer to the question's. */
  lemma OwnerParses(d: bytes, o: nat, name: bytes, qname: Labels)
    requires OwnerWire(name).Some? && At(d, o, OwnerWire(name).value)
    requires QuestionNameIn(d, qname) && HEADER_SIZE <= o
    ensures ParseName(d, o, MAX_POINTER_HOPS) ==
            Some(Named(if name == [] then qname else TextLabels(name), o + |OwnerWire(name).value|))
    ensures NameAvoidsHeader(d, o)
  {
    if name == [] {
      AtByte(d, o, Put16(QUESTION_POINTER), 0);
      AtByte(d, o, Put16(QUESTION_POINTER), 1);
      assert IsPointer(d[o]) && Target(d, o) == HEADER_SIZE;
      EncodedNameParses(d, HEADER_SIZE, MAX_POINTER_HOPS - 1, qname);
    } else {
      NameWireIsLabels(name);
      EncodedNameParses(d, o, MAX_POINTER_HOPS, TextLabels(name));
    }
  }

  lemma PieceParses(d: bytes, o: nat, x: Piece, qname: Labels, qclass: u16, ttl: u32)
    requires PieceWire(x, qclass, ttl).Some? && At(d, o, PieceWire(x, qclass, ttl).value)
    requires QuestionNameIn(d, qname) && HEADER_SIZE <= o && SelfContained(x.rtype, x.rdata)
    ensures ParseAnswer(d, o) == Some(AnswerAt(PieceAnswer(x, qname, qclass, ttl), o + |PieceWire(x, qclass, ttl).value|))
    ensures RecordStandsAlone(d, o)
  {
    hide OwnerWire, ParseName, NameReads, At, PrintFixed, Decompress, SelfContained, RdataReads, TextLabels, Get16, Get32;
    var owner := OwnerWire(x.name).value;
    var a, f := PieceAnswer(x, qname, qclass, ttl), o + |owner|;
    var fixed := PrintFixed(x.rtype, qclass, ttl, |x.rdata|);
    AtSplit(d, o, owner, fixed + x.rdata);
    AtSplit(d, f, fixed, x.rdata);
    OwnerParses(d, o, x.name, qname);
    PrintedFixed(d, f, x.rtype, qclass, ttl, |x.rdata|);
    AtSlice(d, f + 10, x.rdata);
    RecordParses(d, o, f, a);
    SelfContainedSettles(d, f + 10, a);
    SelfContainedReads(d, f + 10, x.rtype, x.rdata);
    if ShapeOf(x.rtype).Some? {
      SelfContainedDecompresses(d, f + 10, x.rtype, x.rdata);
    }
  }

  /** A list of records reads back in order; no name is resolved through the header, none fails. */
  lemma {:induction false} PiecesParse(d: bytes, o: nat, xs: seq<Piece>, qname: Labels, qclass: u16, ttl: u32)
    requires PiecesWire(xs, qclass, ttl).Some? && At(d, o, PiecesWire(xs, qclass, ttl).value)
    requires QuestionNameIn(d, qname) && HEADER_SIZE <= o && SelfContainedPieces(xs)
    ensures ParseAnswers(d, o, |xs|) ==
            Some(AnswerList(PieceAnswers(xs, qname, qclass, ttl), o + |PiecesWire(xs, qclass, ttl).value|))
    ensures SectionStandsAlone(d, o, |xs|)
    decreases |xs|
  {
    hide PieceWire, PieceAnswer, ParseAnswers, ParseAnswer, At, QuestionNameIn, SelfContained, RecordStandsAlone, SectionStandsAlone;
    if xs == [] {
      NoAnswers(d, o);
      NothingRead(d, o);
    } else {
      var x, rest := xs[0], xs[1..];
      var wire := PieceWire(x, qclass, ttl).value;
      AtSplit(d, o, wire, PiecesWire(rest, qclass, ttl).value);
      PieceParses(d, o, x, qname, qclass, ttl);
      PiecesParse(d, o + |wire|, rest, qname, qclass, ttl);
      ParseAnswersCons(d, o, |xs|);
      SectionCons(d, o, |xs|);
    }
  }

  lemma SectionCons(d: bytes, o: nat, n: nat)
    requires n > 0 && ParseAnswer(d, o).Some? && ParseAnswers(d, o, n).Some?
    requires ParseAnswers(d, ParseAnswer(d, o).value.next, n - 1).Some?
    requires RecordStandsAlone(d, o) && SectionStandsAlone(d, ParseAnswer(d, o).value.next, n - 1)
    ensures SectionStandsAlone(d, o, n)
  {
    hide ParseAnswer, ParseAnswers, NameReads, RdataReads, Decompress, ShapeOf, Get16;
    forall i: nat | AnswersRead(d, o, n, i) ensures HEADER_SIZE <= i {
      assert NameReads(d, o, MAX_POINTER_HOPS, i) || RdataReads(d, FieldsOf(d, o) + 10, Get16(d, FieldsOf(d, o)), i)
          || AnswersRead(d, ParseAnswer(d, o).value.next, n - 1, i);
    }
  }

  // ---------------------------------------------------------------------
  // Messages.

  /** Parsing `d` resolves every name without looking at the header, and never fails to decompress. */
  ghost predicate HeaderFree(d: bytes)
    requires ParseResponse(d).Some?
  {
    ResponseDecompresses(d) && forall i: nat :: ResolutionReads(d, i) ==> HEADER_SIZE <= i
  }

  /** A message of one question and two sections reads back as exactly what was put in. */
  lemma MessageMeaning(h: Header, questions: seq<Question>, answers: seq<Piece>, authority: seq<Piece>, ttl: u32)
    requires MessageWire(h, questions, answers, authority, ttl).Some?
    requires h.Qr() && !h.Z() && h.qdcount == 1
    requires h.ancount == |answers| && h.nscount == |authority| && h.arcount == 0
    requires SelfContainedPieces(answers) && SelfContainedPieces(authority)
    ensures var d, q := MessageWire(h, questions, answers, authority, ttl).value, questions[0];
            && ParseResponse(d) == Some(Parsed(
                 Packet(h, [q], PieceAnswers(answers, q.qname, q.qclass, ttl), PieceAnswers(authority, q.qname, q.qclass, ttl), []), |d|))
            && HeaderFree(d)
  {
    hide PrintHeader, PiecesWire, LabelsWire, ParseQuestions, ParseAnswers, PieceAnswers, SelfContainedPieces, Put16, At,
         AnswersRead, QuestionsRead, AllDecompress, QuestionNameIn, Header.Qr, Header.Z;
    var d, q := MessageWire(h, questions, answers, authority, ttl).value, questions[0];
    var an, ns := PiecesWire(answers, q.qclass, ttl).value, PiecesWire(authority, q.qclass, ttl).value;
    var qw := QuestionWire(q).value;
    MessageLayout(d, PrintHeader(h), qw, an, ns);
    PrintedHeaderParses(d, h);
    BuiltQuestionParses(d, q);
    var o := HEADER_SIZE + |qw|;
    PiecesParse(d, o, answers, q.qname, q.qclass, ttl);
    PiecesParse(d, o + |an|, authority, q.qname, q.qclass, ttl);
    NoAnswers(d, |d|);
    NothingRead(d, |d|);
  }

  lemma MessageLayout(d: bytes, h: bytes, q: bytes, an: bytes, ns: bytes)
    requires d == h + (q + (an + ns)) && |h| == HEADER_SIZE
    ensures At(d, 0, h) && At(d, HEADER_SIZE, q) && At(d, HEADER_SIZE + |q|, an) && At(d, HEADER_SIZE + |q| + |an|, ns)
    ensures |d| == HEADER_SIZE + |q| + |an| + |ns|
  {
    hide At;
    assert At(d, 0, d) by { AtSlice(d, 0, d); }
    AtSplit(d, 0, h, q + (an + ns));
    AtSplit(d, HEADER_SIZE, q, an + ns);
    AtSplit(d, HEADER_SIZE + |q|, an, ns);
  }

  lemma BuiltQuestionParses(d: bytes, q: Question)
    requires QuestionWire(q).Some? && At(d, HEADER_SIZE, QuestionWire(q).value)
    ensures QuestionNameIn(d, q.qname)
    ensures ParseQuestions(d, HEADER_SIZE, 1) == Some(QuestionList([q], HEADER_SIZE + |QuestionWire(q).value|))
    ensures forall i: nat :: QuestionsRead(d, HEADER_SIZE, 1, i) ==> HEADER_SIZE <= i
  {
    hide ParseName, NameReads, At, PrintName, ParseQuestions, ParseQuestion, NameSize, Put16;
    AtSplit(d, HEADER_SIZE, LabelsWire(q.qname).value, Put16(q.qtype) + Put16(q.qclass));
    EncodedNameParses(d, HEADER_SIZE, MAX_POINTER_HOPS, q.qname);
    assert QuestionWire(q).value == PrintQuestion(q);
    PrintedQuestionParses(d, HEADER_SIZE, q);
    NoQuestions(d, HEADER_SIZE + |QuestionWire(q).value|);
    ParseQuestionsCons(d, HEADER_SIZE, 1);
    assert [q] + [] == [q];
  }

  lemma NothingRead(d: bytes, o: nat)
    requires ParseAnswers(d, o, 0).Some?
    ensures SectionStandsAlone(d, o, 0)
    ensures forall i: nat :: !AnswersRead(d, o, 0, i)
  {
  }

  /**
   * A reply's header: the request's ID, one question and the given record counts; QR and RA set, RD as in
   * the request, AA as asked, RCODE in the low four bits; OPCODE, TC and the three reserved bits 0.
   */
  predicate RepliesTo(h: Header, request: Header, rcode: nat, authoritative: bool, ancount: nat, nscount: nat, arcount: nat) {
    && h.id == request.id
    && h.flags / 0x8000 == 1 && h.flags / 0x800 % 0x10 == 0
    && (h.flags / 0x400 % 2 == 1 <==> authoritative) && h.flags / 0x200 % 2 == 0
    && h.flags / 0x100 % 2 == request.flags / 0x100 % 2
    && h.flags / 0x80 % 2 == 1 && h.flags / 0x10 % 8 == 0 && h.flags % 0x10 == rcode % 0x10
    && h.qdcount == 1 && h.ancount == ancount && h.nscount == nscount && h.arcount == arcount
  }

  lemma HeaderMeaning(request: Header, rcode: nat, ancount: u16, nscount: u16, arcount: u16, authoritative: bool)
    ensures RepliesTo(StandardHeader(request, rcode, ancount, nscount, arcount, authoritative),
                      request, rcode, authoritative, ancount, nscount, arcount)
    ensures var h := StandardHeader(request, rcode, ancount, nscount, arcount, authoritative); h.Qr() && !h.Z()
  {
    FlagsMeaning(rcode % 0x10, request.flags / 0x100 % 2, if authoritative then 1 else 0);
  }

  lemma FlagsMeaning(r: nat, rd: nat, aa: nat)
    requires r < 0x10 && rd < 2 && aa < 2
    ensures var f := 0x8080 + r + 0x100 * rd + 0x400 * aa;
            && f / 0x8000 == 1 && f / 0x800 % 0x10 == 0 && f / 0x400 % 2 == aa && f / 0x200 % 2 == 0
            && f / 0x100 % 2 == rd && f / 0x80 % 2 == 1 && f / 0x40 % 2 == 0 && f / 0x10 % 8 == 0 && f % 0x10 == r
  {
    var f := 0x8080 + r + 0x100 * rd + 0x400 * aa;
    assert f % 0x10 == r && f / 0x10 == 0x808 + 0x10 * rd + 0x40 * aa;
    assert f / 0x100 == 0x80 + rd + 4 * aa;
  }

  /** The record that zone data stands for: its type and RDATA, under the question's class and the default TTL. */
  function ZoneAnswer(r: AnswerRecord, q: Question, ttl: u32): Answer
    requires RdataOf(r.rtype, r.data).Some?
  {
    var x := RdataOf(r.rtype, r.data).value;
    Answer(if r.name == [] then q.qname else TextLabels(r.name), x.rtype, q.qclass, ttl, |x.rdata| % 0x1_0000, x.rdata)
  }

  lemma {:induction false} RecordPiecesMeaning(rs: seq<AnswerRecord>)
    requires RecordPieces(rs).Some?
    ensures SelfContainedPieces(RecordPieces(rs).value)
    ensures forall k :: 0 <= k < |rs| ==>
              RdataOf(rs[k].rtype, rs[k].data).Some? &&
              RecordPieces(rs).value[k] == Piece(rs[k].name, RdataOf(rs[k].rtype, rs[k].data).value.rtype, RdataOf(rs[k].rtype, rs[k].data).value.rdata)
  {
    hide RdataOf, SelfContained;
    if rs != [] {
      BuiltRdataIsSelfContained(rs[0].rtype, rs[0].data);
      RecordPiecesMeaning(rs[1..]);
    }
  }

  /**
   * MultiAnswer means what it is given. When it returns 0, parsing its output consumes every
   * byte and yields the question and exactly the given records, in order, and their RDATA gives
   * back the numbers, names, strings and addresses of the zone data.
   */
  lemma MultiAnswerMeaning(request: Header, questions: seq<Question>, rs: seq<AnswerRecord>, ttl: u32)
    requires MultiAnswerWire(request, questions, rs, ttl).Some?
    ensures questions != [] && |rs| <= 0xFFFF && forall k :: 0 <= k < |rs| ==> RdataOf(rs[k].rtype, rs[k].data).Some?
    ensures var d := MultiAnswerWire(request, questions, rs, ttl).value;
            var r := ParseResponse(d);
            && r.Some? && r.value.next == |d| && HeaderFree(d)
            && r.value.packet.header == StandardHeader(request, RCODE_NOERROR, |rs|, 0, 0, true)
            && RepliesTo(r.value.packet.header, request, 0, true, |rs|, 0, 0)
            && r.value.packet.questions == [questions[0]]
            && |r.value.packet.answers| == |rs|
            && (forall k :: 0 <= k < |rs| ==> r.value.packet.answers[k] == ZoneAnswer(rs[k], questions[0], ttl))
            && (forall k :: 0 <= k < |rs| ==>
                  var a := r.value.packet.answers[k]; Holds(rs[k].rtype, rs[k].data, Rdata(a.rtype, a.rdata)))
            && r.value.packet.authority == [] && r.value.packet.additional == []
  {
    hide RdataOf, SelfContained, HeaderFree, ParseResponse, PiecesWire, QuestionWire, PrintHeader, Holds, RepliesTo;
    HeaderMeaning(request, RCODE_NOERROR, |rs|, 0, 0, true);
    var xs := RecordPieces(rs).value;
    var h := StandardHeader(request, RCODE_NOERROR, |rs|, 0, 0, true);
    RecordPiecesMeaning(rs);
    MessageMeaning(h, questions, xs, [], ttl);
    forall k | 0 <= k < |rs| ensures Holds(rs[k].rtype, rs[k].data, RdataOf(rs[k].rtype, rs[k].data).value) {
      RdataHolds(rs[k].rtype, rs[k].data);
    }
  }

  /** NXDOMAIN reads back as the question and, if the zone's names can be encoded, one SOA record. */
  lemma NxDomainMeaning(request: Header, questions: seq<Question>, zone: bytes, ttl: u32)
    requires NxDomainWire(request, questions, zone, ttl).Some?
    ensures questions != []
    ensures var d := NxDomainWire(request, questions, zone, ttl).value;
            var soa := if zone == [] then None else ZoneSoa(zone, ttl);
            var authority := if soa.None? then [] else
              [Answer(TextLabels(zone), TYPE_SOA, questions[0].qclass, ttl, |soa.value.rdata| % 0x1_0000, soa.value.rdata)];
            && ParseResponse(d) == Some(Parsed(
                 Packet(StandardHeader(request, RCODE_NXDOMAIN, 0, |authority|, 0, true), [questions[0]], [], authority, []), |d|))
            && HeaderFree(d)
            && RepliesTo(StandardHeader(request, RCODE_NXDOMAIN, 0, |authority|, 0, true), request, 3, true, 0, |authority|, 0)
            && (soa.Some? ==> HoldsSoa(authority[0].rdata, NS_PREFIX + zone + [DOT], HOSTMASTER_PREFIX + zone + [DOT],
                                       1, 86400, 3600, 604800, ttl))
  {
    hide SelfContained, HeaderFree, ParseResponse, PiecesWire, QuestionWire, PrintHeader, NameWire, TextLabels, SoaTimers, HoldsSoa, RepliesTo;
    HeaderMeaning(request, RCODE_NXDOMAIN, 0, 0, 0, true);
    HeaderMeaning(request, RCODE_NXDOMAIN, 0, 1, 0, true);
    if zone != [] && ZoneSoa(zone, ttl).Some? {
      var x := ZoneSoa(zone, ttl).value;
      ZoneSoaHolds(zone, ttl);
      SoaIsSelfContained(NS_PREFIX + zone + [DOT], HOSTMASTER_PREFIX + zone + [DOT], SoaTimers(ttl));
      MessageMeaning(StandardHeader(request, RCODE_NXDOMAIN, 0, 1, 0, true), questions, [], [x], ttl);
      var a := PieceAnswer(x, questions[0].qname, questions[0].qclass, ttl);
      assert PieceAnswers([x], questions[0].qname, questions[0].qclass, ttl) == [a];
    } else {
      PlainMeaning(request, questions, RCODE_NXDOMAIN, true);
    }
  }

  /** A reply without records reads back as its header and question. */
  lemma PlainMeaning(request: Header, questions: seq<Question>, rcode: nat, authoritative: bool)
    requires PlainWire(request, questions, rcode, authoritative).Some?
    ensures var d := PlainWire(request, questions, rcode, authoritative).value;
            && questions != []
            && ParseResponse(d) == Some(Parsed(
                 Packet(StandardHeader(request, rcode, 0, 0, 0, authoritative), [questions[0]], [], [], []), |d|))
            && HeaderFree(d)
            && RepliesTo(StandardHeader(request, rcode, 0, 0, 0, authoritative), request, rcode, authoritative, 0, 0, 0)
  {
    hide SelfContained, HeaderFree, ParseResponse, QuestionWire, PrintHeader, RepliesTo;
    HeaderMeaning(request, rcode, 0, 0, 0, authoritative);
    MessageMeaning(StandardHeader(request, rcode, 0, 0, 0, authoritative), questions, [], [], 0);
  }

  // ---------------------------------------------------------------------
  // When the builders succeed.

  predicate CanOwn(name: bytes) {
    name == [] || Encodable(name)
  }

  predicate CanBuild(r: AnswerRecord) {
    Acceptable(r.rtype, r.data) && CanOwn(r.name)
  }

  lemma {:induction false} RecordsAccepted(rs: seq<AnswerRecord>, qclass: u16, ttl: u32)
    ensures RecordPieces(rs).Some? && PiecesWire(RecordPieces(rs).value, qclass, ttl).Some? <==>
            forall k :: 0 <= k < |rs| ==> CanBuild(rs[k])
  {
    hide RdataOf, Acceptable, NameWire, Encodable, PrintFixed;
    if rs != [] {
      var r, rest := rs[0], rs[1..];
      assert rs == [r] + rest;
      RecordsAccepted(rest, qclass, ttl);
      RdataAcceptedExactly(r.rtype, r.data);
      NameAcceptedExactly(r.name);
      if RdataOf(r.rtype, r.data).Some? {
        BuiltRdataFits(r.rtype, r.data);
        if RecordPieces(rest).Some? {
          var xs := [RecordPiece(r).value] + RecordPieces(rest).value;
          assert xs[1..] == RecordPieces(rest).value;
        }
      }
    }
  }

  /** Built RDATA always fits RDLENGTH, so that check never refuses a record. */
  lemma BuiltRdataFits(rtype: string, data: Json)
    requires RdataOf(rtype, data).Some?
    ensures |RdataOf(rtype, data).value.rdata| <= 0xFFFF
  {
    hide NameWire, TxtStrings, Put16, FiveWords;
    forall s: bytes ensures NameWire(s).Some? ==> |NameWire(s).value| <= 255 {
      NameIsShort(s);
    }
  }

  lemma NameIsShort(s: bytes)
    ensures NameWire(s).Some? ==> |NameWire(s).value| <= 255
  {
  }

  /** MultiAnswer returns 0 exactly when there are a question and records that can all be written. */
  lemma MultiAnswerSucceeds(request: Header, questions: seq<Question>, rs: seq<AnswerRecord>, ttl: u32)
    ensures MultiAnswerWire(request, questions, rs, ttl).Some? <==>
            && questions != [] && FitsAName(questions[0].qname)
            && 0 < |rs| <= 65535 && forall k :: 0 <= k < |rs| ==> CanBuild(rs[k])
  {
    hide RecordPieces, PiecesWire, LabelsWire, FitsAName, CanBuild, PrintHeader, StandardHeader;
    if questions != [] {
      RecordsAccepted(rs, questions[0].qclass, ttl);
      LabelsAcceptedExactly(questions[0].qname);
      NoPieces(questions[0].qclass, ttl);
    } else {
      RecordsAccepted(rs, 0, ttl);
    }
  }

  lemma NoPieces(qclass: u16, ttl: u32)
    ensures PiecesWire([], qclass, ttl) == Some([])
  {
  }

  /** NXDOMAIN and the replies without records need only a question; the SOA record is there when its names fit. */
  lemma RepliesSucceed(request: Header, questions: seq<Question>, zone: bytes, rcode: nat, authoritative: bool, ttl: u32)
    ensures NxDomainWire(request, questions, zone, ttl).Some? <==> questions != [] && FitsAName(questions[0].qname)
    ensures PlainWire(request, questions, rcode, authoritative).Some? <==> questions != [] && FitsAName(questions[0].qname)
    ensures ZoneSoa(zone, ttl).Some? <==>
            Encodable(zone) && Encodable(NS + [DOT] + zone + [DOT]) && Encodable(HOSTMASTER + [DOT] + zone + [DOT])
  {
    hide PieceWire, LabelsWire, FitsAName, NameWire, Encodable, PrintHeader, StandardHeader, SoaTimers;
    NameAcceptedExactly(zone);
    NameAcceptedExactly(NS_PREFIX + zone + [DOT]);
    NameAcceptedExactly(HOSTMASTER_PREFIX + zone + [DOT]);
    if questions != [] {
      LabelsAcceptedExactly(questions[0].qname);
      if zone != [] && ZoneSoa(zone, ttl).Some? {
        SoaPieceFits(zone, questions[0].qclass, ttl);
      }
    }
  }

  lemma SoaPieceFits(zone: bytes, qclass: u16, ttl: u32)
    requires zone != [] && ZoneSoa(zone, ttl).Some?
    ensures PiecesWire([ZoneSoa(zone, ttl).value], qclass, ttl).Some?
  {
    hide NameWire, PrintFixed;
    NameIsShort(NS_PREFIX + zone + [DOT]);
    NameIsShort(HOSTMASTER_PREFIX + zone + [DOT]);
    assert [ZoneSoa(zone, ttl).value][1..] == [];
  }
}
