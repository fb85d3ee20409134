// DNS messages (section 4.1 of RFC 1035): what a packet is, what a buffer
// means, and how a packet is printed.
module Messages {
  import opened Wire
  import opened Names

  const HEADER_SIZE := 12

  const TYPE_A: u16 := 1
  const TYPE_NS: u16 := 2
  const TYPE_CNAME: u16 := 5
  const TYPE_SOA: u16 := 6
  const TYPE_PTR: u16 := 12
  const TYPE_MX: u16 := 15
  const TYPE_TXT: u16 := 16
  const TYPE_AAAA: u16 := 28
  const TYPE_SRV: u16 := 33
  const TYPE_OPT: u16 := 41

  datatype Header = Header(id: u16, flags: u16, qdcount: u16, ancount: u16, nscount: u16, arcount: u16) {
    predicate Qr() { flags / 0x8000 % 2 == 1 }
    predicate Rd() { flags / 0x100 % 2 == 1 }
    predicate Z() { flags / 0x40 % 2 == 1 }
  }

  datatype Question = Question(qname: Labels, qtype: u16, qclass: u16)

  /** `rdlength` is a field of its own: it is what ToWire prints. */
  datatype Answer = Answer(name: Labels, rtype: u16, rclass: u16, ttl: u32, rdlength: u16, rdata: bytes)

  datatype Packet = Packet(header: Header, questions: seq<Question>,
                           answers: seq<Answer>, authority: seq<Answer>, additional: seq<Answer>)

  // ---------------------------------------------------------------------
  // Record data that holds names.

  /** Name-bearing RDATA is `prefix` bytes, then `names` names, then `suffix` bytes. */
  datatype Shape = Shape(prefix: nat, names: nat, suffix: nat)

  function ShapeOf(rtype: u16): Option<Shape> {
    if rtype == TYPE_NS || rtype == TYPE_CNAME || rtype == TYPE_PTR then Some(Shape(0, 1, 0))
    else if rtype == TYPE_SOA then Some(Shape(0, 2, 20))
    else if rtype == TYPE_MX then Some(Shape(2, 1, 0))
    else if rtype == TYPE_SRV then Some(Shape(6, 1, 0))
    else None
  }

  datatype NameList = NameList(names: seq<Labels>, next: nat)

  function ParseNames(d: bytes, o: nat, n: nat): (r: Option<NameList>)
    ensures r.Some? && o <= |d| ==> o <= r.value.next <= |d|
    ensures r.Some? ==> |r.value.names| == n
    decreases n
  {
    if n == 0 then Some(NameList([], o))
    else
      match ParseName(d, o, MAX_POINTER_HOPS)
      case None => None
      case Some(first) =>
        match ParseNames(d, first.next, n - 1)
        case None => None
        case Some(rest) => Some(NameList([first.labels] + rest.names, rest.next))
  }

  function PrintNames(names: seq<Labels>): bytes {
    if names == [] then [] else PrintName(names[0]) + PrintNames(names[1..])
  }

  /** The RDATA at `start` with its names expanded; None leaves the raw RDATA in place. */
  function Decompress(d: bytes, start: nat, rtype: u16): Option<bytes> {
    match ShapeOf(rtype)
    case None => None
    case Some(s) =>
      if start + s.prefix > |d| then None
      else
        match ParseNames(d, start + s.prefix, s.names)
        case None => None
        case Some(list) =>
          if list.next + s.suffix > |d| then None
          else Some(d[start..start + s.prefix] + PrintNames(list.names) + d[list.next..list.next + s.suffix])
  }

  // ---------------------------------------------------------------------
  // What a buffer means.

  function HeaderAt(d: bytes): Header
    requires HEADER_SIZE <= |d|
  {
    Header(Get16(d, 0), Get16(d, 2), Get16(d, 4), Get16(d, 6), Get16(d, 8), Get16(d, 10))
  }

  datatype QuestionAt = QuestionAt(question: Question, next: nat)
  datatype QuestionList = QuestionList(questions: seq<Question>, next: nat)
  datatype AnswerAt = AnswerAt(answer: Answer, next: nat)
  datatype AnswerList = AnswerList(answers: seq<Answer>, next: nat)

  function ParseQuestion(d: bytes, o: nat): (r: Option<QuestionAt>)
    ensures r.Some? ==> o < r.value.next <= |d|
  {
    match ParseName(d, o, MAX_POINTER_HOPS)
    case None => None
    case Some(n) =>
      if n.next + 4 > |d| then None
      else Some(QuestionAt(Question(n.labels, Get16(d, n.next), Get16(d, n.next + 2)), n.next + 4))
  }

  function ParseQuestions(d: bytes, o: nat, n: nat): (r: Option<QuestionList>)
    ensures r.Some? ==> |r.value.questions| == n && (o <= |d| ==> o <= r.value.next <= |d|)
    decreases n
  {
    if n == 0 then Some(QuestionList([], o))
    else
      match ParseQuestion(d, o)
      case None => None
      case Some(first) =>
        match ParseQuestions(d, first.next, n - 1)
        case None => None
        case Some(rest) => Some(QuestionList([first.question] + rest.questions, rest.next))
  }

  /** The RDATA that FromWire stores for `length` raw bytes at `start`. */
  function StoredRdata(d: bytes, start: nat, length: nat, rtype: u16): bytes
    requires start + length <= |d|
  {
    match Decompress(d, start, rtype)
    case None => d[start..start + length]
    case Some(expanded) => expanded
  }

  function ParseAnswer(d: bytes, o: nat): (r: Option<AnswerAt>)
    ensures r.Some? ==> o < r.value.next <= |d|
  {
    match ParseName(d, o, MAX_POINTER_HOPS)
    case None => None
    case Some(n) =>
      var f := n.next;
      if f + 10 > |d| || f + 10 + Get16(d, f + 8) > |d| then None
      else
        var rdata := StoredRdata(d, f + 10, Get16(d, f + 8), Get16(d, f));
        Some(AnswerAt(
          Answer(n.labels, Get16(d, f), Get16(d, f + 2), Get32(d, f + 4), |rdata| % 0x1_0000, rdata),
          f + 10 + Get16(d, f + 8)))
  }

  function ParseAnswers(d: bytes, o: nat, n: nat): (r: Option<AnswerList>)
    ensures r.Some? ==> |r.value.answers| == n && (o <= |d| ==> o <= r.value.next <= |d|)
    decreases n
  {
    if n == 0 then Some(AnswerList([], o))
    else
      match ParseAnswer(d, o)
      case None => None
      case Some(first) =>
        match ParseAnswers(d, first.next, n - 1)
        case None => None
        case Some(rest) => Some(AnswerList([first.answer] + rest.answers, rest.next))
  }

  datatype Parsed = Parsed(packet: Packet, next: nat)

  /** The three record sections, from `o` on. */
  function ParseSections(d: bytes, o: nat, h: Header, questions: seq<Question>): Option<Parsed> {
    match ParseAnswers(d, o, h.ancount)
    case None => None
    case Some(an) =>
      match ParseAnswers(d, an.next, h.nscount)
      case None => None
      case Some(ns) =>
        match ParseAnswers(d, ns.next, h.arcount)
        case None => None
        case Some(ar) => Some(Parsed(Packet(h, questions, an.answers, ns.answers, ar.answers), ar.next))
  }

  /** The response that `d` means, and how many of its bytes that takes. */
  function ParseResponse(d: bytes): (r: Option<Parsed>)
  {
    if |d| < HEADER_SIZE then None
    else
      var h := HeaderAt(d);
      if h.Z() || !h.Qr() then None
      else
        match ParseQuestions(d, HEADER_SIZE, h.qdcount)
        case None => None
        case Some(qs) => ParseSections(d, qs.next, h, qs.questions)
  }

  // Where the sections of an accepted message start.

  function AnswersAt(d: bytes): nat
    requires ParseResponse(d).Some?
  {
    ParseQuestions(d, HEADER_SIZE, HeaderAt(d).qdcount).value.next
  }

  function AuthorityAt(d: bytes): nat
    requires ParseResponse(d).Some?
  {
    ParseAnswers(d, AnswersAt(d), HeaderAt(d).ancount).value.next
  }

  function AdditionalAt(d: bytes): nat
    requires ParseResponse(d).Some?
  {
    ParseAnswers(d, AuthorityAt(d), HeaderAt(d).nscount).value.next
  }

  /** What a successful parse is made of. */
  lemma ResponseParts(d: bytes)
    requires ParseResponse(d).Some?
    ensures HEADER_SIZE <= AnswersAt(d) <= AuthorityAt(d) <= AdditionalAt(d) <= ParseResponse(d).value.next <= |d|
    ensures ParseQuestions(d, HEADER_SIZE, HeaderAt(d).qdcount) ==
            Some(QuestionList(ParseResponse(d).value.packet.questions, AnswersAt(d)))
    ensures ParseAnswers(d, AnswersAt(d), HeaderAt(d).ancount) ==
            Some(AnswerList(ParseResponse(d).value.packet.answers, AuthorityAt(d)))
    ensures ParseAnswers(d, AuthorityAt(d), HeaderAt(d).nscount) ==
            Some(AnswerList(ParseResponse(d).value.packet.authority, AdditionalAt(d)))
    ensures ParseAnswers(d, AdditionalAt(d), HeaderAt(d).arcount) ==
            Some(AnswerList(ParseResponse(d).value.packet.additional, ParseResponse(d).value.next))
    ensures ParseResponse(d).value.packet.header == HeaderAt(d) && !HeaderAt(d).Z() && HeaderAt(d).Qr()
  {
    hide ParseQuestions, ParseAnswers, Get16;
  }

  // ---------------------------------------------------------------------
  // Printing.

  function PrintHeader(h: Header): (r: bytes)
    ensures |r| == HEADER_SIZE
  {
    Put16(h.id) + Put16(h.flags) + Put16(h.qdcount) + Put16(h.ancount) + Put16(h.nscount) + Put16(h.arcount)
  }

  function PrintQuestion(q: Question): (r: bytes)
    ensures |r| == QuestionSize(q)
  {
    PrintName(q.qname) + (Put16(q.qtype) + Put16(q.qclass))
  }

  function PrintQuestions(qs: seq<Question>): (r: bytes)
    ensures |r| == QuestionsSize(qs)
  {
    if qs == [] then [] else PrintQuestion(qs[0]) + PrintQuestions(qs[1..])
  }

  /** TYPE, CLASS, TTL and RDLENGTH. */
  function PrintFixed(rtype: u16, rclass: u16, ttl: u32, rdlength: u16): (r: bytes)
    ensures |r| == 10
  {
    Put16(rtype) + Put16(rclass) + Put32(ttl) + Put16(rdlength)
  }

  function PrintAnswer(a: Answer): (r: bytes)
    ensures |r| == AnswerSize(a)
  {
    PrintName(a.name) + (PrintFixed(a.rtype, a.rclass, a.ttl, a.rdlength) + a.rdata)
  }

  function PrintAnswers(answers: seq<Answer>): (r: bytes)
    ensures |r| == AnswersSize(answers)
  {
    if answers == [] then [] else PrintAnswer(answers[0]) + PrintAnswers(answers[1..])
  }

  function PrintResponse(p: Packet): (r: bytes)
    ensures |r| == ResponseSize(p)
  {
    PrintHeader(p.header) +
    (PrintQuestions(p.questions) +
     (PrintAnswers(p.answers) + (PrintAnswers(p.authority) + PrintAnswers(p.additional))))
  }

  // The WireSize folds.

  function QuestionSize(q: Question): nat {
    NameSize(q.qname) + 4
  }

  function QuestionsSize(qs: seq<Question>): nat {
    if qs == [] then 0 else QuestionSize(qs[0]) + QuestionsSize(qs[1..])
  }

  function AnswerSize(a: Answer): nat {
    NameSize(a.name) + 10 + |a.rdata|
  }

  function AnswersSize(answers: seq<Answer>): nat {
    if answers == [] then 0 else AnswerSize(answers[0]) + AnswersSize(answers[1..])
  }

  function ResponseSize(p: Packet): nat {
    HEADER_SIZE + QuestionsSize(p.questions) +
    AnswersSize(p.answers) + AnswersSize(p.authority) + AnswersSize(p.additional)
  }

  // ---------------------------------------------------------------------
  // Lists, one element at a time.

  lemma ParseNamesCons(d: bytes, o: nat, n: nat)
    requires n > 0 && ParseName(d, o, MAX_POINTER_HOPS).Some?
    requires ParseNames(d, ParseName(d, o, MAX_POINTER_HOPS).value.next, n - 1).Some?
    ensures var first := ParseName(d, o, MAX_POINTER_HOPS).value;
            var rest := ParseNames(d, first.next, n - 1).value;
            ParseNames(d, o, n) == Some(NameList([first.labels] + rest.names, rest.next))
  {
    hide ParseName;
  }

  lemma ParseQuestionsCons(d: bytes, o: nat, n: nat)
    requires n > 0 && ParseQuestion(d, o).Some?
    requires ParseQuestions(d, ParseQuestion(d, o).value.next, n - 1).Some?
    ensures var first := ParseQuestion(d, o).value;
            var rest := ParseQuestions(d, first.next, n - 1).value;
            ParseQuestions(d, o, n) == Some(QuestionList([first.question] + rest.questions, rest.next))
  {
    hide ParseQuestion;
  }

  lemma ParseAnswersCons(d: bytes, o: nat, n: nat)
    requires n > 0 && ParseAnswer(d, o).Some?
    requires ParseAnswers(d, ParseAnswer(d, o).value.next, n - 1).Some?
    ensures var first := ParseAnswer(d, o).value;
            var rest := ParseAnswers(d, first.next, n - 1).value;
            ParseAnswers(d, o, n) == Some(AnswerList([first.answer] + rest.answers, rest.next))
  {
    hide ParseAnswer;
  }

  lemma NoQuestions(d: bytes, o: nat)
    ensures ParseQuestions(d, o, 0) == Some(QuestionList([], o))
  {
  }

  lemma PrintNamesFrom(names: seq<Labels>, i: nat)
    requires i < |names|
    ensures PrintNames(names[i..]) == PrintName(names[i]) + PrintNames(names[i + 1..])
  {
    hide PrintName;
    assert names[i..][1..] == names[i + 1..];
  }

  lemma NoNames(d: bytes, o: nat)
    ensures ParseNames(d, o, 0) == Some(NameList([], o)) && PrintNames([]) == []
  {
  }

  lemma PrintQuestionsFrom(qs: seq<Question>, i: nat)
    requires i < |qs|
    ensures PrintQuestions(qs[i..]) == PrintQuestion(qs[i]) + PrintQuestions(qs[i + 1..])
  {
    hide PrintQuestion;
    assert qs[i..][1..] == qs[i + 1..];
  }

  lemma PrintAnswersFrom(answers: seq<Answer>, i: nat)
    requires i < |answers|
    ensures PrintAnswers(answers[i..]) == PrintAnswer(answers[i]) + PrintAnswers(answers[i + 1..])
  {
    hide PrintAnswer;
    assert answers[i..][1..] == answers[i + 1..];
  }

  lemma NoAnswers(d: bytes, o: nat)
    ensures ParseAnswers(d, o, 0) == Some(AnswerList([], o))
  {
  }
}
