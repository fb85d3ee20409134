// The message format as a relation between bytes and packets (section 4.1 of RFC 1035),
// stated on the bytes themselves, and the proof that the parsers decide exactly it.
module Grammar {
  import opened Wire
  import opened Names
  import opened Messages
  import opened Edns
  import opened Packets
  import opened Requests

  // ---------------------------------------------------------------------
  // The format.

  predicate Word(d: bytes, o: nat, v: u16) {
    o + 2 <= |d| && v == d[o] as int * 0x100 + d[o + 1] as int
  }

  predicate LongWord(d: bytes, o: nat, v: u32) {
    o + 4 <= |d| && v == d[o] as int * 0x100_0000 + d[o + 1] as int * 0x1_0000 + d[o + 2] as int * 0x100 + d[o + 3] as int
  }

  /** The name at `o` is `ls`; following at most 16 pointers spells it, and it ends before `next`. */
  ghost predicate IsName(d: bytes, o: nat, ls: Labels, next: nat) {
    exists w :: Follows(d, o, w) && w.Hops() <= 16 && ls == w.Labels() && next == w.End(o)
  }

  predicate IsHeader(d: bytes, h: Header) {
    && Word(d, 0, h.id) && Word(d, 2, h.flags)
    && Word(d, 4, h.qdcount) && Word(d, 6, h.ancount) && Word(d, 8, h.nscount) && Word(d, 10, h.arcount)
  }

  /** Name, QTYPE, QCLASS. */
  ghost predicate IsQuestion(d: bytes, o: nat, q: Question, next: nat) {
    exists f: nat :: IsName(d, o, q.qname, f) && Word(d, f, q.qtype) && Word(d, f + 2, q.qclass) && next == f + 4
  }

  ghost predicate IsQuestions(d: bytes, o: nat, qs: seq<Question>, next: nat)
    decreases |qs|
  {
    if qs == [] then next == o
    else exists middle: nat :: IsQuestion(d, o, qs[0], middle) && IsQuestions(d, middle, qs[1..], next)
  }

  /** The bytes from `start` on, and the name at `o` written out behind them. */
  ghost predicate IsOneName(d: bytes, start: nat, o: nat, x: bytes) {
    start <= o <= |d| && exists ls, next: nat :: IsName(d, o, ls, next) && x == d[start..o] + PrintName(ls)
  }

  /** MNAME and RNAME, each wherever it lies, and the five 32-bit words of an SOA record. */
  ghost predicate IsTwoNames(d: bytes, start: nat, x: bytes) {
    exists m, middle: nat, r, next: nat ::
      IsName(d, start, m, middle) && IsName(d, middle, r, next) && next + 20 <= |d| &&
      x == PrintName(m) + PrintName(r) + d[next..next + 20]
  }

  /** `x` is the RDATA at `start` with its names written out: NS, CNAME, PTR, MX, SRV and SOA hold names. */
  ghost predicate IsExpanded(d: bytes, start: nat, rtype: u16, x: bytes) {
    if rtype == 2 || rtype == 5 || rtype == 12 then IsOneName(d, start, start, x)
    else if rtype == 15 then IsOneName(d, start, start + 2, x)
    else if rtype == 33 then IsOneName(d, start, start + 6, x)
    else rtype == 6 && IsTwoNames(d, start, x)
  }

  ghost predicate Unresolvable(d: bytes, start: nat, rtype: u16) {
    forall x :: !IsExpanded(d, start, rtype, x)
  }

  /** TYPE, CLASS, TTL, RDLENGTH and RDATA from `f` to `next`; RDATA whose names do not resolve is kept raw. */
  ghost predicate IsRecordBody(d: bytes, f: nat, a: Answer, next: nat) {
    && f + 10 <= next <= |d| && next - f - 10 < 0x1_0000
    && Word(d, f, a.rtype) && Word(d, f + 2, a.rclass) && LongWord(d, f + 4, a.ttl) && Word(d, f + 8, next - f - 10)
    && (IsExpanded(d, f + 10, a.rtype, a.rdata) ||
        (a.rdata == d[f + 10..next] && Unresolvable(d, f + 10, a.rtype)))
    && a.rdlength == |a.rdata| % 0x1_0000
  }

  ghost predicate IsRecord(d: bytes, o: nat, a: Answer, next: nat) {
    exists f: nat :: IsName(d, o, a.name, f) && IsRecordBody(d, f, a, next)
  }

  ghost predicate IsRecords(d: bytes, o: nat, answers: seq<Answer>, next: nat)
    decreases |answers|
  {
    if answers == [] then next == o
    else exists middle: nat :: IsRecord(d, o, answers[0], middle) && IsRecords(d, middle, answers[1..], next)
  }

  /** QR as given, and Z clear, in the two bytes of flags. */
  predicate FlagsAre(d: bytes, response: bool) {
    |d| >= 4 && (d[2] >= 0x80 <==> response) && d[3] / 0x40 % 2 == 0
  }

  ghost predicate IsResponse(d: bytes, p: Packet, next: nat) {
    && IsHeader(d, p.header) && FlagsAre(d, true)
    && p.header.qdcount == |p.questions| && p.header.ancount == |p.answers|
    && p.header.nscount == |p.authority| && p.header.arcount == |p.additional|
    && exists an: nat, ns: nat, ar: nat ::
         && IsQuestions(d, HEADER_SIZE, p.questions, an) && IsRecords(d, an, p.answers, ns)
         && IsRecords(d, ns, p.authority, ar) && IsRecords(d, ar, p.additional, next)
  }

  /** The questions end at `next`, which is where the additional section starts. */
  ghost predicate IsRequest(d: bytes, h: Header, qs: seq<Question>, next: nat) {
    && IsHeader(d, h) && FlagsAre(d, false)
    && h.qdcount == |qs| && h.ancount == 0 && h.nscount == 0
    && IsQuestions(d, HEADER_SIZE, qs, next)
  }

  /** Consecutive options of [o, end): code, length, data (section 6.1.2 of RFC 6891); fewer than 4 bytes are left over. */
  predicate AreOptions(d: bytes, o: nat, end: nat, xs: seq<EdnsOption>)
    requires o <= end <= |d|
    decreases |xs|
  {
    if xs == [] then end < o + 4
    else
      var next := o + 4 + |xs[0].data|;
      && next <= end && |xs[0].data| < 0x1_0000
      && Word(d, o, xs[0].code) && Word(d, o + 2, |xs[0].data|) && d[o + 4..next] == xs[0].data
      && AreOptions(d, next, end, xs[1..])
  }

  // ---------------------------------------------------------------------
  // The parsers decide it.

  lemma WordIs(d: bytes, o: nat, v: u16)
    ensures Word(d, o, v) <==> o + 2 <= |d| && Get16(d, o) == v
  {
  }

  lemma LongWordIs(d: bytes, o: nat, v: u32)
    ensures LongWord(d, o, v) <==> o + 4 <= |d| && Get32(d, o) == v
  {
    if o + 4 <= |d| {
      BigEndian(d, o);
    }
  }

  lemma NameExactly(d: bytes, o: nat, ls: Labels, next: nat)
    ensures IsName(d, o, ls, next) <==> ParseName(d, o, MAX_POINTER_HOPS) == Some(Named(ls, next))
  {
    hide Follows, ParseName;
    ParseNameExact(d, o, MAX_POINTER_HOPS);
  }

  lemma QuestionExactly(d: bytes, o: nat, q: Question, next: nat)
    ensures IsQuestion(d, o, q, next) <==> ParseQuestion(d, o) == Some(QuestionAt(q, next))
  {
    hide IsName, ParseName, Word, Get16;
    forall f: nat ensures IsName(d, o, q.qname, f) <==> ParseName(d, o, MAX_POINTER_HOPS) == Some(Named(q.qname, f)) {
      NameExactly(d, o, q.qname, f);
    }
    if ParseName(d, o, MAX_POINTER_HOPS).Some? {
      var f := ParseName(d, o, MAX_POINTER_HOPS).value.next;
      WordIs(d, f, q.qtype);
      WordIs(d, f + 2, q.qclass);
    }
  }

  lemma {:induction false} QuestionsExactly(d: bytes, o: nat, qs: seq<Question>, next: nat)
    ensures IsQuestions(d, o, qs, next) <==> ParseQuestions(d, o, |qs|) == Some(QuestionList(qs, next))
    decreases |qs|
  {
    hide IsQuestion, ParseQuestion;
    if qs != [] {
      forall middle: nat ensures IsQuestion(d, o, qs[0], middle) <==> ParseQuestion(d, o) == Some(QuestionAt(qs[0], middle)) {
        QuestionExactly(d, o, qs[0], middle);
      }
      if ParseQuestion(d, o).Some? {
        var first := ParseQuestion(d, o).value;
        QuestionsExactly(d, first.next, qs[1..], next);
        assert qs == [qs[0]] + qs[1..];
        if ParseQuestions(d, first.next, |qs| - 1).Some? {
          var rest := ParseQuestions(d, first.next, |qs| - 1).value.questions;
          assert ([first.question] + rest)[0] == first.question && ([first.question] + rest)[1..] == rest;
        }
      }
    }
  }

  lemma OneNameExactly(d: bytes, start: nat, rtype: u16, o: nat, x: bytes)
    requires start <= o && ShapeOf(rtype) == Some(Shape(o - start, 1, 0))
    ensures IsOneName(d, start, o, x) <==> Decompress(d, start, rtype) == Some(x)
  {
    hide IsName, ParseName, Decompress, PrintName;
    DecompressOne(d, start, rtype);
    forall ls, next: nat ensures IsName(d, o, ls, next) <==> ParseName(d, o, MAX_POINTER_HOPS) == Some(Named(ls, next)) {
      NameExactly(d, o, ls, next);
    }
    if ParseName(d, o, MAX_POINTER_HOPS).Some? {
      var n := ParseName(d, o, MAX_POINTER_HOPS).value;
      assert IsName(d, o, n.labels, n.next);
    }
  }

  lemma TwoNamesExactly(d: bytes, start: nat, x: bytes)
    ensures IsTwoNames(d, start, x) <==> Decompress(d, start, TYPE_SOA) == Some(x)
  {
    hide IsName, ParseName, Decompress, PrintName;
    DecompressSoa(d, start);
    forall o: nat, ls, next: nat ensures IsName(d, o, ls, next) <==> ParseName(d, o, MAX_POINTER_HOPS) == Some(Named(ls, next)) {
      NameExactly(d, o, ls, next);
    }
    if Decompress(d, start, TYPE_SOA) == Some(x) {
      var m := ParseName(d, start, MAX_POINTER_HOPS).value;
      var r := ParseName(d, m.next, MAX_POINTER_HOPS).value;
      assert IsName(d, start, m.labels, m.next) && IsName(d, m.next, r.labels, r.next);
    }
  }

  /** RDATA is expanded for exactly the six types that hold names, and in their places. */
  lemma ExpandedExactly(d: bytes, start: nat, rtype: u16, x: bytes)
    ensures IsExpanded(d, start, rtype, x) <==> Decompress(d, start, rtype) == Some(x)
  {
    hide IsOneName, IsTwoNames, Decompress;
    if rtype == 6 {
      TwoNamesExactly(d, start, x);
    } else if ShapeOf(rtype).Some? {
      OneNameExactly(d, start, rtype, start + ShapeOf(rtype).value.prefix, x);
    } else {
      PlainRdata(d, start, rtype);
    }
  }

  lemma StoredExactly(d: bytes, start: nat, next: nat, rtype: u16, x: bytes)
    requires start <= next <= |d|
    ensures IsExpanded(d, start, rtype, x) || (x == d[start..next] && Unresolvable(d, start, rtype))
            <==> x == StoredRdata(d, start, next - start, rtype)
  {
    hide IsExpanded, Decompress;
    forall y ensures IsExpanded(d, start, rtype, y) <==> Decompress(d, start, rtype) == Some(y) {
      ExpandedExactly(d, start, rtype, y);
    }
    if Decompress(d, start, rtype).Some? {
      assert IsExpanded(d, start, rtype, Decompress(d, start, rtype).value);
    }
  }

  lemma BodyExactly(d: bytes, f: nat, a: Answer, next: nat)
    ensures IsRecordBody(d, f, a, next) <==>
            && f + 10 <= |d| && f + 10 + Get16(d, f + 8) <= |d| && next == f + 10 + Get16(d, f + 8)
            && a.rtype == Get16(d, f) && a.rclass == Get16(d, f + 2) && a.ttl == Get32(d, f + 4)
            && a.rdata == StoredRdata(d, f + 10, Get16(d, f + 8), Get16(d, f)) && a.rdlength == |a.rdata| % 0x1_0000
  {
    hide IsExpanded, StoredRdata, Word, LongWord, Get16, Get32;
    WordIs(d, f, a.rtype);
    WordIs(d, f + 2, a.rclass);
    LongWordIs(d, f + 4, a.ttl);
    if f + 10 <= next && next - f - 10 < 0x1_0000 {
      WordIs(d, f + 8, next - f - 10);
      if next <= |d| {
        StoredExactly(d, f + 10, next, a.rtype, a.rdata);
      }
    }
  }

  lemma RecordExactly(d: bytes, o: nat, a: Answer, next: nat)
    ensures IsRecord(d, o, a, next) <==> ParseAnswer(d, o) == Some(AnswerAt(a, next))
  {
    hide IsName, ParseName, IsRecordBody, StoredRdata, Get16, Get32;
    forall f: nat ensures IsName(d, o, a.name, f) <==> ParseName(d, o, MAX_POINTER_HOPS) == Some(Named(a.name, f)) {
      NameExactly(d, o, a.name, f);
    }
    if ParseName(d, o, MAX_POINTER_HOPS).Some? {
      BodyExactly(d, ParseName(d, o, MAX_POINTER_HOPS).value.next, a, next);
    }
  }

  lemma {:induction false} RecordsExactly(d: bytes, o: nat, answers: seq<Answer>, next: nat)
    ensures IsRecords(d, o, answers, next) <==> ParseAnswers(d, o, |answers|) == Some(AnswerList(answers, next))
    decreases |answers|
  {
    hide IsRecord, ParseAnswer;
    if answers != [] {
      forall middle: nat ensures IsRecord(d, o, answers[0], middle) <==> ParseAnswer(d, o) == Some(AnswerAt(answers[0], middle)) {
        RecordExactly(d, o, answers[0], middle);
      }
      if ParseAnswer(d, o).Some? {
        var first := ParseAnswer(d, o).value;
        RecordsExactly(d, first.next, answers[1..], next);
        assert answers == [answers[0]] + answers[1..];
        if ParseAnswers(d, first.next, |answers| - 1).Some? {
          var rest := ParseAnswers(d, first.next, |answers| - 1).value.answers;
          assert ([first.answer] + rest)[0] == first.answer && ([first.answer] + rest)[1..] == rest;
        }
      }
    }
  }

  lemma HeaderExactly(d: bytes, h: Header)
    ensures IsHeader(d, h) <==> |d| >= HEADER_SIZE && HeaderAt(d) == h
  {
    hide Word, Get16;
    WordIs(d, 0, h.id);
    WordIs(d, 2, h.flags);
    WordIs(d, 4, h.qdcount);
    WordIs(d, 6, h.ancount);
    WordIs(d, 8, h.nscount);
    WordIs(d, 10, h.arcount);
  }

  /** QR is the top bit of the third byte, Z the second bit of the fourth, RD the last bit of the third. */
  lemma FlagBits(d: bytes)
    requires |d| >= HEADER_SIZE
    ensures HeaderAt(d).Qr() <==> d[2] >= 0x80
    ensures HeaderAt(d).Z() <==> d[3] / 0x40 % 2 == 1
    ensures HeaderAt(d).Rd() <==> d[2] % 2 == 1
  {
    var hi, lo := d[2] as int, d[3] as int;
    var flags := HeaderAt(d).flags;
    assert flags == hi * 0x100 + lo;
    assert flags / 0x100 == hi && flags / 0x8000 == hi / 0x80;
    assert flags / 0x40 == hi * 4 + lo / 0x40;
  }

  /** The response parser accepts exactly the messages of the format, and returns what they say. */
  lemma ResponseExactly(d: bytes, p: Packet, next: nat)
    ensures ParseResponse(d) == Some(Parsed(p, next)) <==> IsResponse(d, p, next)
  {
    hide IsQuestions, IsRecords, ParseQuestions, ParseAnswers, IsHeader, HeaderAt, Header.Qr, Header.Z;
    HeaderExactly(d, p.header);
    if |d| >= HEADER_SIZE {
      FlagBits(d);
    }
    forall o: nat, qs, n: nat ensures IsQuestions(d, o, qs, n) <==> ParseQuestions(d, o, |qs|) == Some(QuestionList(qs, n)) {
      QuestionsExactly(d, o, qs, n);
    }
    forall o: nat, rs, n: nat ensures IsRecords(d, o, rs, n) <==> ParseAnswers(d, o, |rs|) == Some(AnswerList(rs, n)) {
      RecordsExactly(d, o, rs, n);
    }
    if ParseResponse(d) == Some(Parsed(p, next)) {
      ResponseParts(d);
      assert IsQuestions(d, HEADER_SIZE, p.questions, AnswersAt(d)) && IsRecords(d, AnswersAt(d), p.answers, AuthorityAt(d))
          && IsRecords(d, AuthorityAt(d), p.authority, AdditionalAt(d)) && IsRecords(d, AdditionalAt(d), p.additional, next);
    }
  }

  /** The request parser too, and its EDNS walk covers the ARCOUNT records that follow the questions. */
  lemma RequestExactly(d: bytes, r: Request)
    ensures ParseRequest(d) == Some(r) <==>
            exists o: nat :: IsRequest(d, r.header, r.questions, o) && r.edns == Run(d, o, r.header.arcount, 0, START)
  {
    hide IsQuestions, ParseQuestions, IsHeader, HeaderAt, Header.Qr, Header.Z, Run;
    HeaderExactly(d, r.header);
    if |d| >= HEADER_SIZE {
      FlagBits(d);
    }
    forall o: nat ensures IsQuestions(d, HEADER_SIZE, r.questions, o) <==>
                     ParseQuestions(d, HEADER_SIZE, |r.questions|) == Some(QuestionList(r.questions, o)) {
      QuestionsExactly(d, HEADER_SIZE, r.questions, o);
    }
    if ParseRequest(d) == Some(r) {
      var o := ParseQuestions(d, HEADER_SIZE, r.header.qdcount).value.next;
      assert IsRequest(d, r.header, r.questions, o);
    }
  }

  lemma {:induction false} OptionsExactly(d: bytes, o: nat, end: nat, xs: seq<EdnsOption>)
    requires o <= end <= |d|
    ensures AreOptions(d, o, end, xs) <==> ParseOptions(d, o, end) == Some(xs)
    decreases |xs|
  {
    hide Word, Get16;
    if xs != [] {
      hide ParseOptions;
      var x, rest := xs[0], xs[1..];
      var next := o + 4 + |x.data|;
      assert xs == [x] + rest;
      ParseOptionsCons(d, o, end, x, rest);
      WordIs(d, o, x.code);
      if |x.data| < 0x1_0000 {
        WordIs(d, o + 2, |x.data|);
      }
      if next <= end {
        OptionsExactly(d, next, end, rest);
      }
    }
  }
}
