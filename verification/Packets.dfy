// The packet objects: FromWire fills their fields from a buffer, ToWire writes
// them into one.
module Packets {
  import opened Wire
  import opened Names
  import opened Messages
  import opened Edns
  import opened Buffers

  // ---------------------------------------------------------------------
  // Reading.

  /** Each label behind its length, which is cast to a byte and not checked, and then the zero byte. */
  function Encoded(ls: Labels): bytes {
    if ls == [] then [0] else [(|ls[0]| % 0x100) as byte] + ls[0] + Encoded(ls[1..])
  }

  lemma {:induction false} EncodedIsPrinted(ls: Labels)
    requires ValidLabels(ls)
    ensures Encoded(ls) == PrintName(ls)
  {
    if ls != [] {
      EncodedIsPrinted(ls[1..]);
    }
  }

  lemma EncodedStep(done: bytes, ls: Labels, i: nat)
    requires i < |ls|
    ensures done + Encoded(ls[i..]) == done + [(|ls[i]| % 0x100) as byte] + ls[i] + Encoded(ls[i + 1..])
  {
    assert ls[i..][1..] == ls[i + 1..];
  }

  method EncodeDomainLabels(ls: Labels, output: bytes) returns (r: bytes)
    ensures r == output + Encoded(ls)
    ensures ValidLabels(ls) ==> r == output + PrintName(ls)
  {
    hide PrintName, ValidLabels;
    r := output;
    assert ls[0..] == ls;
    for i := 0 to |ls|
      invariant output + Encoded(ls) == r + Encoded(ls[i..])
    {
      EncodedStep(r, ls, i);
      r := r + [(|ls[i]| % 0x100) as byte];
      r := r + ls[i];
    }
    r := r + [0];
    if ValidLabels(ls) {
      EncodedIsPrinted(ls);
    }
  }

  lemma OneName(ls: Labels)
    ensures PrintNames([ls]) == PrintName(ls)
  {
    hide PrintName;
    assert [ls][1..] == [];
  }

  /** The generic decompressor for one name behind a fixed prefix. */
  lemma DecompressOne(d: bytes, start: nat, rtype: u16)
    requires ShapeOf(rtype).Some? && ShapeOf(rtype).value.names == 1 && ShapeOf(rtype).value.suffix == 0
    ensures var p := start + ShapeOf(rtype).value.prefix;
            var n := ParseName(d, p, MAX_POINTER_HOPS);
            Decompress(d, start, rtype) ==
              if p > |d| || n.None? then None else Some(d[start..p] + PrintName(n.value.labels))
  {
    hide ParseName, PrintName, ParseNames, PrintNames;
    var p := start + ShapeOf(rtype).value.prefix;
    OneNameParses(d, p);
    var n := ParseName(d, p, MAX_POINTER_HOPS);
    if p <= |d| && n.Some? {
      OneName(n.value.labels);
      assert d[start..p] + PrintName(n.value.labels) + d[n.value.next..n.value.next] == d[start..p] + PrintName(n.value.labels);
    }
  }

  lemma OneNameParses(d: bytes, o: nat)
    ensures ParseNames(d, o, 1) ==
            (match ParseName(d, o, MAX_POINTER_HOPS) case None => None case Some(n) => Some(NameList([n.labels], n.next)))
  {
    hide ParseName;
    var n := ParseName(d, o, MAX_POINTER_HOPS);
    if n.Some? {
      NoNames(d, n.value.next);
      assert [n.value.labels] + [] == [n.value.labels];
    }
  }

  lemma TwoNamesParse(d: bytes, o: nat)
    ensures var m := ParseName(d, o, MAX_POINTER_HOPS);
            var r := if m.Some? then ParseName(d, m.value.next, MAX_POINTER_HOPS) else None;
            ParseNames(d, o, 2) == if r.None? then None else Some(NameList([m.value.labels, r.value.labels], r.value.next))
  {
    hide ParseName;
    var m := ParseName(d, o, MAX_POINTER_HOPS);
    if m.Some? {
      OneNameParses(d, m.value.next);
      var r := ParseName(d, m.value.next, MAX_POINTER_HOPS);
      assert r.Some? ==> [m.value.labels] + [r.value.labels] == [m.value.labels, r.value.labels];
    }
  }

  lemma TwoNames(m: Labels, r: Labels)
    ensures PrintNames([m, r]) == PrintName(m) + PrintName(r)
  {
    hide PrintName;
    OneName(r);
    assert [m, r][1..] == [r];
  }

  lemma DecompressSoa(d: bytes, start: nat)
    ensures var m := ParseName(d, start, MAX_POINTER_HOPS);
            var r := if m.Some? then ParseName(d, m.value.next, MAX_POINTER_HOPS) else None;
            Decompress(d, start, TYPE_SOA) ==
              if m.None? || r.None? || r.value.next + 20 > |d| then None
              else Some(PrintName(m.value.labels) + PrintName(r.value.labels) + d[r.value.next..r.value.next + 20])
  {
    hide ParseName, PrintName, ParseNames, PrintNames;
    ParseNameNeedsRoom(d, start);
    TwoNamesParse(d, start);
    var m := ParseName(d, start, MAX_POINTER_HOPS);
    if m.Some? {
      var r := ParseName(d, m.value.next, MAX_POINTER_HOPS);
      if r.Some? {
        TwoNames(m.value.labels, r.value.labels);
        assert d[start..start] + PrintNames([m.value.labels, r.value.labels]) == PrintNames([m.value.labels, r.value.labels]);
      }
    }
  }

  lemma ParseNameNeedsRoom(d: bytes, o: nat)
    ensures ParseName(d, o, MAX_POINTER_HOPS).Some? ==> o < |d|
  {
  }

  method NameFromWire(d: bytes, offset: nat) returns (ok: bool, next: nat, labels: Labels)
    ensures ok == ParseName(d, offset, MAX_POINTER_HOPS).Some?
    ensures ok ==> ParseName(d, offset, MAX_POINTER_HOPS) == Some(Named(labels, next)) && ValidLabels(labels)
  {
    hide ParseName, Follows, ValidLabels;
    ok, next, labels := ParseDomainName(d, offset);
    if ok {
      ParsedLabelsAreValid(d, offset, MAX_POINTER_HOPS);
    }
  }

  /** One name behind `prefix` bytes, which are copied. */
  method DecompressNamed(d: bytes, start: nat, rtype: u16, prefix: nat, rdata: bytes) returns (ok: bool, out: bytes)
    requires ShapeOf(rtype) == Some(Shape(prefix, 1, 0))
    ensures ok == Decompress(d, start, rtype).Some?
    ensures out == if ok then Decompress(d, start, rtype).value else rdata
  {
    hide ParseName, PrintName, Decompress, ValidLabels, Encoded;
    DecompressOne(d, start, rtype);
    ParseNameNeedsRoom(d, start + prefix);
    if start + prefix > |d| {
      return false, rdata;
    }
    var parsed, next, labels := NameFromWire(d, start + prefix);
    if !parsed {
      return false, rdata;
    }
    out := EncodeDomainLabels(labels, d[start..start + prefix]);
    return true, out;
  }

  method DecompressSoaRdata(d: bytes, start: nat, rdata: bytes) returns (ok: bool, out: bytes)
    ensures ok == Decompress(d, start, TYPE_SOA).Some?
    ensures out == if ok then Decompress(d, start, TYPE_SOA).value else rdata
  {
    hide ParseName, PrintName, Decompress, ValidLabels, Encoded;
    DecompressSoa(d, start);
    var parsed, next, mname := NameFromWire(d, start);
    if !parsed {
      return false, rdata;
    }
    var parsed', next', rname := NameFromWire(d, next);
    if !parsed' {
      return false, rdata;
    }
    if next' + 20 > |d| {
      return false, rdata;
    }
    out := EncodeDomainLabels(mname, []);
    assert out == PrintName(mname);
    out := EncodeDomainLabels(rname, out);
    assert out == PrintName(mname) + PrintName(rname);
    out := out + d[next'..next' + 20];
    return true, out;
  }

  /** `out` is the RDATA buffer on return: untouched when the result is false. */
  method DecompressRdata(d: bytes, start: nat, rtype: u16, rdata: bytes) returns (ok: bool, out: bytes)
    ensures ok == Decompress(d, start, rtype).Some?
    ensures out == if ok then Decompress(d, start, rtype).value else rdata
  {
    hide Decompress;
    if rtype == TYPE_NS || rtype == TYPE_CNAME || rtype == TYPE_PTR {
      ok, out := DecompressNamed(d, start, rtype, 0, rdata);
    } else if rtype == TYPE_SOA {
      ok, out := DecompressSoaRdata(d, start, rdata);
    } else if rtype == TYPE_MX {
      ok, out := DecompressNamed(d, start, rtype, 2, rdata);
    } else if rtype == TYPE_SRV {
      ok, out := DecompressNamed(d, start, rtype, 6, rdata);
    } else {
      PlainRdata(d, start, rtype);
      ok, out := false, rdata;
    }
  }

  lemma PlainRdata(d: bytes, start: nat, rtype: u16)
    ensures ShapeOf(rtype).None? ==> Decompress(d, start, rtype).None?
  {
  }

  method QuestionFromWire(d: bytes, offset: nat) returns (ok: bool, next: nat, q: Question)
    ensures ok == ParseQuestion(d, offset).Some?
    ensures ok ==> ParseQuestion(d, offset) == Some(QuestionAt(q, next))
  {
    hide ParseName, ValidLabels;
    q := Question([], 0, 0);
    var parsed, f, labels := NameFromWire(d, offset);
    next := f;
    if !parsed {
      return false, next, q;
    }
    if f + 4 > |d| {
      return false, next, q;
    }
    q := Question(labels, Get16(d, f), Get16(d, f + 2));
    return true, f + 4, q;
  }

  method AnswerFromWire(d: bytes, offset: nat) returns (ok: bool, next: nat, a: Answer)
    ensures ok == ParseAnswer(d, offset).Some?
    ensures ok ==> ParseAnswer(d, offset) == Some(AnswerAt(a, next))
  {
    hide ParseName, ValidLabels, Decompress;
    a := Answer([], 0, 0, 0, 0, []);
    var parsed, f, labels := NameFromWire(d, offset);
    next := f;
    if !parsed {
      return false, next, a;
    }
    if f + 10 > |d| {
      return false, next, a;
    }
    var rtype, rclass, ttl, rdlength := Get16(d, f), Get16(d, f + 2), Get32(d, f + 4), Get16(d, f + 8);
    next := f + 10;
    if next + rdlength > |d| {
      return false, next, a;
    }
    var start := next;
    var rdata := d[next..next + rdlength];
    next := next + rdlength;
    PlainRdata(d, start, rtype);
    if rtype == TYPE_NS || rtype == TYPE_CNAME || rtype == TYPE_SOA || rtype == TYPE_PTR || rtype == TYPE_MX || rtype == TYPE_SRV {
      var _, expanded := DecompressRdata(d, start, rtype, rdata);
      rdata := expanded;
    }
    a := Answer(labels, rtype, rclass, ttl, |rdata| % 0x1_0000, rdata);
    return true, next, a;
  }

  /** The loop state: `done` is read up to `at`, and `left` more are to come. */
  ghost predicate QuestionsLeft(d: bytes, offset: nat, count: nat, done: seq<Question>, at: nat, left: nat) {
    match ParseQuestions(d, at, left)
    case None => ParseQuestions(d, offset, count) == None
    case Some(rest) => ParseQuestions(d, offset, count) == Some(QuestionList(done + rest.questions, rest.next))
  }

  lemma QuestionsLeftStep(d: bytes, offset: nat, count: nat, done: seq<Question>, at: nat, left: nat)
    requires left > 0 && QuestionsLeft(d, offset, count, done, at, left)
    ensures match ParseQuestion(d, at)
            case None => ParseQuestions(d, offset, count) == None
            case Some(first) => QuestionsLeft(d, offset, count, done + [first.question], first.next, left - 1)
  {
    hide ParseQuestion;
    assert ParseQuestions(d, at, left).Some? ==> ParseQuestion(d, at).Some?;
    if ParseQuestion(d, at).Some? {
      var first := ParseQuestion(d, at).value;
      var rest := ParseQuestions(d, first.next, left - 1);
      assert rest.Some? ==> done + ([first.question] + rest.value.questions) == (done + [first.question]) + rest.value.questions;
    }
  }

  lemma QuestionsLeftEnds(d: bytes, offset: nat, count: nat)
    ensures QuestionsLeft(d, offset, count, [], offset, count)
    ensures forall done, at :: QuestionsLeft(d, offset, count, done, at, 0) ==>
              ParseQuestions(d, offset, count) == Some(QuestionList(done, at))
  {
    var whole := ParseQuestions(d, offset, count);
    assert whole.Some? ==> [] + whole.value.questions == whole.value.questions;
    forall done, at | QuestionsLeft(d, offset, count, done, at, 0)
      ensures ParseQuestions(d, offset, count) == Some(QuestionList(done, at))
    {
      NoQuestions(d, at);
      assert done + [] == done;
    }
  }

  method QuestionsFromWire(d: bytes, offset: nat, count: nat) returns (ok: bool, next: nat, questions: seq<Question>)
    ensures ok == ParseQuestions(d, offset, count).Some?
    ensures ok ==> ParseQuestions(d, offset, count) == Some(QuestionList(questions, next))
  {
    hide ParseQuestion, ParseQuestions, QuestionsLeft;
    QuestionsLeftEnds(d, offset, count);
    next, questions := offset, [];
    for i := 0 to count
      invariant QuestionsLeft(d, offset, count, questions, next, count - i)
    {
      QuestionsLeftStep(d, offset, count, questions, next, count - i);
      var parsed, after, q := QuestionFromWire(d, next);
      if !parsed {
        return false, after, questions;
      }
      next, questions := after, questions + [q];
    }
    return true, next, questions;
  }

  ghost predicate AnswersLeft(d: bytes, offset: nat, count: nat, done: seq<Answer>, at: nat, left: nat) {
    match ParseAnswers(d, at, left)
    case None => ParseAnswers(d, offset, count) == None
    case Some(rest) => ParseAnswers(d, offset, count) == Some(AnswerList(done + rest.answers, rest.next))
  }

  lemma AnswersLeftStep(d: bytes, offset: nat, count: nat, done: seq<Answer>, at: nat, left: nat)
    requires left > 0 && AnswersLeft(d, offset, count, done, at, left)
    ensures match ParseAnswer(d, at)
            case None => ParseAnswers(d, offset, count) == None
            case Some(first) => AnswersLeft(d, offset, count, done + [first.answer], first.next, left - 1)
  {
    hide ParseAnswer;
    assert ParseAnswers(d, at, left).Some? ==> ParseAnswer(d, at).Some?;
    if ParseAnswer(d, at).Some? {
      var first := ParseAnswer(d, at).value;
      var rest := ParseAnswers(d, first.next, left - 1);
      assert rest.Some? ==> done + ([first.answer] + rest.value.answers) == (done + [first.answer]) + rest.value.answers;
    }
  }

  lemma AnswersLeftEnds(d: bytes, offset: nat, count: nat)
    ensures AnswersLeft(d, offset, count, [], offset, count)
    ensures forall done, at :: AnswersLeft(d, offset, count, done, at, 0) ==>
              ParseAnswers(d, offset, count) == Some(AnswerList(done, at))
  {
    var whole := ParseAnswers(d, offset, count);
    assert whole.Some? ==> [] + whole.value.answers == whole.value.answers;
    forall done, at | AnswersLeft(d, offset, count, done, at, 0)
      ensures ParseAnswers(d, offset, count) == Some(AnswerList(done, at))
    {
      NoAnswers(d, at);
      assert done + [] == done;
    }
  }

  method AnswersFromWire(d: bytes, offset: nat, count: nat) returns (ok: bool, next: nat, answers: seq<Answer>)
    ensures ok == ParseAnswers(d, offset, count).Some?
    ensures ok ==> ParseAnswers(d, offset, count) == Some(AnswerList(answers, next))
  {
    hide ParseAnswer, ParseAnswers, AnswersLeft;
    AnswersLeftEnds(d, offset, count);
    next, answers := offset, [];
    for i := 0 to count
      invariant AnswersLeft(d, offset, count, answers, next, count - i)
    {
      AnswersLeftStep(d, offset, count, answers, next, count - i);
      var parsed, after, a := AnswerFromWire(d, next);
      if !parsed {
        return false, after, answers;
      }
      next, answers := after, answers + [a];
    }
    return true, next, answers;
  }

  // ---------------------------------------------------------------------
  // Writing.

  method CopyTo(out: array<byte>, o: nat, x: bytes)
    requires o + |x| <= out.Length
    modifies out
    ensures out[..] == Overwrite(old(out[..]), o, x)
  {
    forall i | 0 <= i < |x| {
      out[o + i] := x[i];
    }
    assert out[..] == Overwrite(old(out[..]), o, x);
  }

  method LabelToWire(out: array<byte>, o: nat, l: bytes)
    requires |l| <= MAX_LABEL && o + 1 + |l| <= out.Length
    modifies out
    ensures out[..] == Overwrite(old(out[..]), o, Prefixed(l))
  {
    CopyTo(out, o, [|l| as byte]);
    CopyTo(out, o + 1, l);
    OverwriteTwice(old(out[..]), o, [|l| as byte], l);
  }

  /** The label loop of both ToWire functions, with the terminator. */
  method NameToWire(out: array<byte>, o: nat, ls: Labels) returns (end: nat)
    requires o + NameSize(ls) <= out.Length
    modifies out
    ensures end == o + NameSize(ls) && out[..] == Overwrite(old(out[..]), o, PrintName(ls))
  {
    hide PrintName, Prefixed, NameSize, Overwrite;
    ghost var before, done: bytes := out[..], [];
    end := o;
    NothingWritten(before, o);
    PrintNameEnds(ls);
    for i := 0 to |ls|
      invariant end == o + |done| && o + |PrintName(ls)| <= out.Length
      invariant done + PrintName(ls[i..]) == PrintName(ls)
      invariant out[..] == Overwrite(before, o, done)
    {
      PrintNameStep(done, ls, i);
      if |ls[i]| > MAX_LABEL {
        continue;
      }
      LabelToWire(out, end, ls[i]);
      OverwriteTwice(before, o, done, Prefixed(ls[i]));
      end := end + 1 + |ls[i]|;
      done := done + Prefixed(ls[i]);
    }
    CopyTo(out, end, [0]);
    OverwriteTwice(before, o, done, [0]);
    end := end + 1;
  }

  method FixedToWire(out: array<byte>, o: nat, rtype: u16, rclass: u16, ttl: u32, rdlength: u16)
    requires o + 10 <= out.Length
    modifies out
    ensures out[..] == Overwrite(old(out[..]), o, PrintFixed(rtype, rclass, ttl, rdlength))
  {
    hide Overwrite, Put16, Put32;
    ghost var before := out[..];
    CopyTo(out, o, Put16(rtype));
    CopyTo(out, o + 2, Put16(rclass));
    OverwriteTwice(before, o, Put16(rtype), Put16(rclass));
    CopyTo(out, o + 4, Put32(ttl));
    OverwriteTwice(before, o, Put16(rtype) + Put16(rclass), Put32(ttl));
    CopyTo(out, o + 8, Put16(rdlength));
    OverwriteTwice(before, o, Put16(rtype) + Put16(rclass) + Put32(ttl), Put16(rdlength));
  }

  /** 0 bytes, and nothing written, when the question does not fit. */
  method QuestionToWire(q: Question, out: array<byte>, o: nat) returns (n: nat)
    requires o <= out.Length
    modifies out
    ensures n == if o + QuestionSize(q) > out.Length then 0 else QuestionSize(q)
    ensures out[..] == if n == 0 then old(out[..]) else Overwrite(old(out[..]), o, PrintQuestion(q))
  {
    hide PrintName, NameSize, Overwrite, Put16;
    if out.Length - o < QuestionSize(q) {
      return 0;
    }
    ghost var before := out[..];
    var end := NameToWire(out, o, q.qname);
    CopyTo(out, end, Put16(q.qtype));
    CopyTo(out, end + 2, Put16(q.qclass));
    OverwriteTwice(Overwrite(before, o, PrintName(q.qname)), end, Put16(q.qtype), Put16(q.qclass));
    OverwriteTwice(before, o, PrintName(q.qname), Put16(q.qtype) + Put16(q.qclass));
    return end + 4 - o;
  }

  method AnswerToWire(a: Answer, out: array<byte>, o: nat) returns (n: nat)
    requires o <= out.Length
    modifies out
    ensures n == if o + AnswerSize(a) > out.Length then 0 else AnswerSize(a)
    ensures out[..] == if n == 0 then old(out[..]) else Overwrite(old(out[..]), o, PrintAnswer(a))
  {
    hide PrintName, NameSize, Overwrite, PrintFixed;
    if out.Length - o < AnswerSize(a) {
      return 0;
    }
    ghost var before := out[..];
    ghost var fixed := PrintFixed(a.rtype, a.rclass, a.ttl, a.rdlength);
    var end := NameToWire(out, o, a.name);
    FixedToWire(out, end, a.rtype, a.rclass, a.ttl, a.rdlength);
    CopyTo(out, end + 10, a.rdata);
    OverwriteTwice(Overwrite(before, o, PrintName(a.name)), end, fixed, a.rdata);
    OverwriteTwice(before, o, PrintName(a.name), fixed + a.rdata);
    return end + 10 + |a.rdata| - o;
  }

  /** The question loop of a packet's ToWire, whose caller has checked the size. */
  method QuestionsToWire(qs: seq<Question>, out: array<byte>, o: nat) returns (end: nat)
    requires o + QuestionsSize(qs) <= out.Length
    modifies out
    ensures end == o + QuestionsSize(qs)
    ensures out[..] == Overwrite(old(out[..]), o, PrintQuestions(qs))
  {
    hide PrintQuestion, PrintQuestions, Overwrite, QuestionSize, QuestionsSize;
    ghost var before, done: bytes := out[..], [];
    end := o;
    NothingWritten(before, o);
    assert qs[0..] == qs && [] + PrintQuestions(qs) == PrintQuestions(qs);
    for i := 0 to |qs|
      invariant end == o + |done|
      invariant done + PrintQuestions(qs[i..]) == PrintQuestions(qs)
      invariant out[..] == Overwrite(before, o, done)
    {
      ghost var x := PrintQuestion(qs[i]);
      QuestionsDone(done, qs, i);
      var n := QuestionToWire(qs[i], out, end);
      OverwriteTwice(before, o, done, x);
      end, done := end + n, done + x;
    }
    NothingLeft(done);
    assert qs[|qs|..] == [];
  }

  lemma QuestionsDone(done: bytes, qs: seq<Question>, i: nat)
    requires i < |qs|
    ensures done + PrintQuestions(qs[i..]) == (done + PrintQuestion(qs[i])) + PrintQuestions(qs[i + 1..])
  {
    hide PrintQuestion, PrintQuestions;
    PrintQuestionsFrom(qs, i);
    assert done + (PrintQuestion(qs[i]) + PrintQuestions(qs[i + 1..])) == (done + PrintQuestion(qs[i])) + PrintQuestions(qs[i + 1..]);
  }

  lemma AnswersDone(done: bytes, answers: seq<Answer>, i: nat)
    requires i < |answers|
    ensures done + PrintAnswers(answers[i..]) == (done + PrintAnswer(answers[i])) + PrintAnswers(answers[i + 1..])
  {
    hide PrintAnswer, PrintAnswers;
    PrintAnswersFrom(answers, i);
    assert done + (PrintAnswer(answers[i]) + PrintAnswers(answers[i + 1..])) ==
           (done + PrintAnswer(answers[i])) + PrintAnswers(answers[i + 1..]);
  }

  lemma NothingLeft(done: bytes)
    ensures done + PrintQuestions([]) == done && done + PrintAnswers([]) == done
  {
  }

  method AnswersToWire(answers: seq<Answer>, out: array<byte>, o: nat) returns (end: nat)
    requires o + AnswersSize(answers) <= out.Length
    modifies out
    ensures end == o + AnswersSize(answers)
    ensures out[..] == Overwrite(old(out[..]), o, PrintAnswers(answers))
  {
    hide PrintAnswer, PrintAnswers, Overwrite, AnswerSize, AnswersSize;
    ghost var before, done: bytes := out[..], [];
    end := o;
    NothingWritten(before, o);
    assert answers[0..] == answers && [] + PrintAnswers(answers) == PrintAnswers(answers);
    for i := 0 to |answers|
      invariant end == o + |done|
      invariant done + PrintAnswers(answers[i..]) == PrintAnswers(answers)
      invariant out[..] == Overwrite(before, o, done)
    {
      ghost var x := PrintAnswer(answers[i]);
      AnswersDone(done, answers, i);
      var n := AnswerToWire(answers[i], out, end);
      OverwriteTwice(before, o, done, x);
      end, done := end + n, done + x;
    }
    NothingLeft(done);
    assert answers[|answers|..] == [];
  }

  class DnsResponsePacket {
    var header: Header
    var questions: seq<Question>
    var answers: seq<Answer>
    var authority: seq<Answer>
    var additional: seq<Answer>

    function View(): Packet
      reads this
    {
      Packet(header, questions, answers, authority, additional)
    }

    constructor ()
      ensures View() == Packet(Header(0, 0, 0, 0, 0, 0), [], [], [], [])
    {
      header := Header(0, 0, 0, 0, 0, 0);
      questions, answers, authority, additional := [], [], [], [];
    }

    /** The fields hold the packet that `d` means; after a failure they are left half filled. */
    method FromWire(d: bytes) returns (ok: bool)
      modifies this
      ensures ok == ParseResponse(d).Some?
      ensures ok ==> View() == ParseResponse(d).value.packet
    {
      hide ParseQuestions, ParseAnswers, Get16;
      if |d| < HEADER_SIZE {
        return false;
      }
      header := HeaderAt(d);
      if header.Z() {
        return false;
      }
      if !header.Qr() {
        return false;
      }
      var parsed, offset, qs := QuestionsFromWire(d, HEADER_SIZE, header.qdcount);
      questions := qs;
      if !parsed {
        return false;
      }
      var records;
      parsed, offset, records := AnswersFromWire(d, offset, header.ancount);
      answers := records;
      if !parsed {
        return false;
      }
      parsed, offset, records := AnswersFromWire(d, offset, header.nscount);
      authority := records;
      if !parsed {
        return false;
      }
      parsed, offset, records := AnswersFromWire(d, offset, header.arcount);
      additional := records;
      if !parsed {
        return false;
      }
      return |questions| == header.qdcount && |answers| == header.ancount &&
             |authority| == header.nscount && |additional| == header.arcount;
    }

    /** Writes the packet at the start of `out`, or nothing if it does not fit. */
    method ToWire(out: array<byte>) returns (n: nat)
      modifies out
      ensures n == if out.Length < ResponseSize(View()) then 0 else ResponseSize(View())
      ensures out[..] == if n == 0 then old(out[..]) else Overwrite(old(out[..]), 0, PrintResponse(View()))
    {
      hide PrintQuestions, PrintAnswers, PrintHeader, QuestionsSize, AnswersSize, Overwrite;
      if out.Length < ResponseSize(View()) {
        return 0;
      }
      ghost var before := out[..];
      ghost var h, qs, an, ns, ar := PrintHeader(header), PrintQuestions(questions), PrintAnswers(answers), PrintAnswers(authority), PrintAnswers(additional);
      CopyTo(out, 0, PrintHeader(header));
      var offset := QuestionsToWire(questions, out, HEADER_SIZE);
      offset := AnswersToWire(answers, out, offset);
      offset := AnswersToWire(authority, out, offset);
      offset := AnswersToWire(additional, out, offset);
      OverwriteFive(before, h, qs, an, ns, ar);
      return offset;
    }
  }

  lemma OverwriteFive(d: bytes, a: bytes, b: bytes, c: bytes, e: bytes, f: bytes)
    requires |a| + |b| + |c| + |e| + |f| <= |d|
    ensures Overwrite(Overwrite(Overwrite(Overwrite(Overwrite(d, 0, a), |a|, b), |a| + |b|, c), |a| + |b| + |c|, e), |a| + |b| + |c| + |e|, f)
            == Overwrite(d, 0, a + (b + (c + (e + f))))
  {
    hide Overwrite;
    OverwriteTwice(Overwrite(Overwrite(Overwrite(d, 0, a), |a|, b), |a| + |b|, c), |a| + |b| + |c|, e, f);
    OverwriteTwice(Overwrite(Overwrite(d, 0, a), |a|, b), |a| + |b|, c, e + f);
    OverwriteTwice(Overwrite(d, 0, a), |a|, b, c + (e + f));
    OverwriteTwice(d, 0, a, b + (c + (e + f)));
  }
}
