// Appending an OPT record (section 6.1 of RFC 6891) to a finished message.
module OptRecords {
  import opened Wire
  import opened Names
  import opened Messages
  import opened Frames
  import opened Buffers
  import opened RoundTrip
  import opened Edns
  import opened CacheMeaning
  import opened Responses
  import opened RdataMeaning
  import opened BuilderMeaning
  import opened Grammar

  const COOKIE: u16 := 10
  const COOKIE_MIN := 8
  const COOKIE_MAX := 40
  const SERVER_UDP_PAYLOAD: u16 := 1232

  predicate IsCookie(x: EdnsOption) {
    x.code == COOKIE && COOKIE_MIN <= |x.data| <= COOKIE_MAX
  }

  /** The options that are echoed, in order. */
  function Cookies(xs: seq<EdnsOption>): (r: seq<EdnsOption>)
    ensures PrintableOptions(r)
    ensures forall x :: x in r <==> x in xs && IsCookie(x)
  {
    if xs == [] then []
    else if IsCookie(xs[0]) then [xs[0]] + Cookies(xs[1..])
    else Cookies(xs[1..])
  }

  function Echoed(edns: Option<EdnsData>): bytes {
    match edns
    case None => []
    case Some(e) => PrintOptions(Cookies(e.options))
  }

  function OptAnswer(extendedRcode: byte, rdata: bytes): Answer {
    Answer([], TYPE_OPT, SERVER_UDP_PAYLOAD, extendedRcode as int * 0x100_0000, |rdata| % 0x1_0000, rdata)
  }

  /** The record that is appended; RDATA too long for RDLENGTH is left out. */
  function AppendedOpt(extendedRcode: byte, edns: Option<EdnsData>): Answer {
    OptAnswer(extendedRcode, if |Echoed(edns)| > 0xFFFF then [] else Echoed(edns))
  }

  /** `m` with the record behind it and ARCOUNT raised, which wraps around in 16 bits. */
  function WithOpt(m: bytes, extendedRcode: byte, edns: Option<EdnsData>): bytes {
    var d := m + PrintAnswer(AppendedOpt(extendedRcode, edns));
    if |d| >= HEADER_SIZE then Overwrite(d, 10, Put16((Get16(d, 10) + 1) % 0x1_0000)) else d
  }

  lemma CookiesStep(done: bytes, xs: seq<EdnsOption>, i: nat)
    requires i < |xs|
    ensures done + PrintOptions(Cookies(xs[i..])) ==
            (if IsCookie(xs[i]) then done + PrintOption(xs[i]) else done) + PrintOptions(Cookies(xs[i + 1..]))
  {
    hide PrintOption;
    assert xs[i..][1..] == xs[i + 1..];
    if IsCookie(xs[i]) {
      var rest := Cookies(xs[i + 1..]);
      assert ([xs[i]] + rest)[1..] == rest;
      assert done + (PrintOption(xs[i]) + PrintOptions(rest)) == (done + PrintOption(xs[i])) + PrintOptions(rest);
    }
  }

  method EchoCookies(xs: seq<EdnsOption>) returns (rdata: bytes)
    ensures rdata == PrintOptions(Cookies(xs))
  {
    hide PrintOptions, PrintOption, Put16;
    var buffer := new Buffer();
    assert xs[0..] == xs && [] + PrintOptions(Cookies(xs)) == PrintOptions(Cookies(xs));
    for i := 0 to |xs|
      invariant PrintOptions(Cookies(xs)) == buffer.data + PrintOptions(Cookies(xs[i..]))
    {
      CookiesStep(buffer.data, xs, i);
      if xs[i].code == COOKIE && |xs[i].data| >= COOKIE_MIN && |xs[i].data| <= COOKIE_MAX {
        OptionParts(buffer.data, xs[i]);
        buffer.Append16(xs[i].code);
        buffer.Append16(|xs[i].data|);
        buffer.Append(xs[i].data);
      }
    }
    assert xs[|xs|..] == [];
    NoCookies(buffer.data);
    return buffer.data;
  }

  lemma OptionParts(done: bytes, x: EdnsOption)
    requires |x.data| < 0x1_0000
    ensures done + Put16(x.code) + Put16(|x.data|) + x.data == done + PrintOption(x)
  {
    hide Put16;
  }

  lemma NoCookies(done: bytes)
    ensures done + PrintOptions(Cookies([])) == done
  {
  }

  method AppendOpt(output: Buffer, extendedRcode: byte, edns: Option<EdnsData>)
    modifies output
    ensures output.data == WithOpt(old(output.data), extendedRcode, edns)
  {
    hide PrintOptions, Put16, Get16, Overwrite, PrintAnswer, Cookies, OptAnswer;
    var rdata: bytes := [];
    if edns.Some? {
      rdata := EchoCookies(edns.value.options);
    }
    AppendOptRecord(output, extendedRcode, rdata);
    if |output.data| >= HEADER_SIZE {
      var arcount: int := Get16(output.data, 10);
      output.Write16(10, (arcount + 1) % 0x1_0000);
    }
  }

  method AppendOptRecord(output: Buffer, extendedRcode: byte, rdata: bytes)
    modifies output
    ensures output.data == old(output.data) + PrintAnswer(OptAnswer(extendedRcode, if |rdata| > 0xFFFF then [] else rdata))
  {
    hide PrintFixed, PrintAnswer;
    ghost var m := output.data;
    var length := if |rdata| > 0xFFFF then 0 else |rdata|;
    OptParts(m, OptAnswer(extendedRcode, if |rdata| > 0xFFFF then [] else rdata));
    output.Append([0]);
    AppendFixed(output, TYPE_OPT, SERVER_UDP_PAYLOAD, extendedRcode as int * 0x100_0000, length);
    if length > 0 {
      output.Append(rdata);
    }
  }

  lemma OptParts(m: bytes, a: Answer)
    requires a.name == []
    ensures var head := m + [0] + PrintFixed(a.rtype, a.rclass, a.ttl, a.rdlength);
            m + PrintAnswer(a) == head + a.rdata && (a.rdata == [] ==> m + PrintAnswer(a) == head)
  {
    hide PrintFixed;
    assert PrintName(a.name) == [0];
    var fixed := PrintFixed(a.rtype, a.rclass, a.ttl, a.rdlength);
    assert m + ([0] + (fixed + a.rdata)) == m + [0] + fixed + a.rdata;
  }

  // ---------------------------------------------------------------------
  // What the result means.

  lemma {:induction false} RecordsUntouched(d: bytes, e: bytes, o: nat, n: nat)
    requires HEADER_SIZE <= o <= |d| <= |e| && forall i :: HEADER_SIZE <= i < |d| ==> d[i] == e[i]
    requires ParseAnswers(d, o, n).Some?
    ensures RecordsAged(d, e, o, n, 0)
    decreases n
  {
    hide ParseAnswer, FieldsOf, Get16, Get32;
    if n > 0 {
      var f, next := FieldsOf(d, o), ParseAnswer(d, o).value.next;
      assert Get32(e, f + 4) == Get32(d, f + 4) by { SameInt(d, e, f + 4); }
      RecordsUntouched(d, e, next, n - 1);
    }
  }

  lemma {:induction false} NothingAged(answers: seq<Answer>)
    ensures AgedAll(answers, 0) == answers
  {
    if answers != [] {
      NothingAged(answers[1..]);
      assert [answers[0]] + answers[1..] == answers;
    }
  }

  /** The records of `d` read the same in a buffer that only differs in the header and behind the end. */
  lemma SectionUntouched(d: bytes, e: bytes, o: nat, n: nat)
    requires HEADER_SIZE <= o <= |d| <= |e| && forall i :: HEADER_SIZE <= i < |d| ==> d[i] == e[i]
    requires ParseAnswers(d, o, n).Some? && AllDecompress(d, o, n) && RecordsAvoidHeader(d, o, n)
    ensures ParseAnswers(e, o, n) == ParseAnswers(d, o, n)
  {
    hide ParseAnswers, AllDecompress, RecordsAged, AnswersRead, AgedAll;
    forall i: nat | AnswersRead(d, o, n, i) ensures Same(d, e, i) {
      AnswerReadsInside(d, o, n, i);
    }
    RecordsUntouched(d, e, o, n);
    AnswersFrame(d, e, o, n, 0);
    NothingAged(ParseAnswers(d, o, n).value.answers);
  }

  lemma {:induction false} OneMoreAnswer(d: bytes, o: nat, n: nat)
    requires ParseAnswers(d, o, n).Some? && ParseAnswer(d, ParseAnswers(d, o, n).value.next).Some?
    ensures var list := ParseAnswers(d, o, n).value;
            var last := ParseAnswer(d, list.next).value;
            ParseAnswers(d, o, n + 1) == Some(AnswerList(list.answers + [last.answer], last.next))
    decreases n
  {
    hide ParseAnswer;
    if n == 0 {
      NoAnswers(d, o);
      NoAnswers(d, ParseAnswer(d, o).value.next);
      ParseAnswersCons(d, o, 1);
      var last := ParseAnswer(d, o).value.answer;
      assert [last] + [] == [] + [last];
    } else {
      var first := ParseAnswer(d, o).value;
      OneMoreAnswer(d, first.next, n - 1);
      ParseAnswersCons(d, o, n + 1);
      var rest := ParseAnswers(d, first.next, n - 1).value;
      var last := ParseAnswer(d, rest.next).value;
      assert [first.answer] + (rest.answers + [last.answer]) == ([first.answer] + rest.answers) + [last.answer];
    }
  }

  /** The appended record reads back as itself. */
  lemma AppendedOptParses(d: bytes, o: nat, a: Answer)
    requires At(d, o, PrintAnswer(a)) && Sized(a) && a.name == [] && a.rtype == TYPE_OPT
    ensures ParseAnswer(d, o) == Some(AnswerAt(a, o + |PrintAnswer(a)|))
  {
    hide PrintAnswer, At, RecordIn, ParseAnswer;
    PrintedAnswer(d, o, a);
    OptSettles(d, o + NameSize(a.name) + 10, a);
    RecordEnds(d, o, a);
  }

  lemma OptSettles(d: bytes, start: nat, a: Answer)
    requires a.rtype == TYPE_OPT
    ensures Settled(d, start, a)
  {
  }

  lemma RecordEnds(d: bytes, o: nat, a: Answer)
    requires Sized(a) && RecordIn(d, o, o + NameSize(a.name), a) && Settled(d, o + NameSize(a.name) + 10, a)
    ensures ParseAnswer(d, o) == Some(AnswerAt(a, o + AnswerSize(a)))
  {
    hide RecordIn, Settled;
    RecordParses(d, o, o + NameSize(a.name), a);
  }

  /**
   * Appending an OPT record extends meaning. If a message parses to its last byte, resolves
   * no name through its header and decompresses all its record data, then with the record
   * appended it parses to the same packet, ARCOUNT raised by one, and one more additional
   * record.
   */
  lemma AppendOptMeaning(m: bytes, extendedRcode: byte, edns: Option<EdnsData>)
    requires ParseResponse(m).Some? && ParseResponse(m).value.next == |m| && HeaderFree(m)
    requires HeaderAt(m).arcount < 0xFFFF
    ensures var p, d := ParseResponse(m).value.packet, WithOpt(m, extendedRcode, edns);
            ParseResponse(d) == Some(Parsed(
              p.(header := p.header.(arcount := p.header.arcount + 1),
                 additional := p.additional + [AppendedOpt(extendedRcode, edns)]), |d|))
  {
    hide ParseQuestions, ParseAnswers, AppendedOpt, PrintAnswer, Overwrite, Put16, Get16, AnswersAt, AuthorityAt, AdditionalAt,
         AnswersRead, QuestionsRead, AllDecompress, At, ParseResponse;
    var a, d := AppendedOpt(extendedRcode, edns), WithOpt(m, extendedRcode, edns);
    ResponseParts(m);
    OnlyArcountChanges(m, PrintAnswer(a));
    HeaderFreeParts(m);
    var h := HeaderAt(m);
    QuestionsUntouched(m, d, h.qdcount);
    SectionUntouched(m, d, AnswersAt(m), h.ancount);
    SectionUntouched(m, d, AuthorityAt(m), h.nscount);
    SectionUntouched(m, d, AdditionalAt(m), h.arcount);
    AppendedOptIsOpt(extendedRcode, edns);
    AppendedOptParses(d, |m|, a);
    OneMoreAnswer(d, AdditionalAt(m), h.arcount);
    PartsMakeResponse(d, ParseResponse(m).value.packet.questions, AnswersAt(m), AuthorityAt(m), AdditionalAt(m));
  }

  lemma AppendedOptIsOpt(extendedRcode: byte, edns: Option<EdnsData>)
    ensures var a := AppendedOpt(extendedRcode, edns);
            Sized(a) && a.name == [] && a.rtype == TYPE_OPT
  {
    hide Echoed;
  }

  /** WithOpt changes ARCOUNT, adds the record behind the end, and nothing else. */
  lemma OnlyArcountChanges(m: bytes, x: bytes)
    requires |m| >= HEADER_SIZE && Get16(m, 10) < 0xFFFF
    ensures var d := Overwrite(m + x, 10, Put16((Get16(m + x, 10) + 1) % 0x1_0000));
            && |d| == |m| + |x|
            && (forall i :: HEADER_SIZE <= i < |m| ==> d[i] == m[i])
            && HeaderAt(d) == HeaderAt(m).(arcount := HeaderAt(m).arcount + 1)
            && At(d, |m|, x)
  {
    hide Put16;
    var d := Overwrite(m + x, 10, Put16((Get16(m + x, 10) + 1) % 0x1_0000));
    assert Get16(m + x, 10) == Get16(m, 10);
    assert d[10] == Put16(Get16(m, 10) + 1)[0] && d[11] == Put16(Get16(m, 10) + 1)[1];
    assert d[|m|..|m| + |x|] == x;
  }

  lemma HeaderFreeParts(m: bytes)
    requires ParseResponse(m).Some? && HeaderFree(m)
    requires HEADER_SIZE <= |m|
    ensures var h := HeaderAt(m);
            && (forall i: nat :: QuestionsRead(m, HEADER_SIZE, h.qdcount, i) ==> HEADER_SIZE <= i)
            && ParseAnswers(m, AnswersAt(m), h.ancount).Some? && AllDecompress(m, AnswersAt(m), h.ancount)
            && ParseAnswers(m, AuthorityAt(m), h.nscount).Some? && AllDecompress(m, AuthorityAt(m), h.nscount)
            && ParseAnswers(m, AdditionalAt(m), h.arcount).Some? && AllDecompress(m, AdditionalAt(m), h.arcount)
            && RecordsAvoidHeader(m, AnswersAt(m), h.ancount)
            && RecordsAvoidHeader(m, AuthorityAt(m), h.nscount)
            && RecordsAvoidHeader(m, AdditionalAt(m), h.arcount)
  {
    hide ParseQuestions, ParseAnswers, AnswersAt, AuthorityAt, AdditionalAt, AnswersRead, QuestionsRead, AllDecompress, ParseResponse, Get16;
    ResponseParts(m);
    var h := HeaderAt(m);
    assert forall i: nat :: QuestionsRead(m, HEADER_SIZE, h.qdcount, i) ==> ResolutionReads(m, i);
    assert forall i: nat :: AnswersRead(m, AnswersAt(m), h.ancount, i) ==> ResolutionReads(m, i);
    assert forall i: nat :: AnswersRead(m, AuthorityAt(m), h.nscount, i) ==> ResolutionReads(m, i);
    assert forall i: nat :: AnswersRead(m, AdditionalAt(m), h.arcount, i) ==> ResolutionReads(m, i);
  }

  lemma QuestionsUntouched(d: bytes, e: bytes, n: nat)
    requires HEADER_SIZE <= |d| <= |e| && forall i :: HEADER_SIZE <= i < |d| ==> d[i] == e[i]
    requires ParseQuestions(d, HEADER_SIZE, n).Some? && ParseQuestions(d, HEADER_SIZE, n).value.next <= |d|
    requires forall i: nat :: QuestionsRead(d, HEADER_SIZE, n, i) ==> HEADER_SIZE <= i
    ensures ParseQuestions(e, HEADER_SIZE, n) == ParseQuestions(d, HEADER_SIZE, n)
  {
    hide ParseQuestions, QuestionsRead;
    forall i: nat | QuestionsRead(d, HEADER_SIZE, n, i) ensures Same(d, e, i) {
      QuestionReadsInside(d, HEADER_SIZE, n, i);
    }
    QuestionsFrame(d, e, HEADER_SIZE, n);
  }

  /** The converse of ResponseParts. */
  lemma PartsMakeResponse(d: bytes, questions: seq<Question>, an: nat, ns: nat, ar: nat)
    requires HEADER_SIZE <= |d| && HeaderAt(d).Qr() && !HeaderAt(d).Z()
    requires ParseQuestions(d, HEADER_SIZE, HeaderAt(d).qdcount) == Some(QuestionList(questions, an))
    requires ParseAnswers(d, an, HeaderAt(d).ancount).Some? && ParseAnswers(d, an, HeaderAt(d).ancount).value.next == ns
    requires ParseAnswers(d, ns, HeaderAt(d).nscount).Some? && ParseAnswers(d, ns, HeaderAt(d).nscount).value.next == ar
    requires ParseAnswers(d, ar, HeaderAt(d).arcount).Some?
    ensures ParseResponse(d) == Some(Parsed(
              Packet(HeaderAt(d), questions, ParseAnswers(d, an, HeaderAt(d).ancount).value.answers,
                     ParseAnswers(d, ns, HeaderAt(d).nscount).value.answers,
                     ParseAnswers(d, ar, HeaderAt(d).arcount).value.answers),
              ParseAnswers(d, ar, HeaderAt(d).arcount).value.next))
  {
    hide ParseQuestions, ParseAnswers, Get16;
  }

  // ---------------------------------------------------------------------
  // What the record holds.

  lemma {:induction false} CookiesAreSmaller(xs: seq<EdnsOption>)
    requires PrintableOptions(xs)
    ensures |PrintOptions(Cookies(xs))| <= |PrintOptions(xs)|
  {
    hide PrintOption;
    if xs != [] {
      CookiesAreSmaller(xs[1..]);
      if IsCookie(xs[0]) {
        var rest := Cookies(xs[1..]);
        assert ([xs[0]] + rest)[1..] == rest;
      }
    }
  }

  /** For EDNS data that the request parser stored, the echoed options always fit RDLENGTH. */
  lemma EchoNeverOverflows(d: bytes, o: nat, n: nat)
    ensures |Echoed(Run(d, o, n, 0, START).edns)| <= 0xFFFF
  {
    hide Run, PrintOptions, Cookies;
    RunStoresFittingOptions(d, o, n, 0, START);
    var edns := Run(d, o, n, 0, START).edns;
    if edns.Some? {
      CookiesAreSmaller(edns.value.options);
    }
  }

  /** The RDATA of the appended record decodes to exactly the cookies, in order. */
  lemma EchoedOptionsDecode(extendedRcode: byte, e: EdnsData)
    requires |Echoed(Some(e))| <= 0xFFFF
    ensures var rdata := AppendedOpt(extendedRcode, Some(e)).rdata;
            ParseOptions(rdata, 0, |rdata|) == Some(Cookies(e.options))
  {
    hide PrintOptions, Cookies, ParseOptions;
    var rdata := PrintOptions(Cookies(e.options));
    AtSlice(rdata, 0, rdata);
    OptionsExact(rdata, 0, |rdata|, Cookies(e.options));
  }

  /** What one option contributes: itself if it is a COOKIE of 8 to 40 bytes. */
  function CookieIn(x: EdnsOption): seq<EdnsOption> {
    if x.code == 10 && 8 <= |x.data| <= 40 then [x] else []
  }

  lemma CookiesCons(x: EdnsOption, rest: seq<EdnsOption>)
    ensures Cookies([x] + rest) == CookieIn(x) + Cookies(rest)
  {
    assert ([x] + rest)[1..] == rest;
    assert [] + Cookies(rest) == Cookies(rest);
  }

  lemma NoCookiesIn()
    ensures Cookies([]) == []
  {
  }

  lemma Regrouped(a: seq<EdnsOption>, b: seq<EdnsOption>, c: seq<EdnsOption>)
    ensures a + b + c == a + (b + c) && a + [] == a && [] + a == a
  {
  }

  /** The echoed options are the request's cookies, each in its turn. */
  lemma {:induction false} CookiesExactly(xs: seq<EdnsOption>, x: EdnsOption)
    ensures Cookies([]) == []
    ensures Cookies(xs + [x]) == Cookies(xs) + CookieIn(x)
  {
    hide Cookies, CookieIn;
    NoCookiesIn();
    if xs == [] {
      CookiesCons(x, []);
      assert xs + [x] == [x] + [];
      Regrouped(CookieIn(x), [], []);
    } else {
      var y, rest := xs[0], xs[1..];
      CookiesExactly(rest, x);
      CookiesCons(y, rest);
      CookiesCons(y, rest + [x]);
      assert xs == [y] + rest && xs + [x] == [y] + (rest + [x]);
      Regrouped(CookieIn(y), Cookies(rest), CookieIn(x));
    }
  }

  /**
   * An OPT record (section 6.1.2 of RFC 6891): owned by the root, payload size 1232, extended RCODE in the
   * top byte of the TTL, version and flags 0, and the options `xs` in its RDATA.
   */
  predicate HoldsOpt(a: Answer, extendedRcode: int, xs: seq<EdnsOption>) {
    && a.name == [] && a.rtype == 41 && a.rclass == 1232
    && a.ttl / 0x100_0000 == extendedRcode && a.ttl % 0x100_0000 == 0
    && a.rdlength == |a.rdata| && AreOptions(a.rdata, 0, |a.rdata|, xs)
  }

  /** The options to echo. */
  function EchoOf(edns: Option<EdnsData>): seq<EdnsOption> {
    match edns
    case None => []
    case Some(e) => Cookies(e.options)
  }

  lemma OptAnswerHolds(extendedRcode: byte, edns: Option<EdnsData>)
    requires |Echoed(edns)| <= 0xFFFF
    ensures HoldsOpt(OptAnswer(extendedRcode, Echoed(edns)), extendedRcode as int, EchoOf(edns))
  {
    hide Cookies, PrintOptions;
    if edns.Some? {
      EchoedOptionsDecode(extendedRcode, edns.value);
    }
    var rdata := Echoed(edns);
    OptionsExactly(rdata, 0, |rdata|, EchoOf(edns));
  }

  /**
   * A reply built by MultiAnswer for a request parsed from `raw`: it holds the question, the
   * records, and exactly one OPT record, whose options are the request's cookies.
   */
  lemma AnsweredWithOpt(raw: bytes, o: nat, n: nat, request: Header, questions: seq<Question>, rs: seq<AnswerRecord>, ttl: u32)
    requires MultiAnswerWire(request, questions, rs, ttl).Some?
    ensures var m := MultiAnswerWire(request, questions, rs, ttl).value;
            var edns := Run(raw, o, n, 0, START).edns;
            var d := WithOpt(m, 0, edns);
            && ParseResponse(m).Some? && ParseResponse(d).Some? && ParseResponse(d).value.next == |d|
            && var p, r := ParseResponse(m).value.packet, ParseResponse(d).value.packet;
            && r == p.(header := p.header.(arcount := 1), additional := [OptAnswer(0, Echoed(edns))])
            && HoldsOpt(r.additional[0], 0, EchoOf(edns))
  {
    hide MultiAnswerWire, Run, WithOpt, ParseResponse, HeaderFree, StandardHeader, RdataOf, ZoneAnswer, Echoed, RepliesTo, HoldsOpt, Holds;
    EchoNeverOverflows(raw, o, n);
    OptAnswerHolds(0, Run(raw, o, n, 0, START).edns);
    MultiAnswerMeaning(request, questions, rs, ttl);
    var m := MultiAnswerWire(request, questions, rs, ttl).value;
    NoAdditionalYet(request, RCODE_NOERROR, |rs|, 0);
    ResponseParts(m);
    AppendOptMeaning(m, 0, Run(raw, o, n, 0, START).edns);
    assert [] + [OptAnswer(0, Echoed(Run(raw, o, n, 0, START).edns))] == [OptAnswer(0, Echoed(Run(raw, o, n, 0, START).edns))];
  }

  /** The same for NXDOMAIN, with or without its SOA record. */
  lemma DeniedWithOpt(raw: bytes, o: nat, n: nat, request: Header, questions: seq<Question>, zone: bytes, ttl: u32)
    requires NxDomainWire(request, questions, zone, ttl).Some?
    ensures var m := NxDomainWire(request, questions, zone, ttl).value;
            var edns := Run(raw, o, n, 0, START).edns;
            var d := WithOpt(m, 0, edns);
            && ParseResponse(m).Some? && ParseResponse(d).Some? && ParseResponse(d).value.next == |d|
            && var p, r := ParseResponse(m).value.packet, ParseResponse(d).value.packet;
            && r == p.(header := p.header.(arcount := 1), additional := [OptAnswer(0, Echoed(edns))])
            && HoldsOpt(r.additional[0], 0, EchoOf(edns))
  {
    hide NxDomainWire, Run, WithOpt, ParseResponse, HeaderFree, StandardHeader, ZoneSoa, Echoed, RepliesTo, HoldsOpt, HoldsSoa;
    EchoNeverOverflows(raw, o, n);
    OptAnswerHolds(0, Run(raw, o, n, 0, START).edns);
    NxDomainMeaning(request, questions, zone, ttl);
    var m := NxDomainWire(request, questions, zone, ttl).value;
    var edns := Run(raw, o, n, 0, START).edns;
    NoAdditionalYet(request, RCODE_NXDOMAIN, 0, ParseResponse(m).value.packet.header.nscount);
    ResponseParts(m);
    AppendOptMeaning(m, 0, edns);
    assert [] + [OptAnswer(0, Echoed(edns))] == [OptAnswer(0, Echoed(edns))];
  }

  lemma NoAdditionalYet(request: Header, rcode: nat, ancount: u16, nscount: u16)
    ensures StandardHeader(request, rcode, ancount, nscount, 0, true).arcount == 0
    ensures StandardHeader(request, rcode, ancount, nscount, 0, true).nscount == nscount
  {
  }

  /** BADVERS: RCODE 0 in the header, 1 in the extended RCODE. */
  method BADVERS(output: Buffer, request: Header, questions: seq<Question>, edns: Option<EdnsData>) returns (ok: bool)
    modifies output
    ensures ok == PlainWire(request, questions, RCODE_NOERROR, false).Some?
    ensures ok ==> output.data == WithOpt(PlainWire(request, questions, RCODE_NOERROR, false).value, 1, edns)
  {
    hide PlainWire, WithOpt;
    ok := PlainReply(output, request, questions, RCODE_NOERROR, false);
    if ok {
      AppendOpt(output, 1, edns);
    }
  }

  /** BADVERS reads back as the question and one OPT record with extended RCODE 1 and version 0. */
  lemma BadversMeaning(raw: bytes, o: nat, n: nat, request: Header, questions: seq<Question>)
    requires PlainWire(request, questions, RCODE_NOERROR, false).Some?
    ensures questions != []
    ensures var edns := Run(raw, o, n, 0, START).edns;
            var d := WithOpt(PlainWire(request, questions, RCODE_NOERROR, false).value, 1, edns);
            && ParseResponse(d) == Some(Parsed(
                 Packet(StandardHeader(request, RCODE_NOERROR, 0, 0, 1, false), [questions[0]], [], [], [OptAnswer(1, Echoed(edns))]), |d|))
            && RepliesTo(StandardHeader(request, RCODE_NOERROR, 0, 0, 1, false), request, 0, false, 0, 0, 1)
            && HoldsOpt(OptAnswer(1, Echoed(edns)), 1, EchoOf(edns))
  {
    hide PlainWire, Run, WithOpt, ParseResponse, HeaderFree, ResponseFlags, Echoed, RepliesTo, HoldsOpt;
    HeaderMeaning(request, RCODE_NOERROR, 0, 0, 1, false);
    EchoNeverOverflows(raw, o, n);
    OptAnswerHolds(1, Run(raw, o, n, 0, START).edns);
    PlainMeaning(request, questions, RCODE_NOERROR, false);
    var m := PlainWire(request, questions, RCODE_NOERROR, false).value;
    ResponseParts(m);
    AppendOptMeaning(m, 1, Run(raw, o, n, 0, START).edns);
    assert [] + [OptAnswer(1, Echoed(Run(raw, o, n, 0, START).edns))] == [OptAnswer(1, Echoed(Run(raw, o, n, 0, START).edns))];
  }
}
