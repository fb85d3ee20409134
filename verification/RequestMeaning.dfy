// What a query with additional records means, in terms of those records.
module RequestMeaning {
  import opened Wire
  import opened Names
  import opened Messages
  import opened RoundTrip
  import opened Edns
  import opened Requests

  function OptsIn(rs: seq<Answer>): seq<Answer> {
    if rs == [] then []
    else if rs[0].rtype == 41 then [rs[0]] + OptsIn(rs[1..])
    else OptsIn(rs[1..])
  }

  /** CLASS is the payload size, at least 512; the TTL's bytes are extended RCODE, version, and DO with 15 bits of zero. */
  function EdnsOf(a: Answer, options: seq<EdnsOption>): EdnsData {
    EdnsData(if a.rclass < 512 then 512 else a.rclass,
             a.ttl / 0x100_0000, a.ttl / 0x1_0000 % 0x100, a.ttl / 0x8000 % 2 == 1, options)
  }

  /** The EDNS data and status that the additional records deserve (section 6.1.1 of RFC 6891). */
  function Verdict(rs: seq<Answer>): EdnsState {
    var opts := OptsIn(rs);
    if opts == [] then EdnsState(None, NoOpt)
    else
      var a := opts[0];
      var options := ParseOptions(a.rdata, 0, |a.rdata|);
      if a.name == [] && options.None? then EdnsState(None, Malformed)
      else
        var edns := if a.name == [] then Some(EdnsOf(a, options.value)) else None;
        EdnsState(edns,
                  if |opts| > 1 then DuplicateOpt
                  else if edns.None? then Malformed
                  else if edns.value.version > 0 then BadVersion
                  else Ok)
  }

  // ---------------------------------------------------------------------
  // The walk reads the records.

  lemma SliceOfSlice(d: bytes, start: nat, end: nat, from: nat, to: nat)
    requires from <= to && start + to <= end <= |d|
    ensures d[start..end][from..to] == d[start + from..start + to]
  {
    var x, y := d[start..end][from..to], d[start + from..start + to];
    assert |x| == |y| && forall i :: 0 <= i < |x| ==> x[i] == y[i];
  }

  lemma {:induction false} OptionsShift(d: bytes, start: nat, end: nat, i: nat)
    requires start + i <= end <= |d|
    ensures ParseOptions(d, start + i, end) == ParseOptions(d[start..end], i, end - start)
    decreases end - start - i
  {
    var e := d[start..end];
    if start + i + 4 <= end {
      assert Get16(e, i) == Get16(d, start + i) && Get16(e, i + 2) == Get16(d, start + i + 2);
      var length := Get16(e, i + 2);
      if i + 4 + length <= end - start {
        SliceOfSlice(d, start, end, i + 4, i + 4 + length);
        OptionsShift(d, start, end, i + 4 + length);
      }
    }
  }

  lemma OwnerIsSeen(d: bytes, o: nat, f: nat, name: Labels)
    requires ParseName(d, o, MAX_POINTER_HOPS) == Some(Named(name, f)) && f == o + NameSize(name)
    ensures OwnerEnd(d, o) == f && o < |d| && (d[o] == 0 <==> name == [])
  {
    SkippersAgreeWithParser(d, o, MAX_POINTER_HOPS);
  }

  lemma FieldsAreSeen(d: bytes, f: nat, a: Answer, options: seq<EdnsOption>)
    requires FixedIn(d, f, a.rtype, a.rclass, a.ttl, a.rdlength)
    ensures DecodeOpt(d, f, options) == EdnsOf(a, options)
  {
    hide Get16, Get32;
  }

  lemma RecordIsSeen(d: bytes, o: nat, a: Answer)
    requires Sized(a) && RecordIn(d, o, o + NameSize(a.name), a)
    ensures HeaderFits(d, o) && OwnerEnd(d, o) == o + NameSize(a.name) && NextRecord(d, o) == o + AnswerSize(a) <= |d|
    ensures d[o] == 0 <==> a.name == []
    ensures IsOpt(d, o) <==> a.rtype == 41
    ensures OptionsOf(d, o) == ParseOptions(a.rdata, 0, |a.rdata|)
    ensures forall options :: DecodeOpt(d, OwnerEnd(d, o), options) == EdnsOf(a, options)
  {
    hide OwnerEnd, ParseName, NameSize, ParseOptions, DecodeOpt, EdnsOf, Get16, Get32;
    var f := o + NameSize(a.name);
    OwnerIsSeen(d, o, f, a.name);
    OptionsShift(d, f + 10, f + 10 + |a.rdata|, 0);
    forall options ensures DecodeOpt(d, f, options) == EdnsOf(a, options) {
      FieldsAreSeen(d, f, a, options);
    }
  }

  lemma {:induction false} LaterRecords(d: bytes, o: nat, rs: seq<Answer>, seen: nat, s: EdnsState)
    requires AnswersIn(d, o, rs) && SizedSection(rs) && seen > 0
    ensures Run(d, o, |rs|, seen, s) == if OptsIn(rs) == [] then s else s.(status := DuplicateOpt)
    decreases |rs|
  {
    hide RecordIn, HeaderFits, NextRecord, IsOpt, OptionsOf, DecodeOpt, NameSize;
    if rs != [] {
      RecordIsSeen(d, o, rs[0]);
      LaterRecords(d, o + AnswerSize(rs[0]), rs[1..], seen, s);
      LaterRecords(d, o + AnswerSize(rs[0]), rs[1..], seen + 1, s.(status := DuplicateOpt));
    }
  }

  lemma {:induction false} RecordsJudged(d: bytes, o: nat, rs: seq<Answer>)
    requires AnswersIn(d, o, rs) && SizedSection(rs)
    ensures Run(d, o, |rs|, 0, START) == Verdict(rs)
    decreases |rs|
  {
    hide RecordIn, HeaderFits, NextRecord, IsOpt, OptionsOf, DecodeOpt, ParseOptions, NameSize;
    if rs != [] {
      var a, rest := rs[0], rs[1..];
      var next := o + AnswerSize(a);
      RecordIsSeen(d, o, a);
      if a.rtype != 41 {
        RecordsJudged(d, next, rest);
      } else {
        var options := ParseOptions(a.rdata, 0, |a.rdata|);
        if a.name != [] {
          LaterRecords(d, next, rest, 1, START.(status := Malformed));
        } else if options.Some? {
          var e := EdnsOf(a, options.value);
          LaterRecords(d, next, rest, 1, EdnsState(Some(e), if e.version > 0 then BadVersion else Ok));
        }
      }
    }
  }

  // ---------------------------------------------------------------------
  // Whole queries.

  /**
   * A query means its header, its questions, and the verdict on the records that follow the
   * questions, whatever those records are.
   */
  lemma QueryMeaning(h: Header, questions: seq<Question>, rs: seq<Answer>)
    requires WellFormedRequest(h, questions) && h.arcount == |rs| && Printable(rs) && SizedSection(rs)
    ensures ParseRequest(PrintRequest(h, questions) + PrintAnswers(rs)) == Some(Request(h, questions, Verdict(rs)))
  {
    hide PrintHeader, PrintQuestions, PrintAnswers, ParseQuestions, HeaderAt, Run, AnswersIn, QuestionsSize, At, Verdict;
    var head, qs, tail := PrintHeader(h), PrintQuestions(questions), PrintAnswers(rs);
    var d := PrintRequest(h, questions) + tail;
    assert At(d, 0, d) by { AtSlice(d, 0, d); }
    assert d == head + (qs + tail);
    AtSplit(d, 0, head, qs + tail);
    AtSplit(d, HEADER_SIZE, qs, tail);
    PrintedHeaderParses(d, h);
    PrintedQuestionsParse(d, HEADER_SIZE, questions);
    PrintedAnswers(d, HEADER_SIZE + |qs|, rs);
    RecordsJudged(d, HEADER_SIZE + |qs|, rs);
  }

  /** One OPT record, owned by the root, of version 0 and with readable options: Ok, and it is what is stored. */
  lemma OneOptIsOk(rs: seq<Answer>, k: nat)
    requires k < |rs| && forall j :: 0 <= j < |rs| ==> (rs[j].rtype == 41 <==> j == k)
    requires rs[k].name == [] && rs[k].ttl / 0x1_0000 % 0x100 == 0
    requires ParseOptions(rs[k].rdata, 0, |rs[k].rdata|).Some?
    ensures Verdict(rs) == EdnsState(Some(EdnsOf(rs[k], ParseOptions(rs[k].rdata, 0, |rs[k].rdata|).value)), Ok)
  {
    hide ParseOptions;
    OneOpt(rs, k);
  }

  lemma {:induction false} NoOpts(rs: seq<Answer>)
    ensures OptsIn(rs) == [] <==> forall j :: 0 <= j < |rs| ==> rs[j].rtype != 41
  {
    if rs != [] {
      NoOpts(rs[1..]);
      assert rs == [rs[0]] + rs[1..];
    }
  }

  lemma {:induction false} OneOpt(rs: seq<Answer>, k: nat)
    requires k < |rs| && forall j :: 0 <= j < |rs| ==> (rs[j].rtype == 41 <==> j == k)
    ensures OptsIn(rs) == [rs[k]]
  {
    assert rs == [rs[0]] + rs[1..];
    if k == 0 {
      NoOpts(rs[1..]);
    } else {
      assert rs[0].rtype != 41;
      forall j | 0 <= j < |rs| - 1 ensures rs[1..][j].rtype == 41 <==> j == k - 1 {
        assert rs[1..][j] == rs[j + 1];
      }
      OneOpt(rs[1..], k - 1);
    }
  }

  /** No OPT record, no EDNS data; two of them, of which the first can be read, are a duplicate. */
  lemma OtherVerdicts(rs: seq<Answer>)
    ensures (forall j :: 0 <= j < |rs| ==> rs[j].rtype != 41) ==> Verdict(rs) == EdnsState(None, NoOpt)
    ensures |OptsIn(rs)| > 1 && (OptsIn(rs)[0].name == [] ==> ParseOptions(OptsIn(rs)[0].rdata, 0, |OptsIn(rs)[0].rdata|).Some?)
            ==> Verdict(rs).status == DuplicateOpt
  {
    hide ParseOptions;
    NoOpts(rs);
  }
}
