// Requests: what a query buffer means, including its EDNS data, and the object
// that FromWire fills.
module Requests {
  import opened Wire
  import opened Names
  import opened Messages
  import opened Edns
  import opened Buffers
  import opened Packets
  import opened RoundTrip

  datatype Request = Request(header: Header, questions: seq<Question>, edns: EdnsState)

  /** The request that `d` means. Trouble in the additional section is reported in `edns`, not by failing. */
  function ParseRequest(d: bytes): Option<Request> {
    if |d| < HEADER_SIZE then None
    else
      var h := HeaderAt(d);
      if h.Z() || h.Qr() then None
      else
        match ParseQuestions(d, HEADER_SIZE, h.qdcount)
        case None => None
        case Some(qs) =>
          if h.ancount != 0 || h.nscount != 0 then None
          else Some(Request(h, qs.questions, Run(d, qs.next, h.arcount, 0, START)))
  }

  function PrintRequest(h: Header, questions: seq<Question>): (r: bytes)
    ensures |r| == HEADER_SIZE + QuestionsSize(questions)
  {
    PrintHeader(h) + PrintQuestions(questions)
  }

  predicate WellFormedRequest(h: Header, questions: seq<Question>) {
    && !h.Qr() && !h.Z()
    && h.qdcount == |questions| && h.ancount == 0 && h.nscount == 0
    && PrintableQuestions(questions)
  }

  /**
   * ToWire followed by FromWire gives header and questions back exactly for well-formed
   * requests. ToWire prints no OPT record, so the EDNS data never survives: what comes back
   * is no EDNS data when ARCOUNT is 0, and a malformed additional section otherwise.
   */
  lemma RequestRoundTripExactly(h: Header, questions: seq<Question>)
    ensures var r := ParseRequest(PrintRequest(h, questions));
            && ((r.Some? && r.value.header == h && r.value.questions == questions) <==> WellFormedRequest(h, questions))
            && (WellFormedRequest(h, questions) ==>
                  r.value.edns == if h.arcount == 0 then START else START.(status := Malformed))
  {
    hide PrintHeader, ParseQuestions, PrintQuestions, HeaderAt, QuestionsSize;
    var d := PrintRequest(h, questions);
    AtMiddle([], PrintHeader(h), PrintQuestions(questions));
    AtMiddle(PrintHeader(h), PrintQuestions(questions), []);
    assert [] + PrintHeader(h) + PrintQuestions(questions) == d;
    assert PrintHeader(h) + PrintQuestions(questions) + [] == d;
    PrintedHeaderParses(d, h);
    if WellFormedRequest(h, questions) {
      PrintedQuestionsParse(d, HEADER_SIZE, questions);
    } else {
      var parsed := ParseQuestions(d, HEADER_SIZE, h.qdcount);
      if parsed.Some? {
        ParsedQuestionsArePrintable(d, HEADER_SIZE, h.qdcount);
      }
    }
  }

  class DnsRequestPacket {
    var header: Header
    var questions: seq<Question>
    var edns: Option<EdnsData>
    var ednsStatus: EdnsStatus

    function View(): Request
      reads this
    {
      Request(header, questions, EdnsState(edns, ednsStatus))
    }

    constructor ()
      ensures View() == Request(Header(0, 0, 0, 0, 0, 0), [], START)
    {
      header, questions, edns, ednsStatus := Header(0, 0, 0, 0, 0, 0), [], None, NoOpt;
    }

    /** The fields hold the request that `d` means; after a failure they are left half filled. */
    method FromWire(d: bytes) returns (ok: bool)
      modifies this
      ensures ok == ParseRequest(d).Some?
      ensures ok ==> View() == ParseRequest(d).value
    {
      hide ParseQuestions, Get16, Run;
      if |d| < HEADER_SIZE {
        return false;
      }
      header := HeaderAt(d);
      if header.Z() {
        return false;
      }
      if header.Qr() {
        return false;
      }
      var parsed, offset, qs := QuestionsFromWire(d, HEADER_SIZE, header.qdcount);
      questions := qs;
      if !parsed {
        return false;
      }
      if |questions| != header.qdcount {
        return false;
      }
      if header.ancount != 0 || header.nscount != 0 {
        return false;
      }
      edns, ednsStatus := None, NoOpt;
      if header.arcount > 0 {
        ReadAdditional(d, offset, header.arcount);
      } else {
        NothingToRun(d, offset);
      }
      return true;
    }

    /** The loop over the additional section. */
    method ReadAdditional(d: bytes, start: nat, arcount: nat)
      modifies `edns, `ednsStatus
      ensures EdnsState(edns, ednsStatus) == Run(d, start, arcount, 0, EdnsState(old(edns), old(ednsStatus)))
    {
      hide OwnerEnd, Get16, Get32, ParseOptions;
      ghost var final := Run(d, start, arcount, 0, EdnsState(edns, ednsStatus));
      var offset: nat, optCount: nat := start, 0;
      for i := 0 to arcount
        invariant final == Run(d, offset, arcount - i, optCount, EdnsState(edns, ednsStatus))
      {
        if offset + 11 > |d| {
          ednsStatus := Malformed;
          return;
        }
        var nameEnd := SkipOwner(d, offset);
        if nameEnd + 10 > |d| {
          ednsStatus := Malformed;
          return;
        }
        var rtype, rdlength := Get16(d, nameEnd), Get16(d, nameEnd + 8);
        if rtype != TYPE_OPT {
          offset := nameEnd + 10 + rdlength;
          continue;
        }
        optCount := optCount + 1;
        if optCount > 1 {
          ednsStatus := DuplicateOpt;
          offset := nameEnd + 10 + rdlength;
          continue;
        }
        if d[offset] != 0 {
          ednsStatus := Malformed;
          offset := nameEnd + 10 + rdlength;
          continue;
        }
        if nameEnd + 10 + rdlength > |d| {
          ednsStatus := Malformed;
          return;
        }
        var inBounds, options := ReadOptions(d, nameEnd + 10, nameEnd + 10 + rdlength);
        if !inBounds {
          ednsStatus := Malformed;
          return;
        }
        edns := Some(DecodeOpt(d, nameEnd, options));
        if edns.value.version > 0 {
          ednsStatus := BadVersion;
        } else if ednsStatus == NoOpt {
          ednsStatus := Ok;
        }
        offset := nameEnd + 10 + rdlength;
      }
    }

    /** Writes header and questions, or nothing if they do not fit; EDNS data is not written. */
    method ToWire(out: array<byte>) returns (n: nat)
      modifies out
      ensures var r := PrintRequest(header, questions);
              n == (if out.Length < |r| then 0 else |r|) &&
              out[..] == if out.Length < |r| then old(out[..]) else Overwrite(old(out[..]), 0, r)
    {
      hide PrintQuestions, PrintHeader, QuestionsSize, Overwrite;
      if out.Length < HEADER_SIZE + QuestionsSize(questions) {
        return 0;
      }
      ghost var before := out[..];
      CopyTo(out, 0, PrintHeader(header));
      n := QuestionsToWire(questions, out, HEADER_SIZE);
      OverwriteTwice(before, 0, PrintHeader(header), PrintQuestions(questions));
    }
  }

  lemma NothingToRun(d: bytes, o: nat)
    ensures Run(d, o, 0, 0, START) == START
  {
  }

  /** The three ways in which the loop skips an owner name. */
  method SkipOwner(d: bytes, offset: nat) returns (nameEnd: nat)
    requires offset < |d|
    ensures nameEnd == OwnerEnd(d, offset)
  {
    if d[offset] == 0 {
      return offset + 1;
    } else if IsPointer(d[offset]) {
      return offset + 2;
    }
    var pos := offset;
    while pos < |d|
      invariant 0 <= pos && OwnerEnd(d, offset) == OwnerEnd(d, pos)
      decreases |d| - pos
    {
      if d[pos] == 0 {
        return pos + 1;
      }
      if IsPointer(d[pos]) {
        return pos + 2;
      }
      pos := LabelEnd(d, pos);
    }
    return pos;
  }

  /** The loop state: `done` is read up to `at`. */
  ghost predicate OptionsLeft(d: bytes, start: nat, end: nat, done: seq<EdnsOption>, at: nat)
    requires end <= |d|
  {
    match ParseOptions(d, at, end)
    case None => ParseOptions(d, start, end) == None
    case Some(rest) => ParseOptions(d, start, end) == Some(done + rest)
  }

  lemma OptionsLeftStep(d: bytes, start: nat, end: nat, done: seq<EdnsOption>, at: nat)
    requires end <= |d| && OptionsLeft(d, start, end, done, at)
    ensures if at + 4 > end then ParseOptions(d, start, end) == Some(done)
            else
              var next := at + 4 + Get16(d, at + 2);
              if next > end then ParseOptions(d, start, end) == None
              else OptionsLeft(d, start, end, done + [EdnsOption(Get16(d, at), d[at + 4..next])], next)
  {
    hide Get16;
    if at + 4 > end {
      assert done + [] == done;
    } else {
      var next := at + 4 + Get16(d, at + 2);
      if next <= end {
        var x, rest := EdnsOption(Get16(d, at), d[at + 4..next]), ParseOptions(d, next, end);
        assert rest.Some? ==> done + ([x] + rest.value) == (done + [x]) + rest.value;
      }
    }
  }

  lemma OptionsLeftStarts(d: bytes, start: nat, end: nat)
    requires end <= |d|
    ensures OptionsLeft(d, start, end, [], start)
  {
    var whole := ParseOptions(d, start, end);
    assert whole.Some? ==> [] + whole.value == whole.value;
  }

  /** The option loop; it gives up at the first option that leaves the RDATA. */
  method ReadOptions(d: bytes, start: nat, end: nat) returns (ok: bool, options: seq<EdnsOption>)
    requires start <= end <= |d|
    ensures ok == ParseOptions(d, start, end).Some?
    ensures ok ==> OptionsFill(d, start, end, options) && ParseOptions(d, start, end).value == options
  {
    hide OptionsFill, Get16, ParseOptions, OptionsLeft;
    OptionsLeftStarts(d, start, end);
    options := [];
    var offset: nat := start;
    while offset + 4 <= end
      invariant OptionsLeft(d, start, end, options, offset)
      decreases end - offset
    {
      OptionsLeftStep(d, start, end, options, offset);
      var code, length := Get16(d, offset), Get16(d, offset + 2);
      if offset + 4 + length > end {
        return false, options;
      }
      options := options + [EdnsOption(code, d[offset + 4..offset + 4 + length])];
      offset := offset + 4 + length;
    }
    OptionsLeftStep(d, start, end, options, offset);
    OptionsExact(d, start, end, options);
    return true, options;
  }
}
