// The response builders: zone data in, raw messages out.
module Responses {
  import opened Wire
  import opened Names
  import opened Messages
  import opened Buffers
  import opened Text

  const MAX_NAME_TEXT := 253
  const MAX_NAME_WIRE := 255
  const QUESTION_POINTER: u16 := 0xC00C

  const RCODE_NOERROR := 0
  const RCODE_NXDOMAIN := 3

  /** Zone data, as far as the builders look at it. */
  datatype Json =
    | Null
    | Number(n: int)
    | Str(s: bytes)
    | Arr(items: seq<Json>)
    | Obj(fields: map<string, Json>)

  /** The name is empty to mean the question's name. */
  datatype AnswerRecord = AnswerRecord(rtype: string, data: Json, name: bytes)

  // ---------------------------------------------------------------------
  // Names.

  /** The labels of a dotted name; the builders skip empty parts. */
  function TextLabels(s: bytes): Labels {
    NonEmpty(Split(s, DOT))
  }

  predicate IsValidDnsName(s: bytes) {
    0 < |s| <= MAX_NAME_TEXT
  }

  /** The wire form of a label list, if DomainToQuestion accepts it. */
  function LabelsWire(ls: Labels): Option<bytes> {
    if ValidLabels(ls) && NameSize(ls) <= MAX_NAME_WIRE then Some(PrintName(ls)) else None
  }

  /** The wire form of a dotted name, if DomainToQuestion accepts it. */
  function NameWire(s: bytes): Option<bytes> {
    if s == [] then Some([0])
    else if !IsValidDnsName(s) then None
    else LabelsWire(TextLabels(s))
  }

  /** The first pass of DomainToQuestion: no empty or long label, and the whole name within 255 bytes. */
  method CheckLabels(ls: Labels) returns (ok: bool)
    ensures ok == LabelsWire(ls).Some?
  {
    hide PrintName, NameSize;
    var total := 1;
    PrintNameEnds(ls);
    assert ls[..0] == [];
    for i := 0 to |ls|
      invariant ValidLabels(ls[..i])
      invariant total + NameSize(ls[i..]) == 1 + NameSize(ls)
    {
      if |ls[i]| == 0 {
        return false;
      }
      if |ls[i]| > MAX_LABEL {
        return false;
      }
      SizeStep(ls, i);
      total := total + |ls[i]| + 1;
    }
    assert ls[..|ls|] == ls;
    return total <= MAX_NAME_WIRE;
  }

  lemma SizeStep(ls: Labels, i: nat)
    requires i < |ls| && 1 <= |ls[i]| <= MAX_LABEL && ValidLabels(ls[..i])
    ensures ValidLabels(ls[..i + 1])
    ensures NameSize(ls[i..]) == 1 + |ls[i]| + NameSize(ls[i + 1..])
  {
    assert ls[..i + 1] == ls[..i] + [ls[i]];
    assert ls[i..][1..] == ls[i + 1..];
  }

  /** DomainToQuestion on labels: check, then write. */
  method LabelsToQuestion(ls: Labels, output: Buffer) returns (ok: bool)
    modifies output
    ensures ok == LabelsWire(ls).Some?
    ensures output.data == if ok then old(output.data) + LabelsWire(ls).value else old(output.data)
  {
    hide PrintName, NameSize;
    ok := CheckLabels(ls);
    if !ok {
      return;
    }
    ghost var before := output.data;
    PrintNameEnds(ls);
    for i := 0 to |ls|
      invariant before + PrintName(ls) == output.data + PrintName(ls[i..])
    {
      PrintNameStep(output.data, ls, i);
      assert output.data + Prefixed(ls[i]) == output.data + [|ls[i]| as byte] + ls[i];
      output.Append([|ls[i]| as byte]);
      output.Append(ls[i]);
    }
    output.Append([0]);
  }

  /** DomainToQuestion on text. */
  method TextToQuestion(s: bytes, output: Buffer) returns (ok: bool)
    modifies output
    ensures ok == NameWire(s).Some?
    ensures output.data == if ok then old(output.data) + NameWire(s).value else old(output.data)
  {
    hide LabelsWire, Split;
    if s == [] {
      output.Append([0]);
      return true;
    }
    if !IsValidDnsName(s) {
      return false;
    }
    var parts := SplitText(s, DOT);
    var labels: Labels := [];
    assert parts[0..] == parts && [] + NonEmpty(parts) == NonEmpty(parts);
    for i := 0 to |parts|
      invariant NonEmpty(parts) == labels + NonEmpty(parts[i..]) && output.data == old(output.data)
    {
      KeepStep(labels, parts, i);
      if |parts[i]| > 0 {
        labels := labels + [parts[i]];
      }
    }
    assert parts[|parts|..] == [] && labels + [] == labels;
    ok := LabelsToQuestion(labels, output);
  }

  lemma KeepStep(kept: Labels, parts: seq<bytes>, i: nat)
    requires i < |parts|
    ensures kept + NonEmpty(parts[i..]) ==
            (if |parts[i]| > 0 then kept + [parts[i]] else kept) + NonEmpty(parts[i + 1..])
  {
    assert parts[i..][1..] == parts[i + 1..];
    if |parts[i]| > 0 {
      assert kept + ([parts[i]] + NonEmpty(parts[i + 1..])) == (kept + [parts[i]]) + NonEmpty(parts[i + 1..]);
    }
  }

  // ---------------------------------------------------------------------
  // Record data.

  predicate Has(data: Json, field: string) {
    data.Obj? && field in data.fields
  }

  predicate HasText(data: Json, field: string) {
    Has(data, field) && data.fields[field].Str?
  }

  predicate HasNumber(data: Json, field: string) {
    Has(data, field) && data.fields[field].Number?
  }

  /** Reading a number into 16 or 32 bits is a cast. */
  function Number16(data: Json, field: string): u16
    requires HasNumber(data, field)
  {
    data.fields[field].n % 0x1_0000
  }

  function Number32(data: Json, field: string): u32
    requires HasNumber(data, field)
  {
    data.fields[field].n % 0x1_0000_0000
  }

  function FieldName(data: Json, field: string): Option<bytes> {
    if HasText(data, field) && IsValidDnsName(data.fields[field].s) then NameWire(data.fields[field].s) else None
  }

  function TxtStrings(items: seq<Json>): Option<bytes> {
    if items == [] then Some([])
    else if !items[0].Str? || |items[0].s| > 255 then None
    else
      match TxtStrings(items[1..])
      case None => None
      case Some(rest) => Some([|items[0].s| as byte] + items[0].s + rest)
  }

  datatype Rdata = Rdata(rtype: u16, rdata: bytes)

  function FiveWords(a: u32, b: u32, c: u32, d: u32, e: u32): (r: bytes)
    ensures |r| == 20
  {
    Put32(a) + Put32(b) + Put32(c) + Put32(d) + Put32(e)
  }

  function SoaRdata(data: Json): Option<Rdata> {
    if HasNumber(data, "serial") && HasNumber(data, "refresh") && HasNumber(data, "retry")
       && HasNumber(data, "expire") && HasNumber(data, "minimum") then
      match (FieldName(data, "primary"), FieldName(data, "admin"))
      case (Some(primary), Some(admin)) =>
        Some(Rdata(TYPE_SOA, primary + admin + FiveWords(
          Number32(data, "serial"), Number32(data, "refresh"), Number32(data, "retry"),
          Number32(data, "expire"), Number32(data, "minimum"))))
      case _ => None
    else None
  }

  function MxRdata(data: Json): Option<Rdata> {
    if !HasNumber(data, "preference") then None
    else
      match FieldName(data, "exchange")
      case None => None
      case Some(exchange) => Some(Rdata(TYPE_MX, Put16(Number16(data, "preference")) + exchange))
  }

  function TxtRdata(data: Json): Option<Rdata> {
    if !data.Arr? || data.items == [] then None
    else
      match TxtStrings(data.items)
      case None => None
      case Some(strings) => if |strings| > 0xFFFF then None else Some(Rdata(TYPE_TXT, strings))
  }

  function SrvRdata(data: Json): Option<Rdata> {
    if !(HasNumber(data, "priority") && HasNumber(data, "weight") && HasNumber(data, "port")) then None
    else
      match FieldName(data, "target")
      case None => None
      case Some(target) =>
        Some(Rdata(TYPE_SRV,
                   Put16(Number16(data, "priority")) + Put16(Number16(data, "weight")) + Put16(Number16(data, "port")) + target))
  }

  function AddressRdata(rtype: u16, size: nat, data: Json): Option<Rdata> {
    if data.Str? && |data.s| == size then Some(Rdata(rtype, data.s)) else None
  }

  function DomainRdata(rtype: u16, data: Json): Option<Rdata> {
    if !data.Str? || !IsValidDnsName(data.s) then None
    else
      match NameWire(data.s)
      case None => None
      case Some(wire) => Some(Rdata(rtype, wire))
  }

  /** TYPE and RDATA for zone data of the given type; None when the builder refuses it or throws. */
  function RdataOf(rtype: string, data: Json): Option<Rdata> {
    if rtype == "A" then AddressRdata(TYPE_A, 4, data)
    else if rtype == "AAAA" then AddressRdata(TYPE_AAAA, 16, data)
    else if rtype == "CNAME" then DomainRdata(TYPE_CNAME, data)
    else if rtype == "NS" then DomainRdata(TYPE_NS, data)
    else if rtype == "PTR" then DomainRdata(TYPE_PTR, data)
    else if rtype == "SOA" then SoaRdata(data)
    else if rtype == "MX" then MxRdata(data)
    else if rtype == "TXT" then TxtRdata(data)
    else if rtype == "SRV" then SrvRdata(data)
    else None
  }

  // ---------------------------------------------------------------------
  // Records and messages.

  /** A record about to be written; an empty name stands for the question's. */
  datatype Piece = Piece(name: bytes, rtype: u16, rdata: bytes)

  function OwnerWire(name: bytes): Option<bytes> {
    if name == [] then Some(Put16(QUESTION_POINTER)) else NameWire(name)
  }

  function PieceWire(x: Piece, qclass: u16, ttl: u32): Option<bytes> {
    match OwnerWire(x.name)
    case None => None
    case Some(owner) =>
      if |x.rdata| > 0xFFFF then None
      else Some(owner + (PrintFixed(x.rtype, qclass, ttl, |x.rdata|) + x.rdata))
  }

  function RecordPiece(r: AnswerRecord): Option<Piece> {
    match RdataOf(r.rtype, r.data)
    case None => None
    case Some(x) => Some(Piece(r.name, x.rtype, x.rdata))
  }

  function RecordPieces(rs: seq<AnswerRecord>): (r: Option<seq<Piece>>)
    ensures r.Some? ==> |r.value| == |rs|
  {
    if rs == [] then Some([])
    else
      match (RecordPiece(rs[0]), RecordPieces(rs[1..]))
      case (Some(first), Some(rest)) => Some([first] + rest)
      case _ => None
  }

  function PiecesWire(xs: seq<Piece>, qclass: u16, ttl: u32): Option<bytes> {
    if xs == [] then Some([])
    else
      match (PieceWire(xs[0], qclass, ttl), PiecesWire(xs[1..], qclass, ttl))
      case (Some(first), Some(rest)) => Some(first + rest)
      case _ => None
  }

  /** The flag word of section 4.1.1 of RFC 1035: QR, RA and RCODE, with RD echoed and AA on request. */
  function ResponseFlags(rd: bool, rcode: nat, authoritative: bool): u16 {
    0x8080 + rcode % 0x10 + (if rd then 0x100 else 0) + (if authoritative then 0x400 else 0)
  }

  function StandardHeader(request: Header, rcode: nat, ancount: u16, nscount: u16, arcount: u16, authoritative: bool): Header {
    Header(request.id, ResponseFlags(request.Rd(), rcode, authoritative), 1, ancount, nscount, arcount)
  }

  function QuestionWire(q: Question): Option<bytes> {
    match LabelsWire(q.qname)
    case None => None
    case Some(name) => Some(name + (Put16(q.qtype) + Put16(q.qclass)))
  }

  /** Header, first question, answers and authority records, if they can all be written. */
  function MessageWire(h: Header, questions: seq<Question>, answers: seq<Piece>, authority: seq<Piece>, ttl: u32): Option<bytes> {
    if questions == [] then None
    else
      match (QuestionWire(questions[0]), PiecesWire(answers, questions[0].qclass, ttl), PiecesWire(authority, questions[0].qclass, ttl))
      case (Some(q), Some(an), Some(ns)) => Some(PrintHeader(h) + (q + (an + ns)))
      case _ => None
  }

  function MultiAnswerWire(request: Header, questions: seq<Question>, rs: seq<AnswerRecord>, ttl: u32): Option<bytes> {
    if rs == [] || |rs| > 0xFFFF then None
    else
      match RecordPieces(rs)
      case None => None
      case Some(xs) =>
        MessageWire(StandardHeader(request, RCODE_NOERROR, |rs|, 0, 0, true), questions, xs, [], ttl)
  }

  /** A reply without records. */
  function PlainWire(request: Header, questions: seq<Question>, rcode: nat, authoritative: bool): Option<bytes> {
    MessageWire(StandardHeader(request, rcode, 0, 0, 0, authoritative), questions, [], [], 0)
  }

  /** The labels ns and hostmaster. */
  const NS: bytes := [0x6E, 0x73]
  const HOSTMASTER: bytes := [0x68, 0x6F, 0x73, 0x74, 0x6D, 0x61, 0x73, 0x74, 0x65, 0x72]

  const NS_PREFIX: bytes := NS + [DOT]
  const HOSTMASTER_PREFIX: bytes := HOSTMASTER + [DOT]

  /** The SOA record of section 2.1 of RFC 2308; None when one of its names cannot be encoded. */
  function ZoneSoa(zone: bytes, ttl: u32): Option<Piece> {
    match (NameWire(zone), NameWire(NS_PREFIX + zone + [DOT]), NameWire(HOSTMASTER_PREFIX + zone + [DOT]))
    case (Some(_), Some(mname), Some(rname)) =>
      Some(Piece(zone, TYPE_SOA, mname + rname + SoaTimers(ttl)))
    case _ => None
  }

  /** Serial, refresh, retry, expire and minimum. */
  function SoaTimers(ttl: u32): (r: bytes)
    ensures |r| == 20
  {
    FiveWords(1, 86400, 3600, 604800, ttl)
  }

  function NxDomainWire(request: Header, questions: seq<Question>, zone: bytes, ttl: u32): Option<bytes> {
    if zone != [] && ZoneSoa(zone, ttl).Some? then
      MessageWire(StandardHeader(request, RCODE_NXDOMAIN, 0, 1, 0, true), questions, [], [ZoneSoa(zone, ttl).value], ttl)
    else PlainWire(request, questions, RCODE_NXDOMAIN, true)
  }

  // ---------------------------------------------------------------------
  // The builders.

  method WriteStandardHeader(output: Buffer, request: Header, rcode: nat, ancount: u16, nscount: u16, arcount: u16, authoritative: bool)
    modifies output
    ensures output.data == PrintHeader(StandardHeader(request, rcode, ancount, nscount, arcount, authoritative))
  {
    hide Put16, Overwrite, ResponseFlags;
    output.Clear();
    var zeros: bytes := [0, 0, 0, 0, 0, 0, 0, 0, 0, 0, 0, 0];
    output.Append(zeros);
    output.Write16(0, request.id);
    var flags := 0x8000 + 0x80 + rcode % 0x10;
    if request.Rd() {
      flags := flags + 0x100;
    }
    if authoritative {
      flags := flags + 0x400;
    }
    output.Write16(2, flags);
    output.Write16(4, 1);
    output.Write16(6, ancount);
    output.Write16(8, nscount);
    output.Write16(10, arcount);
    FlagsAre(request.Rd(), rcode, authoritative);
    HeaderWritten(zeros, Header(request.id, flags, 1, ancount, nscount, arcount));
  }

  lemma FlagsAre(rd: bool, rcode: nat, authoritative: bool)
    ensures ResponseFlags(rd, rcode, authoritative) ==
            0x8000 + 0x80 + rcode % 0x10 + (if rd then 0x100 else 0) + (if authoritative then 0x400 else 0)
  {
  }

  /** Six 16-bit fields written in place make a printed header. */
  lemma HeaderWritten(d: bytes, h: Header)
    requires |d| == HEADER_SIZE
    ensures var d1 := Overwrite(Overwrite(d, 0, Put16(h.id)), 2, Put16(h.flags));
            var d2 := Overwrite(Overwrite(d1, 4, Put16(h.qdcount)), 6, Put16(h.ancount));
            Overwrite(Overwrite(d2, 8, Put16(h.nscount)), 10, Put16(h.arcount)) == PrintHeader(h)
  {
    hide Put16, Overwrite;
    OverwriteTwice(d, 0, Put16(h.id), Put16(h.flags));
    OverwriteTwice(d, 0, Put16(h.id) + Put16(h.flags), Put16(h.qdcount));
    OverwriteTwice(d, 0, Put16(h.id) + Put16(h.flags) + Put16(h.qdcount), Put16(h.ancount));
    OverwriteTwice(d, 0, Put16(h.id) + Put16(h.flags) + Put16(h.qdcount) + Put16(h.ancount), Put16(h.nscount));
    OverwriteTwice(d, 0, Put16(h.id) + Put16(h.flags) + Put16(h.qdcount) + Put16(h.ancount) + Put16(h.nscount), Put16(h.arcount));
    OverwriteAll(d, PrintHeader(h));
  }

  method WriteQuestion(output: Buffer, questions: seq<Question>) returns (ok: bool)
    modifies output
    ensures ok == (questions != [] && QuestionWire(questions[0]).Some?)
    ensures output.data == if ok then old(output.data) + QuestionWire(questions[0]).value else old(output.data)
  {
    hide LabelsWire, Put16;
    if questions == [] {
      return false;
    }
    var domain := new Buffer();
    ok := LabelsToQuestion(questions[0].qname, domain);
    if !ok {
      return;
    }
    output.Append(domain.data);
    output.Append16(questions[0].qtype);
    output.Append16(questions[0].qclass);
  }

  method WriteAnswerName(output: Buffer, name: bytes) returns (ok: bool)
    modifies output
    ensures ok == OwnerWire(name).Some?
    ensures output.data == if ok then old(output.data) + OwnerWire(name).value else old(output.data)
  {
    hide NameWire, Put16;
    if name == [] {
      output.Append16(QUESTION_POINTER);
      return true;
    }
    var wire := new Buffer();
    ok := TextToQuestion(name, wire);
    if ok {
      output.Append(wire.data);
    }
  }

  /** TYPE, CLASS, TTL and RDLENGTH, one after the other. */
  method AppendFixed(output: Buffer, rtype: u16, qclass: u16, ttl: u32, rdlength: u16)
    modifies output
    ensures output.data == old(output.data) + PrintFixed(rtype, qclass, ttl, rdlength)
  {
    hide Put16, Put32;
    ghost var start := output.data;
    output.Append16(rtype);
    output.Append16(qclass);
    output.Append32(ttl);
    output.Append16(rdlength);
    assert start + Put16(rtype) + Put16(qclass) + Put32(ttl) + Put16(rdlength)
        == start + (Put16(rtype) + Put16(qclass) + Put32(ttl) + Put16(rdlength));
  }

  /** The end of every AppendAnswer function: owner name, fixed fields, RDATA. */
  method AppendRecord(output: Buffer, x: Piece, qclass: u16, ttl: u32) returns (ok: bool)
    modifies output
    ensures ok == PieceWire(x, qclass, ttl).Some?
    ensures output.data == if ok then old(output.data) + PieceWire(x, qclass, ttl).value else old(output.data)
  {
    hide OwnerWire, PrintFixed;
    if |x.rdata| > 0xFFFF {
      return false;
    }
    ok := WriteAnswerName(output, x.name);
    if !ok {
      return;
    }
    AppendFixed(output, x.rtype, qclass, ttl, |x.rdata|);
    output.Append(x.rdata);
  }

  /** What an AppendAnswer function appends, given what it makes of the zone data. */
  function AppendedWire(x: Option<Rdata>, name: bytes, qclass: u16, ttl: u32): Option<bytes> {
    match x
    case None => None
    case Some(rdata) => PieceWire(Piece(name, rdata.rtype, rdata.rdata), qclass, ttl)
  }

  ghost predicate Appended(before: bytes, after: bytes, ok: bool, wire: Option<bytes>) {
    ok == wire.Some? && after == if ok then before + wire.value else before
  }

  method AppendAnswerAddress(output: Buffer, rtype: u16, size: nat, data: Json, name: bytes, qclass: u16, ttl: u32) returns (ok: bool)
    modifies output
    ensures Appended(old(output.data), output.data, ok, AppendedWire(AddressRdata(rtype, size, data), name, qclass, ttl))
  {
    hide PieceWire;
    if !data.Str? || |data.s| != size {
      return false;
    }
    ok := AppendRecord(output, Piece(name, rtype, data.s), qclass, ttl);
  }

  method AppendAnswerDomain(output: Buffer, rtype: u16, data: Json, name: bytes, qclass: u16, ttl: u32) returns (ok: bool)
    modifies output
    ensures Appended(old(output.data), output.data, ok, AppendedWire(DomainRdata(rtype, data), name, qclass, ttl))
  {
    hide PieceWire, NameWire;
    if !data.Str? || !IsValidDnsName(data.s) {
      return false;
    }
    var wire := new Buffer();
    ok := TextToQuestion(data.s, wire);
    if !ok {
      return;
    }
    assert wire.data == NameWire(data.s).value;
    ok := AppendRecord(output, Piece(name, rtype, wire.data), qclass, ttl);
  }

  /** Reads a name field of an object and encodes it behind what `wire` holds. */
  method AppendFieldName(wire: Buffer, data: Json, field: string) returns (ok: bool)
    modifies wire
    ensures Appended(old(wire.data), wire.data, ok, FieldName(data, field))
  {
    hide NameWire;
    if !HasText(data, field) || !IsValidDnsName(data.fields[field].s) {
      return false;
    }
    ok := TextToQuestion(data.fields[field].s, wire);
  }

  method AppendAnswerSOA(output: Buffer, data: Json, name: bytes, qclass: u16, ttl: u32) returns (ok: bool)
    modifies output
    ensures Appended(old(output.data), output.data, ok, AppendedWire(SoaRdata(data), name, qclass, ttl))
  {
    hide PieceWire, FieldName, HasNumber, FiveWords;
    if !HasNumber(data, "serial") || !HasNumber(data, "refresh") || !HasNumber(data, "retry")
       || !HasNumber(data, "expire") || !HasNumber(data, "minimum") {
      return false;
    }
    var wire := new Buffer();
    ok := AppendFieldName(wire, data, "primary");
    if !ok {
      return;
    }
    ok := AppendFieldName(wire, data, "admin");
    if !ok {
      return;
    }
    assert wire.data == FieldName(data, "primary").value + FieldName(data, "admin").value;
    AppendWords(wire, Number32(data, "serial"), Number32(data, "refresh"), Number32(data, "retry"),
                Number32(data, "expire"), Number32(data, "minimum"));
    ok := AppendRecord(output, Piece(name, TYPE_SOA, wire.data), qclass, ttl);
  }

  method AppendWords(output: Buffer, a: u32, b: u32, c: u32, d: u32, e: u32)
    modifies output
    ensures output.data == old(output.data) + FiveWords(a, b, c, d, e)
  {
    hide Put32;
    AppendFive(output.data, Put32(a), Put32(b), Put32(c), Put32(d), Put32(e));
    output.Append32(a);
    output.Append32(b);
    output.Append32(c);
    output.Append32(d);
    output.Append32(e);
  }

  lemma AppendFive(x: bytes, a: bytes, b: bytes, c: bytes, d: bytes, e: bytes)
    ensures x + a + b + c + d + e == x + (a + b + c + d + e)
  {
  }

  method AppendAnswerMX(output: Buffer, data: Json, name: bytes, qclass: u16, ttl: u32) returns (ok: bool)
    modifies output
    ensures Appended(old(output.data), output.data, ok, AppendedWire(MxRdata(data), name, qclass, ttl))
  {
    hide PieceWire, FieldName, HasNumber, Put16;
    if !HasNumber(data, "preference") {
      return false;
    }
    var wire := new Buffer();
    wire.Append16(Number16(data, "preference"));
    ok := AppendFieldName(wire, data, "exchange");
    if !ok {
      return;
    }
    assert wire.data == Put16(Number16(data, "preference")) + FieldName(data, "exchange").value;
    ok := AppendRecord(output, Piece(name, TYPE_MX, wire.data), qclass, ttl);
  }

  method AppendAnswerSRV(output: Buffer, data: Json, name: bytes, qclass: u16, ttl: u32) returns (ok: bool)
    modifies output
    ensures Appended(old(output.data), output.data, ok, AppendedWire(SrvRdata(data), name, qclass, ttl))
  {
    hide PieceWire, FieldName, HasNumber, Put16;
    if !HasNumber(data, "priority") || !HasNumber(data, "weight") || !HasNumber(data, "port") {
      return false;
    }
    var wire := new Buffer();
    wire.Append16(Number16(data, "priority"));
    wire.Append16(Number16(data, "weight"));
    wire.Append16(Number16(data, "port"));
    ok := AppendFieldName(wire, data, "target");
    if !ok {
      return;
    }
    assert wire.data == Put16(Number16(data, "priority")) + Put16(Number16(data, "weight")) + Put16(Number16(data, "port"))
                        + FieldName(data, "target").value;
    ok := AppendRecord(output, Piece(name, TYPE_SRV, wire.data), qclass, ttl);
  }

  method AppendAnswerTXT(output: Buffer, data: Json, name: bytes, qclass: u16, ttl: u32) returns (ok: bool)
    modifies output
    ensures Appended(old(output.data), output.data, ok, AppendedWire(TxtRdata(data), name, qclass, ttl))
  {
    hide PieceWire;
    if !data.Arr? || data.items == [] {
      return false;
    }
    var items, rdata: bytes := data.items, [];
    assert items[0..] == items;
    for i := 0 to |items|
      invariant TxtStrings(items).Some? <==> TxtStrings(items[i..]).Some?
      invariant TxtStrings(items).Some? ==> TxtStrings(items).value == rdata + TxtStrings(items[i..]).value
      invariant output.data == old(output.data)
    {
      assert items[i..][1..] == items[i + 1..];
      if !items[i].Str? || |items[i].s| > 255 {
        return false;
      }
      ghost var rest := TxtStrings(items[i + 1..]);
      assert rest.Some? ==>
          rdata + ([|items[i].s| as byte] + items[i].s + rest.value) == (rdata + [|items[i].s| as byte] + items[i].s) + rest.value;
      rdata := rdata + [|items[i].s| as byte] + items[i].s;
    }
    assert items[|items|..] == [] && rdata + [] == rdata;
    if |rdata| > 0xFFFF {
      return false;
    }
    ok := AppendRecord(output, Piece(name, TYPE_TXT, rdata), qclass, ttl);
  }

  method DispatchAppendAnswer(output: Buffer, r: AnswerRecord, qclass: u16, ttl: u32) returns (ok: bool)
    modifies output
    ensures Appended(old(output.data), output.data, ok, AppendedWire(RdataOf(r.rtype, r.data), r.name, qclass, ttl))
  {
    hide AppendedWire, AddressRdata, DomainRdata, SoaRdata, MxRdata, TxtRdata, SrvRdata;
    if r.rtype == "A" {
      ok := AppendAnswerAddress(output, TYPE_A, 4, r.data, r.name, qclass, ttl);
    } else if r.rtype == "AAAA" {
      ok := AppendAnswerAddress(output, TYPE_AAAA, 16, r.data, r.name, qclass, ttl);
    } else if r.rtype == "CNAME" {
      ok := AppendAnswerDomain(output, TYPE_CNAME, r.data, r.name, qclass, ttl);
    } else if r.rtype == "NS" {
      ok := AppendAnswerDomain(output, TYPE_NS, r.data, r.name, qclass, ttl);
    } else if r.rtype == "PTR" {
      ok := AppendAnswerDomain(output, TYPE_PTR, r.data, r.name, qclass, ttl);
    } else if r.rtype == "SOA" {
      ok := AppendAnswerSOA(output, r.data, r.name, qclass, ttl);
    } else if r.rtype == "MX" {
      ok := AppendAnswerMX(output, r.data, r.name, qclass, ttl);
    } else if r.rtype == "TXT" {
      ok := AppendAnswerTXT(output, r.data, r.name, qclass, ttl);
    } else if r.rtype == "SRV" {
      ok := AppendAnswerSRV(output, r.data, r.name, qclass, ttl);
    } else {
      NothingAppended(r, qclass, ttl);
      return false;
    }
  }

  lemma NothingAppended(r: AnswerRecord, qclass: u16, ttl: u32)
    requires RdataOf(r.rtype, r.data).None?
    ensures AppendedWire(RdataOf(r.rtype, r.data), r.name, qclass, ttl).None?
  {
  }

  /** The wire form of a list of records, in order. */
  function RecordsWire(rs: seq<AnswerRecord>, qclass: u16, ttl: u32): Option<bytes> {
    match RecordPieces(rs)
    case None => None
    case Some(xs) => PiecesWire(xs, qclass, ttl)
  }

  lemma RecordsWireStep(done: bytes, rs: seq<AnswerRecord>, i: nat, qclass: u16, ttl: u32)
    requires i < |rs|
    ensures var first := AppendedWire(RdataOf(rs[i].rtype, rs[i].data), rs[i].name, qclass, ttl);
            var rest := RecordsWire(rs[i + 1..], qclass, ttl);
            && (RecordsWire(rs[i..], qclass, ttl).Some? <==> first.Some? && rest.Some?)
            && (first.Some? && rest.Some? ==>
                  done + RecordsWire(rs[i..], qclass, ttl).value == (done + first.value) + rest.value)
  {
    hide PieceWire, RdataOf;
    assert rs[i..][1..] == rs[i + 1..];
    var first, rest := RecordPiece(rs[i]), RecordPieces(rs[i + 1..]);
    if first.Some? && rest.Some? {
      var xs := [first.value] + rest.value;
      assert xs[1..] == rest.value;
      var x, y := PieceWire(first.value, qclass, ttl), PiecesWire(rest.value, qclass, ttl);
      if x.Some? && y.Some? {
        assert done + (x.value + y.value) == (done + x.value) + y.value;
      }
    }
  }

  /** MultiAnswer; `ok` is a return value of 0. The output is only specified then. */
  method MultiAnswer(output: Buffer, request: Header, questions: seq<Question>, rs: seq<AnswerRecord>, ttl: u32) returns (ok: bool)
    modifies output
    ensures ok == MultiAnswerWire(request, questions, rs, ttl).Some?
    ensures ok ==> output.data == MultiAnswerWire(request, questions, rs, ttl).value
  {
    hide RecordsWire, AppendedWire, QuestionWire, PrintHeader, StandardHeader, RdataOf;
    MultiAnswerSplit(request, questions, rs, ttl);
    if rs == [] || |rs| > 0xFFFF {
      return false;
    }
    WriteStandardHeader(output, request, RCODE_NOERROR, |rs|, 0, 0, true);
    ok := WriteQuestion(output, questions);
    if !ok {
      return;
    }
    var qclass := questions[0].qclass;
    ghost var before := output.data;
    ghost var whole := RecordsWire(rs, qclass, ttl);
    assert rs[0..] == rs;
    for i := 0 to |rs|
      invariant whole.Some? <==> RecordsWire(rs[i..], qclass, ttl).Some?
      invariant whole.Some? ==> before + whole.value == output.data + RecordsWire(rs[i..], qclass, ttl).value
    {
      RecordsWireStep(output.data, rs, i, qclass, ttl);
      ok := DispatchAppendAnswer(output, rs[i], qclass, ttl);
      if !ok {
        return;
      }
    }
    assert rs[|rs|..] == [];
    NoRecordsLeft(output.data, qclass, ttl);
    return true;
  }

  lemma NoRecordsLeft(done: bytes, qclass: u16, ttl: u32)
    ensures RecordsWire([], qclass, ttl).Some? && done + RecordsWire([], qclass, ttl).value == done
  {
  }

  lemma MultiAnswerSplit(request: Header, questions: seq<Question>, rs: seq<AnswerRecord>, ttl: u32)
    ensures var all := MultiAnswerWire(request, questions, rs, ttl);
            if rs == [] || |rs| > 0xFFFF || questions == [] || QuestionWire(questions[0]).None?
               || RecordsWire(rs, questions[0].qclass, ttl).None? then all.None?
            else all == Some(PrintHeader(StandardHeader(request, RCODE_NOERROR, |rs|, 0, 0, true))
                             + QuestionWire(questions[0]).value + RecordsWire(rs, questions[0].qclass, ttl).value)
  {
    hide QuestionWire, PrintHeader, StandardHeader, RecordPieces;
    if rs != [] && |rs| <= 0xFFFF && questions != [] && QuestionWire(questions[0]).Some?
       && RecordsWire(rs, questions[0].qclass, ttl).Some? {
      var h, q, r := PrintHeader(StandardHeader(request, RCODE_NOERROR, |rs|, 0, 0, true)), QuestionWire(questions[0]).value,
                     RecordsWire(rs, questions[0].qclass, ttl).value;
      assert h + (q + (r + [])) == h + q + r;
    }
  }

  /** NOTIMP, SERVFAIL and REFUSED differ in the RCODE only. */
  method PlainReply(output: Buffer, request: Header, questions: seq<Question>, rcode: nat, authoritative: bool) returns (ok: bool)
    modifies output
    ensures ok == PlainWire(request, questions, rcode, authoritative).Some?
    ensures ok ==> output.data == PlainWire(request, questions, rcode, authoritative).value
  {
    hide QuestionWire, PrintHeader, StandardHeader;
    WriteStandardHeader(output, request, rcode, 0, 0, 0, authoritative);
    ok := WriteQuestion(output, questions);
    if ok {
      PlainSplit(request, questions, rcode, authoritative);
    }
  }

  lemma PlainSplit(request: Header, questions: seq<Question>, rcode: nat, authoritative: bool)
    requires questions != [] && QuestionWire(questions[0]).Some?
    ensures PlainWire(request, questions, rcode, authoritative) ==
            Some(PrintHeader(StandardHeader(request, rcode, 0, 0, 0, authoritative)) + QuestionWire(questions[0]).value)
  {
    hide QuestionWire, PrintHeader, StandardHeader;
    assert QuestionWire(questions[0]).value + ([] + []) == QuestionWire(questions[0]).value;
  }

  /** The fields of NXDOMAIN's SOA record, one after the other. */
  method AppendSoaFields(output: Buffer, owner: bytes, qclass: u16, ttl: u32, mname: bytes, rname: bytes)
    requires |mname| + |rname| + 20 < 0x1_0000
    modifies output
    ensures output.data == old(output.data) + (owner + (PrintFixed(TYPE_SOA, qclass, ttl, |mname| + |rname| + 20) + (mname + rname + SoaTimers(ttl))))
  {
    hide PrintFixed, FiveWords;
    ghost var start := output.data;
    output.Append(owner);
    AppendFixed(output, TYPE_SOA, qclass, ttl, |mname| + |rname| + 20);
    output.Append(mname);
    output.Append(rname);
    AppendWords(output, 1, 86400, 3600, 604800, ttl);
    Regroup(start, owner, PrintFixed(TYPE_SOA, qclass, ttl, |mname| + |rname| + 20), mname, rname, SoaTimers(ttl));
  }

  /** NXDOMAIN; when a name of the SOA record cannot be encoded the record is dropped and NSCOUNT patched. */
  method NXDOMAIN(output: Buffer, request: Header, questions: seq<Question>, zone: bytes, ttl: u32) returns (ok: bool)
    modifies output
    ensures ok == NxDomainWire(request, questions, zone, ttl).Some?
    ensures ok ==> output.data == NxDomainWire(request, questions, zone, ttl).value
  {
    hide QuestionWire, PrintHeader, NameWire, PrintFixed, NxDomainWire, Overwrite, SoaTimers;
    NxDomainSplit(request, questions, zone, ttl);
    var nscount: u16 := if zone == [] then 0 else 1;
    WriteStandardHeader(output, request, RCODE_NXDOMAIN, 0, nscount, 0, true);
    ok := WriteQuestion(output, questions);
    if !ok || zone == [] {
      return;
    }
    var encoded, owner, mname, rname := EncodeSoaNames(zone);
    if !encoded {
      PatchNscount(StandardHeader(request, RCODE_NXDOMAIN, 0, 1, 0, true), QuestionWire(questions[0]).value, 0);
      output.Write16(8, 0);
      return;
    }
    EncodedNamesAreShort(NS_PREFIX + zone + [DOT]);
    EncodedNamesAreShort(HOSTMASTER_PREFIX + zone + [DOT]);
    AppendSoaFields(output, owner, questions[0].qclass, ttl, mname, rname);
  }

  /** The three names of NXDOMAIN's SOA record, each encoded into a buffer of its own. */
  method EncodeSoaNames(zone: bytes) returns (ok: bool, owner: bytes, mname: bytes, rname: bytes)
    ensures ok == (NameWire(zone).Some? && NameWire(NS_PREFIX + zone + [DOT]).Some? && NameWire(HOSTMASTER_PREFIX + zone + [DOT]).Some?)
    ensures ok ==> owner == NameWire(zone).value
    ensures ok ==> mname == NameWire(NS_PREFIX + zone + [DOT]).value && rname == NameWire(HOSTMASTER_PREFIX + zone + [DOT]).value
  {
    hide NameWire;
    ok, owner := EncodeAlone(zone);
    mname, rname := [], [];
    if ok {
      ok, mname := EncodeAlone(NS_PREFIX + zone + [DOT]);
    }
    if ok {
      ok, rname := EncodeAlone(HOSTMASTER_PREFIX + zone + [DOT]);
    }
  }

  method EncodeAlone(name: bytes) returns (ok: bool, wire: bytes)
    ensures ok == NameWire(name).Some?
    ensures ok ==> wire == NameWire(name).value
  {
    hide NameWire;
    var buffer := new Buffer();
    ok := TextToQuestion(name, buffer);
    wire := buffer.data;
    if ok {
      NothingBefore(wire, NameWire(name).value);
    }
  }

  lemma NothingBefore(x: bytes, y: bytes)
    requires x == [] + y
    ensures x == y
  {
  }

  lemma EncodedNamesAreShort(s: bytes)
    ensures NameWire(s).Some? ==> |NameWire(s).value| <= MAX_NAME_WIRE
  {
  }

  lemma Regroup(a: bytes, b: bytes, c: bytes, d: bytes, e: bytes, f: bytes)
    ensures a + b + c + d + e + f == a + (b + (c + (d + e + f)))
  {
  }

  lemma PatchNscount(h: Header, rest: bytes, nscount: u16)
    ensures Overwrite(PrintHeader(h) + rest, 8, Put16(nscount)) == PrintHeader(h.(nscount := nscount)) + rest
  {
    hide Put16;
  }

  lemma NxDomainSplit(request: Header, questions: seq<Question>, zone: bytes, ttl: u32)
    ensures var all := NxDomainWire(request, questions, zone, ttl);
            if questions == [] || QuestionWire(questions[0]).None? then all.None?
            else
              var q := QuestionWire(questions[0]).value;
              if zone == [] || ZoneSoa(zone, ttl).None? then
                all == Some(PrintHeader(StandardHeader(request, RCODE_NXDOMAIN, 0, 0, 0, true)) + q)
              else
                var soa := PieceWire(ZoneSoa(zone, ttl).value, questions[0].qclass, ttl);
                soa.Some? && all == Some(PrintHeader(StandardHeader(request, RCODE_NXDOMAIN, 0, 1, 0, true)) + q + soa.value)
  {
    hide QuestionWire, PrintHeader, StandardHeader, NameWire, SoaTimers, PrintFixed;
    EncodedNamesAreShort(NS_PREFIX + zone + [DOT]);
    EncodedNamesAreShort(HOSTMASTER_PREFIX + zone + [DOT]);
    if questions != [] && QuestionWire(questions[0]).Some? {
      PlainSplit(request, questions, RCODE_NXDOMAIN, true);
      if zone != [] && ZoneSoa(zone, ttl).Some? {
        var h, q := PrintHeader(StandardHeader(request, RCODE_NXDOMAIN, 0, 1, 0, true)), QuestionWire(questions[0]).value;
        var x := ZoneSoa(zone, ttl).value;
        var soa := PieceWire(x, questions[0].qclass, ttl);
        assert [x][1..] == [];
        assert h + (q + ([] + (soa.value + []))) == h + q + soa.value;
      }
    }
  }
}
