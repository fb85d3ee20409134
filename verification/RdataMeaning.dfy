// What the RDATA that is built from zone data means: read on its own, it gives the
// numbers, names, strings and addresses of the zone data back.
module RdataMeaning {
  import opened Wire
  import opened Names
  import opened Messages
  import opened Responses
  import opened Text

  // ---------------------------------------------------------------------
  // Encoded names.

  /** A name that DomainToQuestion encodes parses back to its labels, without looking anywhere else. */
  lemma EncodedNameParses(d: bytes, o: nat, hops: nat, ls: Labels)
    requires LabelsWire(ls).Some? && At(d, o, LabelsWire(ls).value)
    ensures ParseName(d, o, hops) == Some(Named(ls, o + |LabelsWire(ls).value|))
    ensures forall i: nat :: NameReads(d, o, hops, i) ==> o <= i
  {
    hide ParseName, NameReads, PrintName, At;
    PrintedNameParses(d, o, hops, ls);
  }

  /** The labels that the wire form of a text stands for. */
  lemma NameWireIsLabels(s: bytes)
    requires NameWire(s).Some?
    ensures LabelsWire(TextLabels(s)) == Some(NameWire(s).value)
  {
    if s == [] {
      var parts: Labels := [[]];
      assert Split(s, DOT) == parts && parts[1..] == [];
      assert TextLabels(s) == [];
    }
  }

  // ---------------------------------------------------------------------
  // Reading RDATA.

  /** The name of `text` lies from `o` to `end`. */
  predicate HoldsName(rdata: bytes, o: nat, text: bytes, end: nat) {
    ParseName(rdata, o, MAX_POINTER_HOPS) == Some(Named(TextLabels(text), end))
  }

  /** The character-strings (section 3.3 of RFC 1035) from `o` to the end. */
  function ReadStrings(d: bytes, o: nat): Option<seq<bytes>>
    decreases |d| - o
  {
    if o >= |d| then (if o == |d| then Some([]) else None)
    else
      var end := o + 1 + d[o] as int;
      if end > |d| then None
      else
        match ReadStrings(d, end)
        case None => None
        case Some(rest) => Some([d[o + 1..end]] + rest)
  }

  /** Two names and five 32-bit words (section 3.3.13 of RFC 1035), and nothing else. */
  predicate HoldsSoa(rdata: bytes, mname: bytes, rname: bytes, serial: u32, refresh: u32, retry: u32, expire: u32, minimum: u32) {
    && |rdata| >= 20
    && (exists middle :: 0 <= middle <= |rdata| && HoldsName(rdata, 0, mname, middle) && HoldsName(rdata, middle, rname, |rdata| - 20))
    && var w := |rdata| - 20;
    && Get32(rdata, w) == serial && Get32(rdata, w + 4) == refresh && Get32(rdata, w + 8) == retry
    && Get32(rdata, w + 12) == expire && Get32(rdata, w + 16) == minimum
  }

  predicate NumberAt(data: Json, field: string) {
    data.Obj? && field in data.fields && data.fields[field].Number?
  }

  predicate TextAt(data: Json, field: string) {
    data.Obj? && field in data.fields && data.fields[field].Str?
  }

  /** A number cut to 16 bits. */
  predicate Holds16(rdata: bytes, o: nat, data: Json, field: string) {
    NumberAt(data, field) && o + 2 <= |rdata| && Get16(rdata, o) == data.fields[field].n % 0x1_0000
  }

  predicate HoldsAddress(rtype: u16, size: nat, data: Json, x: Rdata) {
    x.rtype == rtype && |x.rdata| == size && data == Str(x.rdata)
  }

  predicate HoldsDomain(rtype: u16, data: Json, x: Rdata) {
    x.rtype == rtype && data.Str? && HoldsName(x.rdata, 0, data.s, |x.rdata|)
  }

  predicate HoldsMx(data: Json, x: Rdata) {
    && x.rtype == 15 && TextAt(data, "exchange") && Holds16(x.rdata, 0, data, "preference")
    && HoldsName(x.rdata, 2, data.fields["exchange"].s, |x.rdata|)
  }

  predicate HoldsSrv(data: Json, x: Rdata) {
    && x.rtype == 33 && TextAt(data, "target")
    && Holds16(x.rdata, 0, data, "priority") && Holds16(x.rdata, 2, data, "weight") && Holds16(x.rdata, 4, data, "port")
    && HoldsName(x.rdata, 6, data.fields["target"].s, |x.rdata|)
  }

  predicate HoldsSoaOf(data: Json, x: Rdata) {
    && x.rtype == 6 && TextAt(data, "primary") && TextAt(data, "admin")
    && NumberAt(data, "serial") && NumberAt(data, "refresh") && NumberAt(data, "retry")
    && NumberAt(data, "expire") && NumberAt(data, "minimum")
    && HoldsSoa(x.rdata, data.fields["primary"].s, data.fields["admin"].s,
                data.fields["serial"].n % 0x1_0000_0000, data.fields["refresh"].n % 0x1_0000_0000,
                data.fields["retry"].n % 0x1_0000_0000, data.fields["expire"].n % 0x1_0000_0000,
                data.fields["minimum"].n % 0x1_0000_0000)
  }

  predicate HoldsTexts(data: Json, x: Rdata) {
    && x.rtype == 16 && data.Arr? && data.items != []
    && var strings := ReadStrings(x.rdata, 0);
    && strings.Some? && |strings.value| == |data.items|
    && forall k :: 0 <= k < |data.items| ==> data.items[k] == Str(strings.value[k])
  }

  /** TYPE (section 3.2.2 of RFC 1035, RFC 3596, RFC 2782) and RDATA say what zone data of the given type says. */
  predicate Holds(rtype: string, data: Json, x: Rdata) {
    if rtype == "A" then HoldsAddress(1, 4, data, x)
    else if rtype == "AAAA" then HoldsAddress(28, 16, data, x)
    else if rtype == "CNAME" then HoldsDomain(5, data, x)
    else if rtype == "NS" then HoldsDomain(2, data, x)
    else if rtype == "PTR" then HoldsDomain(12, data, x)
    else if rtype == "SOA" then HoldsSoaOf(data, x)
    else if rtype == "MX" then HoldsMx(data, x)
    else if rtype == "TXT" then HoldsTexts(data, x)
    else rtype == "SRV" && HoldsSrv(data, x)
  }

  // ---------------------------------------------------------------------
  // What is built is what is read.

  lemma NameHeld(before: bytes, s: bytes, after: bytes)
    requires NameWire(s).Some?
    ensures HoldsName(before + NameWire(s).value + after, |before|, s, |before| + |NameWire(s).value|)
  {
    hide NameWire, LabelsWire, ParseName, TextLabels, NameReads;
    NameWireIsLabels(s);
    AtMiddle(before, NameWire(s).value, after);
    EncodedNameParses(before + NameWire(s).value + after, |before|, MAX_POINTER_HOPS, TextLabels(s));
  }

  lemma WordsHeld(before: bytes, a: u32, b: u32, c: u32, d: u32, e: u32)
    ensures var x, w := before + FiveWords(a, b, c, d, e), |before|;
            && |x| == w + 20
            && Get32(x, w) == a && Get32(x, w + 4) == b && Get32(x, w + 8) == c && Get32(x, w + 12) == d && Get32(x, w + 16) == e
  {
    hide Put32, Get32, At;
    var x, w := before + FiveWords(a, b, c, d, e), |before|;
    AtMiddle(before, FiveWords(a, b, c, d, e), []);
    assert x + [] == x;
    AtSplit(x, w, Put32(a) + Put32(b) + Put32(c) + Put32(d), Put32(e));
    AtSplit(x, w, Put32(a) + Put32(b) + Put32(c), Put32(d));
    AtSplit(x, w, Put32(a) + Put32(b), Put32(c));
    AtSplit(x, w, Put32(a), Put32(b));
    AtPut32(x, w, a);
    AtPut32(x, w + 4, b);
    AtPut32(x, w + 8, c);
    AtPut32(x, w + 12, d);
    AtPut32(x, w + 16, e);
  }

  lemma SoaHeld(mname: bytes, rname: bytes, a: u32, b: u32, c: u32, d: u32, e: u32)
    requires NameWire(mname).Some? && NameWire(rname).Some?
    ensures HoldsSoa(NameWire(mname).value + NameWire(rname).value + FiveWords(a, b, c, d, e), mname, rname, a, b, c, d, e)
  {
    hide NameWire, FiveWords, HoldsName, Get32;
    var m, r, words := NameWire(mname).value, NameWire(rname).value, FiveWords(a, b, c, d, e);
    var x := m + r + words;
    NameHeld([], mname, r + words);
    assert [] + m + (r + words) == x;
    NameHeld(m, rname, words);
    WordsHeld(m + r, a, b, c, d, e);
  }

  lemma DomainHeld(rtype: u16, data: Json)
    requires DomainRdata(rtype, data).Some?
    ensures HoldsDomain(rtype, data, DomainRdata(rtype, data).value)
  {
    hide NameWire, HoldsName;
    NameHeld([], data.s, []);
    assert [] + NameWire(data.s).value + [] == NameWire(data.s).value;
  }

  lemma MxHeld(data: Json)
    requires MxRdata(data).Some?
    ensures HoldsMx(data, MxRdata(data).value)
  {
    hide NameWire, HoldsName, Put16;
    var before, name := Put16(Number16(data, "preference")), data.fields["exchange"].s;
    NameHeld(before, name, []);
    var x := before + NameWire(name).value;
    assert x + [] == x;
    assert [] + before + NameWire(name).value == x;
    AtMiddle([], before, NameWire(name).value);
    AtPut16(x, 0, Number16(data, "preference"));
  }

  lemma FrontWord(v: u16, before: bytes, after: bytes)
    ensures var x := before + (Put16(v) + after); |x| == |before| + 2 + |after| && Get16(x, |before|) == v
  {
    hide Put16, Get16;
    var x := before + (Put16(v) + after);
    AtMiddle(before, Put16(v), after);
    assert before + Put16(v) + after == x;
    AtPut16(x, |before|, v);
  }

  lemma ThreeWordsHeld(p: u16, w: u16, o: u16, after: bytes)
    ensures var x := Put16(p) + Put16(w) + Put16(o) + after;
            |x| == 6 + |after| && Get16(x, 0) == p && Get16(x, 2) == w && Get16(x, 4) == o
  {
    hide Put16, Get16;
    var a, b, c := Put16(p), Put16(w), Put16(o);
    var x := a + b + c + after;
    FrontWord(p, [], b + c + after);
    FrontWord(w, a, c + after);
    FrontWord(o, a + b, after);
    assert [] + (a + (b + c + after)) == x && a + (b + (c + after)) == x && a + b + (c + after) == x;
  }

  lemma SrvHeld(data: Json)
    requires SrvRdata(data).Some?
    ensures HoldsSrv(data, SrvRdata(data).value)
  {
    hide NameWire, HoldsName, Put16, Get16;
    var p, w, o := Number16(data, "priority"), Number16(data, "weight"), Number16(data, "port");
    var name := data.fields["target"].s;
    var x := Put16(p) + Put16(w) + Put16(o) + NameWire(name).value;
    NameHeld(Put16(p) + Put16(w) + Put16(o), name, []);
    assert x + [] == x;
    ThreeWordsHeld(p, w, o, NameWire(name).value);
  }

  lemma SoaOfHeld(data: Json)
    requires SoaRdata(data).Some?
    ensures HoldsSoaOf(data, SoaRdata(data).value)
  {
    hide NameWire, HoldsSoa, FiveWords;
    SoaHeld(data.fields["primary"].s, data.fields["admin"].s,
            Number32(data, "serial"), Number32(data, "refresh"), Number32(data, "retry"),
            Number32(data, "expire"), Number32(data, "minimum"));
  }

  lemma OneString(before: bytes, s: bytes, after: bytes)
    requires |s| <= 255
    ensures var d := before + ([|s| as byte] + s + after);
            d == (before + [|s| as byte] + s) + after &&
            ReadStrings(d, |before|) ==
              (match ReadStrings(d, |before| + 1 + |s|) case None => None case Some(rest) => Some([s] + rest))
  {
    hide ReadStrings;
    var d := before + ([|s| as byte] + s + after);
    Regrouped(before, [|s| as byte], s, after);
    StringLies(before + [|s| as byte], s, after);
    assert d[|before|] == |s| as byte;
    ReadOne(d, |before|, s);
  }

  lemma ReadOne(d: bytes, o: nat, s: bytes)
    requires o + 1 + |s| <= |d| && d[o] as int == |s| && d[o + 1..o + 1 + |s|] == s
    ensures ReadStrings(d, o) ==
            (match ReadStrings(d, o + 1 + |s|) case None => None case Some(rest) => Some([s] + rest))
  {
  }

  lemma Regrouped(a: bytes, b: bytes, c: bytes, d: bytes)
    ensures a + (b + c + d) == a + b + c + d
  {
  }

  lemma StringLies(before: bytes, s: bytes, after: bytes)
    ensures (before + s + after)[|before|..|before| + |s|] == s
  {
  }

  lemma {:induction false} TextsHeld(before: bytes, items: seq<Json>)
    requires TxtStrings(items).Some?
    ensures var strings := ReadStrings(before + TxtStrings(items).value, |before|);
            && strings.Some? && |strings.value| == |items|
            && forall k :: 0 <= k < |items| ==> items[k] == Str(strings.value[k])
    decreases |items|
  {
    hide ReadStrings;
    if items == [] {
      assert ReadStrings(before + [], |before|) == Some([]) by { NoStrings(before); }
    } else {
      var s, rest := items[0].s, TxtStrings(items[1..]).value;
      OneString(before, s, rest);
      TextsHeld(before + [|s| as byte] + s, items[1..]);
      assert items == [items[0]] + items[1..];
    }
  }

  lemma NoStrings(d: bytes)
    ensures ReadStrings(d + [], |d|) == Some([])
  {
  }

  lemma TxtHeld(data: Json)
    requires TxtRdata(data).Some?
    ensures HoldsTexts(data, TxtRdata(data).value)
  {
    hide ReadStrings, TxtStrings;
    TextsHeld([], data.items);
    assert [] + TxtStrings(data.items).value == TxtStrings(data.items).value;
  }

  /** Whatever the builders accept is encoded so that it reads back. */
  lemma RdataHolds(rtype: string, data: Json)
    requires RdataOf(rtype, data).Some?
    ensures Holds(rtype, data, RdataOf(rtype, data).value)
  {
    hide DomainRdata, SoaRdata, MxRdata, TxtRdata, SrvRdata, HoldsDomain, HoldsSoaOf, HoldsMx, HoldsTexts, HoldsSrv;
    match rtype
    case "CNAME" => DomainHeld(TYPE_CNAME, data);
    case "NS" => DomainHeld(TYPE_NS, data);
    case "PTR" => DomainHeld(TYPE_PTR, data);
    case "SOA" => SoaOfHeld(data);
    case "MX" => MxHeld(data);
    case "TXT" => TxtHeld(data);
    case "SRV" => SrvHeld(data);
    case _ =>
  }

  // ---------------------------------------------------------------------
  // What is accepted.

  /** Labels of 1 to 63 bytes that take at most 255 bytes with their length bytes and the zero byte. */
  predicate FitsAName(ls: Labels) {
    (forall k :: 0 <= k < |ls| ==> 1 <= |ls[k]| <= 63) && NameSize(ls) <= 255
  }

  /** A dotted name of at most 253 characters whose non-empty parts fit a name. */
  predicate Encodable(s: bytes) {
    |s| <= 253 && FitsAName(TextLabels(s))
  }

  lemma LabelsAcceptedExactly(ls: Labels)
    ensures LabelsWire(ls).Some? <==> FitsAName(ls)
  {
  }

  lemma NameAcceptedExactly(s: bytes)
    ensures NameWire(s).Some? <==> Encodable(s)
  {
    hide LabelsWire, FitsAName;
    LabelsAcceptedExactly(TextLabels(s));
    if s == [] {
      NameWireIsLabels(s);
    }
  }

  predicate NamesATarget(data: Json) {
    data.Str? && data.s != [] && Encodable(data.s)
  }

  predicate NamesATargetAt(data: Json, field: string) {
    TextAt(data, field) && NamesATarget(data.fields[field])
  }

  /** The size of character-strings with their length bytes. */
  function TextsSize(items: seq<Json>): nat {
    if items == [] then 0 else (if items[0].Str? then 1 + |items[0].s| else 0) + TextsSize(items[1..])
  }

  predicate AreTexts(items: seq<Json>) {
    && items != [] && TextsSize(items) <= 65535
    && forall k :: 0 <= k < |items| ==> items[k].Str? && |items[k].s| <= 255
  }

  /** The zone data from which a record of the given type can be built. */
  predicate Acceptable(rtype: string, data: Json) {
    match rtype
    case "A" => data.Str? && |data.s| == 4
    case "AAAA" => data.Str? && |data.s| == 16
    case "CNAME" => NamesATarget(data)
    case "NS" => NamesATarget(data)
    case "PTR" => NamesATarget(data)
    case "SOA" =>
      && NamesATargetAt(data, "primary") && NamesATargetAt(data, "admin")
      && NumberAt(data, "serial") && NumberAt(data, "refresh") && NumberAt(data, "retry")
      && NumberAt(data, "expire") && NumberAt(data, "minimum")
    case "MX" => NumberAt(data, "preference") && NamesATargetAt(data, "exchange")
    case "TXT" => data.Arr? && AreTexts(data.items)
    case "SRV" => NumberAt(data, "priority") && NumberAt(data, "weight") && NumberAt(data, "port") && NamesATargetAt(data, "target")
    case _ => false
  }

  lemma {:induction false} TextsAccepted(items: seq<Json>)
    ensures TxtStrings(items).Some? <==> forall k :: 0 <= k < |items| ==> items[k].Str? && |items[k].s| <= 255
    ensures TxtStrings(items).Some? ==> |TxtStrings(items).value| == TextsSize(items)
  {
    if items != [] {
      TextsAccepted(items[1..]);
      assert items == [items[0]] + items[1..];
    }
  }

  lemma FieldAccepted(data: Json, field: string)
    ensures FieldName(data, field).Some? <==> NamesATargetAt(data, field)
  {
    hide NameWire, FitsAName, TextLabels;
    if HasText(data, field) {
      NameAcceptedExactly(data.fields[field].s);
    }
  }

  lemma DomainAccepted(rtype: u16, data: Json)
    ensures DomainRdata(rtype, data).Some? <==> NamesATarget(data)
  {
    hide NameWire, FitsAName, TextLabels;
    if data.Str? {
      NameAcceptedExactly(data.s);
    }
  }

  /** Which zone data the builders take, and which they refuse. */
  lemma RdataAcceptedExactly(rtype: string, data: Json)
    ensures RdataOf(rtype, data).Some? <==> Acceptable(rtype, data)
  {
    hide DomainRdata, FieldName, NamesATarget, NamesATargetAt, TxtStrings, TextsSize, FiveWords, Put16;
    match rtype
    case "CNAME" => DomainAccepted(TYPE_CNAME, data);
    case "NS" => DomainAccepted(TYPE_NS, data);
    case "PTR" => DomainAccepted(TYPE_PTR, data);
    case "SOA" =>
      FieldAccepted(data, "primary");
      FieldAccepted(data, "admin");
    case "MX" => FieldAccepted(data, "exchange");
    case "SRV" => FieldAccepted(data, "target");
    case "TXT" =>
      if data.Arr? {
        TextsAccepted(data.items);
      }
    case _ =>
  }

  // ---------------------------------------------------------------------
  // The labels of a text.

  lemma OnePart(part: bytes)
    ensures NonEmpty([part]) == if part == [] then [] else [part]
  {
    var one := [part];
    assert one[1..] == [];
    assert NonEmpty(one[1..]) == [];
    assert [part] + [] == one;
  }

  /** Text is cut at every dot, and parts without characters are dropped. */
  lemma TextLabelsExactly(first: bytes, rest: bytes)
    requires DOT !in first
    ensures TextLabels(first) == if first == [] then [] else [first]
    ensures TextLabels(first + [DOT] + rest) == TextLabels(first) + TextLabels(rest)
  {
    hide Split;
    SplitPart(first, DOT, rest);
    var parts := [first] + Split(rest, DOT);
    assert parts[1..] == Split(rest, DOT);
    OnePart(first);
  }

  // ---------------------------------------------------------------------
  // The SOA record of a negative answer.

  lemma TrailingDot(s: bytes)
    ensures NonEmpty(Split(s + [DOT], DOT)) == NonEmpty(Split(s, DOT))
  {
    SplitTrailing(s, DOT);
    NonEmptyLast(Split(s, DOT));
  }

  lemma {:induction false} SplitTrailing(s: bytes, sep: byte)
    ensures Split(s + [sep], sep) == Split(s, sep) + [[]]
  {
    if s == [] {
      assert [sep][1..] == [];
      assert s + [sep] == [sep];
    } else {
      SplitTrailing(s[1..], sep);
      assert (s + [sep])[1..] == s[1..] + [sep];
      var rest := Split(s[1..], sep);
      assert (rest + [[]])[0] == rest[0] && (rest + [[]])[1..] == rest[1..] + [[]];
    }
  }

  lemma {:induction false} NonEmptyLast(parts: seq<bytes>)
    ensures NonEmpty(parts + [[]]) == NonEmpty(parts)
  {
    if parts == [] {
      assert (parts + [[]])[1..] == parts;
    } else {
      NonEmptyLast(parts[1..]);
      assert (parts + [[]])[1..] == parts[1..] + [[]];
    }
  }

  /** Putting a label and a dot before a name, and a dot behind it, puts the label before its labels. */
  lemma PrefixedLabels(first: bytes, zone: bytes)
    requires first != [] && DOT !in first
    ensures TextLabels(first + [DOT] + zone + [DOT]) == [first] + TextLabels(zone)
  {
    hide Split;
    TrailingDot(first + [DOT] + zone);
    SplitPart(first, DOT, zone);
    var parts := [first] + Split(zone, DOT);
    assert parts[1..] == Split(zone, DOT);
  }

  /** The record names ns and hostmaster under the zone, and its timers are fixed but for the last. */
  lemma ZoneSoaHolds(zone: bytes, ttl: u32)
    requires ZoneSoa(zone, ttl).Some?
    ensures var x := ZoneSoa(zone, ttl).value;
            && x.name == zone && x.rtype == TYPE_SOA
            && HoldsSoa(x.rdata, NS_PREFIX + zone + [DOT], HOSTMASTER_PREFIX + zone + [DOT], 1, 86400, 3600, 604800, ttl)
    ensures TextLabels(NS_PREFIX + zone + [DOT]) == [NS] + TextLabels(zone)
    ensures TextLabels(HOSTMASTER_PREFIX + zone + [DOT]) == [HOSTMASTER] + TextLabels(zone)
  {
    hide NameWire, HoldsSoa, FiveWords, TextLabels;
    SoaHeld(NS_PREFIX + zone + [DOT], HOSTMASTER_PREFIX + zone + [DOT], 1, 86400, 3600, 604800, ttl);
    PrefixedLabels(NS, zone);
    PrefixedLabels(HOSTMASTER, zone);
  }
}
