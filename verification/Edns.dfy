// The EDNS part of the request parser (section 6.1 of RFC 6891): the walk over
// the additional section and what its verdict means.
module Edns {
  import opened Wire
  import opened Names
  import opened Messages

  const MIN_UDP_PAYLOAD: u16 := 512

  datatype EdnsOption = EdnsOption(code: u16, data: bytes)

  datatype EdnsData = EdnsData(udpPayloadSize: u16, extendedRcode: nat, version: nat, doBit: bool, options: seq<EdnsOption>)

  /** `NoOpt` is the source's EdnsParseStatus::None. */
  datatype EdnsStatus = NoOpt | Ok | BadVersion | DuplicateOpt | Malformed

  datatype EdnsState = EdnsState(edns: Option<EdnsData>, status: EdnsStatus)

  const START := EdnsState(None, NoOpt)

  // ---------------------------------------------------------------------
  // Options.

  /** The option loop over the RDATA [o, end); None means that an option leaves it. */
  function ParseOptions(d: bytes, o: nat, end: nat): Option<seq<EdnsOption>>
    requires end <= |d|
    decreases end - o
  {
    if o + 4 > end then Some([])
    else
      var length := Get16(d, o + 2);
      if o + 4 + length > end then None
      else
        match ParseOptions(d, o + 4 + length, end)
        case None => None
        case Some(rest) => Some([EdnsOption(Get16(d, o), d[o + 4..o + 4 + length])] + rest)
  }

  function PrintOption(x: EdnsOption): (r: bytes)
    requires |x.data| < 0x1_0000
    ensures |r| == 4 + |x.data|
  {
    Put16(x.code) + (Put16(|x.data|) + x.data)
  }

  predicate PrintableOptions(xs: seq<EdnsOption>) {
    forall k :: 0 <= k < |xs| ==> |xs[k].data| < 0x1_0000
  }

  function PrintOptions(xs: seq<EdnsOption>): bytes
    requires PrintableOptions(xs)
  {
    if xs == [] then [] else PrintOption(xs[0]) + PrintOptions(xs[1..])
  }

  /** `xs` are the consecutive options of [o, end), with fewer than 4 bytes left over. */
  ghost predicate OptionsFill(d: bytes, o: nat, end: nat, xs: seq<EdnsOption>) {
    && PrintableOptions(xs)
    && At(d, o, PrintOptions(xs))
    && o + |PrintOptions(xs)| <= end < o + |PrintOptions(xs)| + 4
  }

  lemma OptionAt(d: bytes, o: nat, x: EdnsOption)
    requires |x.data| < 0x1_0000
    ensures At(d, o, PrintOption(x)) <==>
            o + 4 + |x.data| <= |d| && Get16(d, o) == x.code && Get16(d, o + 2) == |x.data| && d[o + 4..o + 4 + |x.data|] == x.data
  {
    hide At, Put16, Get16;
    AtSplit(d, o, Put16(x.code), Put16(|x.data|) + x.data);
    AtSplit(d, o + 2, Put16(|x.data|), x.data);
    AtSlice(d, o + 4, x.data);
    Put16At(d, o, x.code);
    Put16At(d, o + 2, |x.data|);
  }

  predicate OptionIn(d: bytes, o: nat, end: nat, x: EdnsOption)
    requires end <= |d|
  {
    && o + 4 + |x.data| <= end
    && Get16(d, o) == x.code && Get16(d, o + 2) == |x.data| && d[o + 4..o + 4 + |x.data|] == x.data
  }

  lemma FillCons(d: bytes, o: nat, end: nat, x: EdnsOption, rest: seq<EdnsOption>)
    requires end <= |d|
    ensures OptionsFill(d, o, end, [x] + rest) <==>
            OptionIn(d, o, end, x) && OptionsFill(d, o + 4 + |x.data|, end, rest)
  {
    hide At, Get16, Put16, PrintOption;
    var xs := [x] + rest;
    assert xs[0] == x && xs[1..] == rest;
    PrintableCons(x, rest);
    if PrintableOptions(xs) {
      assert PrintOptions(xs) == PrintOption(x) + PrintOptions(rest);
      AtSplit(d, o, PrintOption(x), PrintOptions(rest));
      OptionAt(d, o, x);
    }
  }

  lemma PrintableCons(x: EdnsOption, rest: seq<EdnsOption>)
    ensures PrintableOptions([x] + rest) <==> |x.data| < 0x1_0000 && PrintableOptions(rest)
  {
    var xs := [x] + rest;
    assert xs[0] == x && forall k :: 0 <= k < |rest| ==> rest[k] == xs[k + 1];
  }

  lemma ParseOptionsCons(d: bytes, o: nat, end: nat, x: EdnsOption, rest: seq<EdnsOption>)
    requires end <= |d|
    ensures ParseOptions(d, o, end) == Some([x] + rest) <==>
            OptionIn(d, o, end, x) && ParseOptions(d, o + 4 + |x.data|, end) == Some(rest)
  {
    hide Get16;
    var xs := [x] + rest;
    assert xs[0] == x && xs[1..] == rest;
    if o + 4 <= end && o + 4 + Get16(d, o + 2) <= end {
      var tail := ParseOptions(d, o + 4 + Get16(d, o + 2), end);
      var y := EdnsOption(Get16(d, o), d[o + 4..o + 4 + Get16(d, o + 2)]);
      if tail.Some? {
        var ys := [y] + tail.value;
        assert ys[0] == y && ys[1..] == tail.value;
      }
    }
  }

  /** The option loop succeeds with `xs` exactly when `xs` fill the RDATA. */
  lemma {:induction false} OptionsExact(d: bytes, o: nat, end: nat, xs: seq<EdnsOption>)
    requires o <= end <= |d|
    ensures ParseOptions(d, o, end) == Some(xs) <==> OptionsFill(d, o, end, xs)
    decreases |xs|
  {
    if xs == [] {
      assert At(d, o, []);
    } else {
      hide ParseOptions, OptionsFill, Get16;
      var x, rest := xs[0], xs[1..];
      assert xs == [x] + rest;
      FillCons(d, o, end, x, rest);
      ParseOptionsCons(d, o, end, x, rest);
      if OptionIn(d, o, end, x) {
        OptionsExact(d, o + 4 + |x.data|, end, rest);
      }
    }
  }

  // ---------------------------------------------------------------------
  // The walk.

  /** The fields of an OPT record whose owner name ends at `f` (section 6.1.3 of RFC 6891). */
  function DecodeOpt(d: bytes, f: nat, options: seq<EdnsOption>): EdnsData
    requires f + 10 <= |d|
  {
    var payload, ttl := Get16(d, f + 2), Get32(d, f + 4);
    EdnsData(if payload < MIN_UDP_PAYLOAD then MIN_UDP_PAYLOAD else payload,
             ttl / 0x100_0000, ttl / 0x1_0000 % 0x100, ttl / 0x8000 % 2 == 1, options)
  }

  /** The record at `o` has room for its owner name and fixed fields. */
  predicate HeaderFits(d: bytes, o: nat) {
    o + 11 <= |d| && OwnerEnd(d, o) + 10 <= |d|
  }

  /** Where the next record starts; only an OPT record's RDATA is checked against the end. */
  function NextRecord(d: bytes, o: nat): (next: nat)
    requires HeaderFits(d, o)
    ensures o < next
  {
    OwnerEnd(d, o) + 10 + Get16(d, OwnerEnd(d, o) + 8)
  }

  predicate IsOpt(d: bytes, o: nat)
    requires HeaderFits(d, o)
  {
    Get16(d, OwnerEnd(d, o)) == TYPE_OPT
  }

  /** The options of the record at `o`; None when its RDATA or an option runs out of bounds. */
  function OptionsOf(d: bytes, o: nat): Option<seq<EdnsOption>>
    requires HeaderFits(d, o)
  {
    if NextRecord(d, o) > |d| then None else ParseOptions(d, OwnerEnd(d, o) + 10, NextRecord(d, o))
  }

  /**
   * The loop over `n` additional records, as the source runs it: `seen` counts the OPT
   * records so far, and a malformed record ends the walk.
   */
  function Run(d: bytes, o: nat, n: nat, seen: nat, s: EdnsState): EdnsState
    decreases n
  {
    if n == 0 then s
    else if !HeaderFits(d, o) then s.(status := Malformed)
    else if !IsOpt(d, o) then Run(d, NextRecord(d, o), n - 1, seen, s)
    else if seen > 0 then Run(d, NextRecord(d, o), n - 1, seen + 1, s.(status := DuplicateOpt))
    else if d[o] != 0 then Run(d, NextRecord(d, o), n - 1, seen + 1, s.(status := Malformed))
    else
      match OptionsOf(d, o)
      case None => s.(status := Malformed)
      case Some(options) =>
        var e := DecodeOpt(d, OwnerEnd(d, o), options);
        var status := if e.version > 0 then BadVersion else if s.status == NoOpt then Ok else s.status;
        Run(d, NextRecord(d, o), n - 1, seen + 1, EdnsState(Some(e), status))
  }

  // ---------------------------------------------------------------------
  // What the verdict means.

  /** The offsets of the `n` records from `o` on; None when the walk cannot reach them all. */
  function Layout(d: bytes, o: nat, n: nat): (r: Option<seq<nat>>)
    ensures r.Some? ==> |r.value| == n && forall k :: 0 <= k < n ==> HeaderFits(d, r.value[k])
    decreases n
  {
    if n == 0 then Some([])
    else if !HeaderFits(d, o) then None
    else
      match Layout(d, NextRecord(d, o), n - 1)
      case None => None
      case Some(rest) => Some([o] + rest)
  }

  function Opts(d: bytes, records: seq<nat>): (r: seq<nat>)
    requires forall k :: 0 <= k < |records| ==> HeaderFits(d, records[k])
    ensures forall k :: 0 <= k < |r| ==> HeaderFits(d, r[k])
  {
    if records == [] then []
    else if IsOpt(d, records[0]) then [records[0]] + Opts(d, records[1..])
    else Opts(d, records[1..])
  }

  /** An OPT record owned by the root whose options are in bounds: it is decoded and stored. */
  predicate Decodable(d: bytes, o: nat)
    requires HeaderFits(d, o)
  {
    d[o] == 0 && OptionsOf(d, o).Some?
  }

  function Decoded(d: bytes, o: nat): EdnsData
    requires HeaderFits(d, o) && Decodable(d, o)
  {
    DecodeOpt(d, OwnerEnd(d, o), OptionsOf(d, o).value)
  }

  /** The verdict, from the layout of the section and the OPT records in it. */
  function Classify(d: bytes, o: nat, n: nat): EdnsStatus {
    match Layout(d, o, n)
    case None => Malformed
    case Some(records) =>
      var opts := Opts(d, records);
      if opts == [] then NoOpt
      else if d[opts[0]] == 0 && !Decodable(d, opts[0]) then Malformed
      else if |opts| > 1 then DuplicateOpt
      else if d[opts[0]] != 0 then Malformed
      else if Decoded(d, opts[0]).version > 0 then BadVersion
      else Ok
  }

  /** After the first OPT record only truncation and repetition matter, and nothing is stored. */
  lemma {:induction false} RunAfterOpt(d: bytes, o: nat, n: nat, seen: nat, s: EdnsState)
    requires seen > 0
    ensures Run(d, o, n, seen, s) ==
            match Layout(d, o, n)
            case None => s.(status := Malformed)
            case Some(records) => if Opts(d, records) == [] then s else s.(status := DuplicateOpt)
    decreases n
  {
    hide OwnerEnd, OptionsOf;
    if n > 0 && HeaderFits(d, o) {
      RunAfterOpt(d, NextRecord(d, o), n - 1, seen, s);
      RunAfterOpt(d, NextRecord(d, o), n - 1, seen + 1, s.(status := DuplicateOpt));
      var rest := Layout(d, NextRecord(d, o), n - 1);
      if rest.Some? {
        OptsCons(d, o, rest.value);
      }
    }
  }

  lemma OptsCons(d: bytes, o: nat, records: seq<nat>)
    requires HeaderFits(d, o) && forall k :: 0 <= k < |records| ==> HeaderFits(d, records[k])
    ensures forall k :: 0 <= k < |[o] + records| ==> HeaderFits(d, ([o] + records)[k])
    ensures Opts(d, [o] + records) == if IsOpt(d, o) then [o] + Opts(d, records) else Opts(d, records)
  {
    assert ([o] + records)[1..] == records;
  }

  /** Classification is exact, whatever the additional section holds. */
  lemma {:induction false} RunClassifies(d: bytes, o: nat, n: nat)
    ensures Run(d, o, n, 0, START).status == Classify(d, o, n)
    decreases n
  {
    hide OwnerEnd, OptionsOf, DecodeOpt;
    if n > 0 && HeaderFits(d, o) {
      var next := NextRecord(d, o);
      var rest := Layout(d, next, n - 1);
      if rest.Some? {
        OptsCons(d, o, rest.value);
      }
      if !IsOpt(d, o) {
        RunClassifies(d, next, n - 1);
      } else if d[o] != 0 {
        RunAfterOpt(d, next, n - 1, 1, START.(status := Malformed));
      } else if OptionsOf(d, o).Some? {
        var e := DecodeOpt(d, OwnerEnd(d, o), OptionsOf(d, o).value);
        RunAfterOpt(d, next, n - 1, 1, EdnsState(Some(e), if e.version > 0 then BadVersion else Ok));
      }
    }
  }

  /**
   * The verdict is Ok exactly when the walk reaches the end of all `n` records and exactly
   * one of them is an OPT record, owned by the root, of version 0 and with its options in
   * bounds; that record's fields are then what is stored.
   */
  lemma OkExactly(d: bytes, o: nat, n: nat)
    ensures Run(d, o, n, 0, START).status == Ok <==>
            var records := Layout(d, o, n);
            && records.Some? && |Opts(d, records.value)| == 1
            && Decodable(d, Opts(d, records.value)[0]) && Decoded(d, Opts(d, records.value)[0]).version == 0
    ensures Run(d, o, n, 0, START).status == Ok ==>
            Run(d, o, n, 0, START).edns == Some(Decoded(d, Opts(d, Layout(d, o, n).value)[0]))
  {
    hide OwnerEnd, OptionsOf, DecodeOpt, Run, Layout, HeaderFits, IsOpt;
    RunClassifies(d, o, n);
    if Run(d, o, n, 0, START).status == Ok {
      StoredIsFirstOpt(d, o, n);
    }
  }

  /** When the walk gets to the end, what is stored is the first OPT record if it is decodable. */
  lemma {:induction false} StoredIsFirstOpt(d: bytes, o: nat, n: nat)
    requires Layout(d, o, n).Some?
    ensures var opts := Opts(d, Layout(d, o, n).value);
            Run(d, o, n, 0, START).edns ==
              if opts != [] && Decodable(d, opts[0]) then Some(Decoded(d, opts[0])) else None
    decreases n
  {
    hide OwnerEnd, OptionsOf, DecodeOpt;
    if n > 0 {
      var next := NextRecord(d, o);
      var rest := Layout(d, next, n - 1);
      OptsCons(d, o, rest.value);
      if !IsOpt(d, o) {
        StoredIsFirstOpt(d, next, n - 1);
      } else if d[o] != 0 {
        RunAfterOpt(d, next, n - 1, 1, START.(status := Malformed));
      } else if OptionsOf(d, o).Some? {
        var e := DecodeOpt(d, OwnerEnd(d, o), OptionsOf(d, o).value);
        RunAfterOpt(d, next, n - 1, 1, EdnsState(Some(e), if e.version > 0 then BadVersion else Ok));
      }
    }
  }

  /** The stored options are the consecutive options of an OPT record's RDATA, and fit it. */
  predicate StoredOptionsFit(s: EdnsState) {
    s.edns.Some? ==>
      && PrintableOptions(s.edns.value.options)
      && |PrintOptions(s.edns.value.options)| < 0x1_0000
  }

  lemma {:induction false} RunStoresFittingOptions(d: bytes, o: nat, n: nat, seen: nat, s: EdnsState)
    requires StoredOptionsFit(s)
    ensures StoredOptionsFit(Run(d, o, n, seen, s))
    decreases n
  {
    hide OwnerEnd, PrintOptions;
    if n > 0 && HeaderFits(d, o) {
      var next := NextRecord(d, o);
      if !IsOpt(d, o) {
        RunStoresFittingOptions(d, next, n - 1, seen, s);
      } else if seen > 0 {
        RunStoresFittingOptions(d, next, n - 1, seen + 1, s.(status := DuplicateOpt));
      } else if d[o] != 0 {
        RunStoresFittingOptions(d, next, n - 1, seen + 1, s.(status := Malformed));
      } else if OptionsOf(d, o).Some? {
        var options := OptionsOf(d, o).value;
        OptionsExact(d, OwnerEnd(d, o) + 10, next, options);
        var e := DecodeOpt(d, OwnerEnd(d, o), options);
        var status := if e.version > 0 then BadVersion else if s.status == NoOpt then Ok else s.status;
        RunStoresFittingOptions(d, next, n - 1, seen + 1, EdnsState(Some(e), status));
      }
    }
  }

  /** Where the parser would accept a record, the walk's inline name skipper stops where the parser does. */
  lemma OwnerEndAgrees(d: bytes, o: nat)
    requires ParseAnswer(d, o).Some?
    ensures HeaderFits(d, o) && NextRecord(d, o) == ParseAnswer(d, o).value.next
  {
    hide ParseName, StoredRdata;
    SkippersAgreeWithParser(d, o, MAX_POINTER_HOPS);
  }
}
