// Domain names on the wire (section 4.1.4 of RFC 1035): the pointer-following
// parser, the printer, and the two cheap skippers.
module Names {
  import opened Wire

  const MAX_POINTER_HOPS := 16
  const MAX_LABEL := 63

  type Labels = seq<bytes>

  predicate ValidLabels(ls: Labels) {
    forall k :: 0 <= k < |ls| ==> 1 <= |ls[k]| <= MAX_LABEL
  }

  /** A label with its length byte. */
  function Prefixed(l: bytes): (r: bytes)
    requires |l| <= MAX_LABEL
    ensures |r| == 1 + |l|
  {
    [|l| as byte] + l
  }

  predicate IsPointer(b: byte) {
    b >= 0xC0
  }

  /** The source masks the byte; on its value that is a comparison and a subtraction. */
  lemma PointerMask(b: bv8)
    ensures IsPointer(b as byte) <==> b & 0xC0 == 0xC0
    ensures IsPointer(b as byte) ==> b & 0x3F == b - 0xC0
  {
    assert b & 0xC0 == 0xC0 <==> b >= 0xC0;
  }

  function Target(d: bytes, o: nat): nat
    requires o + 2 <= |d| && IsPointer(d[o])
  {
    (d[o] as int - 0xC0) * 0x100 + d[o + 1] as int
  }

  /** The offset is the low 14 bits of the pointer read as one big-endian word. */
  lemma TargetIsLowBits(d: bytes, o: nat)
    requires o + 2 <= |d| && IsPointer(d[o])
    ensures Target(d, o) == Get16(d, o) - 0xC000 < 0x4000
  {
  }

  /** The source's masks, shift and disjunction, on 16 bits. */
  lemma TargetBits(high: bv16, low: bv16)
    requires high < 0x100 && low < 0x100 && high & 0xC0 == 0xC0
    ensures (((high & 0x3F) << 8) | low) == ((high << 8) | low) - 0xC000
    ensures ((high << 8) | low) == high * 0x100 + low
  {
  }

  /** Just past the label at `o`. */
  function LabelEnd(d: bytes, o: nat): nat
    requires o < |d|
  {
    o + 1 + d[o] as int
  }

  lemma LabelAt(d: bytes, o: nat, l: bytes)
    requires |l| <= MAX_LABEL && At(d, o, Prefixed(l))
    ensures o + 1 + |l| <= |d| && d[o] as int == |l| && d[o + 1..o + 1 + |l|] == l
  {
    AtByte(d, o, Prefixed(l), 0);
    forall i | 0 <= i < |l| ensures d[o + 1 + i] == l[i] {
      AtByte(d, o, Prefixed(l), 1 + i);
    }
    assert d[o + 1..o + 1 + |l|] == l;
  }

  // ---------------------------------------------------------------------
  // What a name is: a walk through the message.

  /** One way of reading a name: labels and jumps, up to the zero byte. */
  datatype Walk =
    | Stop
    | Label(text: bytes, rest: Walk)
    | Jump(target: nat, rest: Walk)
  {
    function Labels(): Labels {
      match this
      case Stop => []
      case Label(text, rest) => [text] + rest.Labels()
      case Jump(_, rest) => rest.Labels()
    }

    function Hops(): nat {
      match this
      case Stop => 0
      case Label(_, rest) => rest.Hops()
      case Jump(_, rest) => 1 + rest.Hops()
    }

    /** Where the name ends in the message: past its zero byte or its first pointer. */
    function End(o: nat): nat {
      match this
      case Stop => o + 1
      case Label(text, rest) => rest.End(o + 1 + |text|)
      case Jump(_, _) => o + 2
    }
  }

  /** `w` is what the bytes of `d` spell out from offset `o`. */
  ghost predicate Follows(d: bytes, o: nat, w: Walk)
    decreases w
  {
    match w
    case Stop => o < |d| && d[o] == 0
    case Label(text, rest) =>
      1 <= |text| <= MAX_LABEL && At(d, o, Prefixed(text)) && Follows(d, o + 1 + |text|, rest)
    case Jump(target, rest) =>
      o + 2 <= |d| && target < 0x4000 && Get16(d, o) == 0xC000 + target && Follows(d, target, rest)
  }

  /** The bytes determine the walk. */
  lemma {:induction false} WalkIsUnique(d: bytes, o: nat, v: Walk, w: Walk)
    requires Follows(d, o, v) && Follows(d, o, w)
    ensures v == w
    decreases v
  {
    if w.Label? { LabelAt(d, o, w.text); }
    match v
    case Stop =>
    case Jump(target, rest) =>
      if w.Jump? { WalkIsUnique(d, target, rest, w.rest); }
    case Label(text, rest) =>
      LabelAt(d, o, text);
      if w.Label? { WalkIsUnique(d, o + 1 + |text|, rest, w.rest); }
  }

  // ---------------------------------------------------------------------
  // The parser.

  datatype Named = Named(labels: Labels, next: nat)

  /** The name at `o`, following at most `hops` more pointers. */
  function ParseName(d: bytes, o: nat, hops: nat): (r: Option<Named>)
    ensures r.Some? ==> o < r.value.next <= |d|
    decreases hops, |d| - o
  {
    if o >= |d| then None
    else if d[o] == 0 then Some(Named([], o + 1))
    else if IsPointer(d[o]) then
      if o + 1 >= |d| || hops == 0 then None
      else
        match ParseName(d, Target(d, o), hops - 1)
        case None => None
        case Some(n) => Some(Named(n.labels, o + 2))
    else if LabelEnd(d, o) > |d| || d[o] as int > MAX_LABEL then None
    else
      match ParseName(d, LabelEnd(d, o), hops)
      case None => None
      case Some(n) => Some(Named([d[o + 1..LabelEnd(d, o)]] + n.labels, n.next))
  }

  /** A pointer stands for the name at its target. */
  lemma PointerParses(d: bytes, o: nat, target: nat)
    requires o + 2 <= |d| && IsPointer(d[o]) && target == Target(d, o)
    ensures ParseName(d, o, MAX_POINTER_HOPS) ==
            (match ParseName(d, target, MAX_POINTER_HOPS - 1) case None => None case Some(n) => Some(Named(n.labels, o + 2)))
  {
  }

  lemma {:induction false} ParsedLabelsAreValid(d: bytes, o: nat, hops: nat)
    requires ParseName(d, o, hops).Some?
    ensures ValidLabels(ParseName(d, o, hops).value.labels)
    decreases hops, |d| - o
  {
    if d[o] == 0 {
    } else if IsPointer(d[o]) {
      ParsedLabelsAreValid(d, Target(d, o), hops - 1);
    } else {
      ParsedLabelsAreValid(d, LabelEnd(d, o), hops);
    }
  }

  /** Soundness: a parsed name is the name some walk spells out. */
  lemma {:induction false} ParsedNameHasWalk(d: bytes, o: nat, hops: nat) returns (w: Walk)
    requires ParseName(d, o, hops).Some?
    ensures Follows(d, o, w) && w.Hops() <= hops
    ensures ParseName(d, o, hops).value == Named(w.Labels(), w.End(o))
    decreases hops, |d| - o
  {
    if d[o] == 0 {
      w := Stop;
    } else if IsPointer(d[o]) {
      var rest := ParsedNameHasWalk(d, Target(d, o), hops - 1);
      w := Jump(Target(d, o), rest);
    } else {
      var rest := ParsedNameHasWalk(d, LabelEnd(d, o), hops);
      var text := d[o + 1..LabelEnd(d, o)];
      w := Label(text, rest);
    }
  }

  /** Completeness: every walk with few enough jumps is found. */
  lemma {:induction false} WalkIsParsed(d: bytes, o: nat, hops: nat, w: Walk)
    requires Follows(d, o, w) && w.Hops() <= hops
    ensures ParseName(d, o, hops) == Some(Named(w.Labels(), w.End(o)))
    decreases w
  {
    match w
    case Stop =>
    case Jump(target, rest) => WalkIsParsed(d, target, hops - 1, rest);
    case Label(text, rest) =>
      LabelAt(d, o, text);
      WalkIsParsed(d, o + 1 + |text|, hops, rest);
  }

  /** The parser accepts exactly the names that some walk with at most `hops` jumps spells out. */
  lemma ParseNameExact(d: bytes, o: nat, hops: nat)
    ensures ParseName(d, o, hops).Some? <==> exists w :: Follows(d, o, w) && w.Hops() <= hops
    ensures forall w :: Follows(d, o, w) && w.Hops() <= hops ==>
              ParseName(d, o, hops) == Some(Named(w.Labels(), w.End(o)))
  {
    if ParseName(d, o, hops).Some? {
      var w := ParsedNameHasWalk(d, o, hops);
    }
    forall w | Follows(d, o, w) && w.Hops() <= hops
      ensures ParseName(d, o, hops) == Some(Named(w.Labels(), w.End(o)))
    {
      WalkIsParsed(d, o, hops, w);
    }
  }

  lemma ParseNameUnique(d: bytes, o: nat, hops: nat)
    ensures ParseName(d, o, hops).Some? <==> exists w :: Follows(d, o, w) && w.Hops() <= hops
    ensures ParseName(d, o, hops).Some? ==>
              forall w :: Follows(d, o, w) ==> ParseName(d, o, hops).value == Named(w.Labels(), w.End(o))
  {
    ParseNameExact(d, o, hops);
    if ParseName(d, o, hops).Some? {
      var v := ParsedNameHasWalk(d, o, hops);
      forall w | Follows(d, o, w) ensures w == v {
        WalkIsUnique(d, o, v, w);
      }
    }
  }

  /** The loop state: `done` labels are read, the walk stands at `at` and may follow `left` more pointers. */
  ghost predicate NameLeft(d: bytes, offset: nat, at: nat, left: nat, done: Labels, followed: bool, next: nat) {
    match ParseName(d, at, left)
    case None => ParseName(d, offset, MAX_POINTER_HOPS) == None
    case Some(rest) =>
      ParseName(d, offset, MAX_POINTER_HOPS) == Some(Named(done + rest.labels, if followed then next else rest.next))
  }

  lemma NameLeftStarts(d: bytes, offset: nat)
    ensures NameLeft(d, offset, offset, MAX_POINTER_HOPS, [], false, offset)
  {
    hide ParseName;
    var whole := ParseName(d, offset, MAX_POINTER_HOPS);
    assert whole.Some? ==> [] + whole.value.labels == whole.value.labels;
  }

  lemma NameLeftEnds(d: bytes, offset: nat)
    ensures forall at: nat, left: nat, done, followed, next: nat ::
              NameLeft(d, offset, at, left, done, followed, next) && at >= |d| ==> ParseName(d, offset, MAX_POINTER_HOPS) == None
  {
    forall at: nat, left: nat, done, followed, next: nat | NameLeft(d, offset, at, left, done, followed, next) && at >= |d|
      ensures ParseName(d, offset, MAX_POINTER_HOPS) == None
    {
      assert ParseName(d, at, left) == None;
    }
  }

  /** One turn of the loop. */
  lemma NameLeftStep(d: bytes, offset: nat, at: nat, left: nat, done: Labels, followed: bool, next: nat)
    requires NameLeft(d, offset, at, left, done, followed, next) && at < |d|
    ensures var whole := ParseName(d, offset, MAX_POINTER_HOPS);
            if d[at] == 0 then whole == Some(Named(done, if followed then next else at + 1))
            else if IsPointer(d[at]) then
              if at + 1 >= |d| || left == 0 then whole == None
              else NameLeft(d, offset, Target(d, at), left - 1, done, true, if followed then next else at + 2)
            else if d[at] as int > MAX_LABEL || LabelEnd(d, at) > |d| then whole == None
            else NameLeft(d, offset, LabelEnd(d, at), left, done + [d[at + 1..LabelEnd(d, at)]], followed, next)
  {
    hide ParseName;
    NameUnfolds(d, at, left);
    if d[at] == 0 {
      assert done + [] == done;
    } else if !IsPointer(d[at]) && d[at] as int <= MAX_LABEL && LabelEnd(d, at) <= |d| {
      var rest := ParseName(d, LabelEnd(d, at), left);
      var text := d[at + 1..LabelEnd(d, at)];
      assert rest.Some? ==> done + ([text] + rest.value.labels) == (done + [text]) + rest.value.labels;
    }
  }

  lemma NameUnfolds(d: bytes, at: nat, left: nat)
    requires at < |d|
    ensures ParseName(d, at, left) ==
            if d[at] == 0 then Some(Named([], at + 1))
            else if IsPointer(d[at]) then
              if at + 1 >= |d| || left == 0 then None
              else
                match ParseName(d, Target(d, at), left - 1)
                case None => None
                case Some(n) => Some(Named(n.labels, at + 2))
            else if d[at] as int > MAX_LABEL || LabelEnd(d, at) > |d| then None
            else
              match ParseName(d, LabelEnd(d, at), left)
              case None => None
              case Some(n) => Some(Named([d[at + 1..LabelEnd(d, at)]] + n.labels, n.next))
  {
  }

  /**
   * The loop of the source. `next` and `labels` are what p_Offset and p_Labels hold
   * on return; after a failure they are left half way.
   */
  method ParseDomainName(d: bytes, offset: nat) returns (ok: bool, next: nat, labels: Labels)
    ensures ok <==> exists w :: Follows(d, offset, w) && w.Hops() <= MAX_POINTER_HOPS
    ensures ok ==> forall w :: Follows(d, offset, w) ==> labels == w.Labels() && next == w.End(offset)
    ensures ok == ParseName(d, offset, MAX_POINTER_HOPS).Some?
    ensures ok ==> ParseName(d, offset, MAX_POINTER_HOPS) == Some(Named(labels, next))
  {
    hide ParseName, Follows, NameLeft;
    ok, next, labels := false, offset, [];
    var hops, read, followed := 0, offset, false;
    NameLeftStarts(d, offset);
    NameLeftEnds(d, offset);
    while read < |d|
      invariant !ok && 0 <= hops <= MAX_POINTER_HOPS && 0 <= read
      invariant NameLeft(d, offset, read, MAX_POINTER_HOPS - hops, labels, followed, next)
      decreases MAX_POINTER_HOPS - hops, |d| - read
    {
      NameLeftStep(d, offset, read, MAX_POINTER_HOPS - hops, labels, followed, next);
      var length := d[read] as int;
      if length == 0 {
        if !followed {
          next := read + 1;
        }
        ok := true;
        break;
      }
      if IsPointer(d[read]) {
        if read + 1 >= |d| {
          break;
        }
        hops := hops + 1;
        if hops > MAX_POINTER_HOPS {
          break;
        }
        if !followed {
          next, followed := read + 2, true;
        }
        read := Target(d, read);
        continue;
      }
      if length > MAX_LABEL {
        break;
      }
      read := read + 1;
      if read + length > |d| {
        break;
      }
      var text := d[read..read + length];
      labels := labels + [text];
      read := read + length;
    }
    ParseNameUnique(d, offset, MAX_POINTER_HOPS);
  }

  // ---------------------------------------------------------------------
  // What the parser looks at.

  /** ParseName inspects offset `i`, whether it succeeds or fails. */
  predicate NameReads(d: bytes, o: nat, hops: nat, i: nat)
    decreases hops, |d| - o
  {
    if o >= |d| then false
    else if i == o then true
    else if d[o] == 0 then false
    else if IsPointer(d[o]) then
      o + 1 < |d| && (i == o + 1 || (hops > 0 && NameReads(d, Target(d, o), hops - 1, i)))
    else
      d[o] as int <= MAX_LABEL && LabelEnd(d, o) <= |d| && (o < i < LabelEnd(d, o) || NameReads(d, LabelEnd(d, o), hops, i))
  }

  /** `e` has the bytes of `d` wherever ParseName looks. */
  ghost predicate NameAgrees(d: bytes, e: bytes, o: nat, hops: nat) {
    forall i: nat :: NameReads(d, o, hops, i) ==> i < |d| && i < |e| && d[i] == e[i]
  }

  /**
   * A name reads the same in any buffer that agrees on the bytes inspected. A buffer
   * that has grown may turn a failure into a success, so a failure needs equal lengths.
   */
  lemma {:induction false} NameFrame(d: bytes, e: bytes, o: nat, hops: nat)
    requires |d| <= |e| && NameAgrees(d, e, o, hops)
    requires |d| == |e| || ParseName(d, o, hops).Some?
    ensures ParseName(e, o, hops) == ParseName(d, o, hops)
    decreases hops, |d| - o
  {
    if o < |d| {
      assert NameReads(d, o, hops, o);
      if d[o] == 0 {
      } else if IsPointer(d[o]) {
        if o + 1 < |d| {
          assert NameReads(d, o, hops, o + 1);
          if hops > 0 {
            NameAgreesOnward(d, e, o, hops, Target(d, o), hops - 1);
            NameFrame(d, e, Target(d, o), hops - 1);
          }
        }
      } else if d[o] as int <= MAX_LABEL && LabelEnd(d, o) <= |d| {
        assert forall i :: o < i < LabelEnd(d, o) ==> NameReads(d, o, hops, i);
        assert d[o + 1..LabelEnd(d, o)] == e[o + 1..LabelEnd(d, o)];
        NameAgreesOnward(d, e, o, hops, LabelEnd(d, o), hops);
        NameFrame(d, e, LabelEnd(d, o), hops);
      }
    }
  }

  lemma NameAgreesOnward(d: bytes, e: bytes, o: nat, hops: nat, p: nat, left: nat)
    requires NameAgrees(d, e, o, hops)
    requires forall i: nat :: NameReads(d, p, left, i) ==> NameReads(d, o, hops, i)
    ensures NameAgrees(d, e, p, left)
  {
  }

  // ---------------------------------------------------------------------
  // The printer.

  /** The loop shared by DnsQuestion::ToWire and DnsAnswer::ToWire; it skips labels over 63 bytes. */
  function PrintName(ls: Labels): (r: bytes)
    ensures |r| == NameSize(ls)
  {
    if ls == [] then [0]
    else if |ls[0]| > MAX_LABEL then PrintName(ls[1..])
    else Prefixed(ls[0]) + PrintName(ls[1..])
  }

  /** The fold that WireSize does over the labels. */
  function NameSize(ls: Labels): (r: nat)
    ensures r >= 1
  {
    if ls == [] then 1
    else if |ls[0]| > MAX_LABEL then NameSize(ls[1..])
    else 1 + |ls[0]| + NameSize(ls[1..])
  }

  lemma PrintNameCons(l: bytes, rest: Labels)
    requires |l| <= MAX_LABEL
    ensures PrintName([l] + rest) == Prefixed(l) + PrintName(rest)
    ensures NameSize([l] + rest) == 1 + |l| + NameSize(rest)
  {
    assert ([l] + rest)[1..] == rest;
  }

  /** A printer's loop, one label at a time, with `done` already out. */
  lemma PrintNameStep(done: bytes, ls: Labels, i: nat)
    requires i < |ls|
    ensures done + PrintName(ls[i..]) ==
            if |ls[i]| > MAX_LABEL then done + PrintName(ls[i + 1..])
            else (done + Prefixed(ls[i])) + PrintName(ls[i + 1..])
    ensures |ls[i]| <= MAX_LABEL ==>
              |PrintName(ls[i..])| > 1 + |ls[i]| && NameSize(ls[i..]) == 1 + |ls[i]| + NameSize(ls[i + 1..])
  {
    assert ls[i..][1..] == ls[i + 1..];
    if |ls[i]| <= MAX_LABEL {
      assert done + (Prefixed(ls[i]) + PrintName(ls[i + 1..])) == (done + Prefixed(ls[i])) + PrintName(ls[i + 1..]);
    }
  }

  /** Before its first label and after its last. */
  lemma PrintNameEnds(ls: Labels)
    ensures [] + PrintName(ls[0..]) == PrintName(ls) && NameSize(ls[0..]) == NameSize(ls)
    ensures PrintName(ls[|ls|..]) == [0] && NameSize(ls[|ls|..]) == 1
  {
    assert ls[0..] == ls && ls[|ls|..] == [];
  }

  lemma RootParses(d: bytes, o: nat, hops: nat)
    requires At(d, o, PrintName([]))
    ensures ParseName(d, o, hops) == Some(Named([], o + 1))
    ensures forall i: nat :: NameReads(d, o, hops, i) ==> i == o
  {
    AtByte(d, o, PrintName([]), 0);
  }

  lemma LabelParses(d: bytes, o: nat, hops: nat, l: bytes)
    requires 1 <= |l| <= MAX_LABEL && At(d, o, Prefixed(l))
    ensures ParseName(d, o, hops) ==
            match ParseName(d, o + 1 + |l|, hops)
            case None => None
            case Some(n) => Some(Named([l] + n.labels, n.next))
    ensures forall i: nat :: NameReads(d, o, hops, i) ==> o <= i < o + 1 + |l| || NameReads(d, o + 1 + |l|, hops, i)
  {
    LabelAt(d, o, l);
  }

  /** A printed name parses back, wherever it lies, and reading it never leaves it. */
  lemma {:induction false} PrintedNameParses(d: bytes, o: nat, hops: nat, ls: Labels)
    requires ValidLabels(ls) && At(d, o, PrintName(ls))
    ensures ParseName(d, o, hops) == Some(Named(ls, o + NameSize(ls)))
    ensures forall i: nat :: NameReads(d, o, hops, i) ==> o <= i < o + NameSize(ls)
    decreases |ls|
  {
    hide At, ParseName, PrintName, NameReads, Prefixed;
    if ls == [] {
      RootParses(d, o, hops);
    } else {
      var l, rest := ls[0], ls[1..];
      assert ls == [l] + rest;
      PrintNameCons(l, rest);
      AtSplit(d, o, Prefixed(l), PrintName(rest));
      LabelParses(d, o, hops, l);
      PrintedNameParses(d, o + 1 + |l|, hops, rest);
    }
  }

  /** A name printed within the first 0x4000 bytes is what a pointer to it stands for, anywhere in the message. */
  lemma PointerToPrintedName(d: bytes, o: nat, target: nat, ls: Labels)
    requires target < 0x4000 && ValidLabels(ls) && At(d, target, PrintName(ls))
    requires At(d, o, Put16(0xC000 + target))
    ensures ParseName(d, o, MAX_POINTER_HOPS) == Some(Named(ls, o + 2))
  {
    hide PrintName, ParseName;
    AtPut16(d, o, 0xC000 + target);
    TargetIsLowBits(d, o);
    PrintedNameParses(d, target, MAX_POINTER_HOPS - 1, ls);
    PointerParses(d, o, target);
  }

  // ---------------------------------------------------------------------
  // The two skippers.

  /** What DnsCache::SkipDnsName returns, 0 standing for failure; it checks neither label bounds nor pointers. */
  function Skip(d: bytes, o: nat): (r: nat)
    ensures r == 0 || o < r <= |d| + 1
    decreases |d| - o
  {
    if o >= |d| then 0
    else if IsPointer(d[o]) then o + 2
    else if d[o] == 0 then o + 1
    else Skip(d, LabelEnd(d, o))
  }

  method SkipDnsName(d: bytes, offset: nat) returns (r: nat)
    ensures r == Skip(d, offset)
  {
    var pos := offset;
    while pos < |d|
      invariant Skip(d, offset) == Skip(d, pos)
      decreases |d| - pos
    {
      var b := d[pos];
      if IsPointer(b) {
        return pos + 2;
      }
      if b == 0 {
        return pos + 1;
      }
      pos := LabelEnd(d, pos);
    }
    return 0;
  }

  /** The owner-name walk inside the EDNS loop; it may run past the end of the data. */
  function OwnerEnd(d: bytes, o: nat): (r: nat)
    ensures r >= o
    decreases |d| - o
  {
    if o >= |d| then o
    else if d[o] == 0 then o + 1
    else if IsPointer(d[o]) then o + 2
    else OwnerEnd(d, LabelEnd(d, o))
  }

  /** Both skippers stop exactly where the parser leaves the offset. */
  lemma {:induction false} SkippersAgreeWithParser(d: bytes, o: nat, hops: nat)
    requires ParseName(d, o, hops).Some?
    ensures Skip(d, o) == OwnerEnd(d, o) == ParseName(d, o, hops).value.next
    decreases |d| - o
  {
    if d[o] != 0 && !IsPointer(d[o]) {
      SkippersAgreeWithParser(d, LabelEnd(d, o), hops);
    }
  }
}
