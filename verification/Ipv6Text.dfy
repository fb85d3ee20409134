// IPv6 addresses as text: the nibble labels of reverse lookups, their reversal, the
// compressed text form, and the expansion that reads any of these back.
module Ipv6Text {
  import opened Wire
  import opened Text

  const COLON: byte := 0x3A
  const ZERO: byte := 0x30
  const GROUPS := 8
  const DIGITS := 4

  /** The labels ip6, in-addr and arpa. */
  const IP6: bytes := [0x69, 0x70, 0x36]
  const IN_ADDR: bytes := [0x69, 0x6E, 0x2D, 0x61, 0x64, 0x64, 0x72]
  const ARPA: bytes := [0x61, 0x72, 0x70, 0x61]

  predicate IsHex(b: byte) {
    0x30 <= b <= 0x39 || 0x41 <= b <= 0x46 || 0x61 <= b <= 0x66
  }

  function HexValue(b: byte): (v: nat)
    requires IsHex(b)
    ensures v < 16
  {
    if b <= 0x39 then b as int - 0x30 else if b <= 0x46 then b as int - 0x37 else b as int - 0x57
  }

  function Reversed<T>(s: seq<T>): seq<T> {
    seq(|s|, i requires 0 <= i < |s| => s[|s| - 1 - i])
  }

  /** One label for each character. */
  function Spread(s: bytes): seq<bytes> {
    seq(|s|, i requires 0 <= i < |s| => [s[i]])
  }

  function Concat(parts: seq<bytes>): bytes {
    if parts == [] then [] else parts[0] + Concat(parts[1..])
  }

  /** The parts concatenated four at a time; the last group may be shorter. */
  function Grouped(parts: seq<bytes>): seq<bytes> {
    if parts == [] then []
    else
      var n := if |parts| < DIGITS then |parts| else DIGITS;
      [Concat(parts[..n])] + Grouped(parts[n..])
  }

  function ReversedText(s: bytes): bytes {
    if s == [] then [] else Join(Grouped(Reversed(Split(s, DOT))), COLON)
  }

  lemma {:induction false} ConcatSnoc(parts: seq<bytes>, part: bytes)
    ensures Concat(parts + [part]) == Concat(parts) + part
  {
    if parts == [] {
      assert Concat([part]) == part + Concat([]);
    } else {
      ConcatSnoc(parts[1..], part);
      assert (parts + [part])[1..] == parts[1..] + [part];
    }
  }

  method ReverseIpv6Components(input: bytes) returns (address: bytes)
    ensures address == ReversedText(input)
  {
    hide Split, Join;
    if input == [] {
      return [];
    }
    var parts := SplitText(input, DOT);
    parts := Reversed(parts);
    var groups := GroupParts(parts);
    address := JoinText(groups, COLON);
  }

  method GroupParts(parts: seq<bytes>) returns (groups: seq<bytes>)
    ensures groups == Grouped(parts)
  {
    hide Grouped, Concat;
    groups := [];
    var index: nat := 0;
    assert parts[0..] == parts && groups + Grouped(parts) == Grouped(parts);
    while index < |parts|
      invariant Grouped(parts) == groups + Grouped(if index <= |parts| then parts[index..] else [])
    {
      ghost var rest := parts[index..];
      var group: bytes := [];
      var inner: nat := 0;
      assert Concat(rest[..0]) == [] by { ConcatNothing(rest[..0]); }
      while inner < DIGITS && index + inner < |parts|
        invariant inner <= DIGITS && inner <= |rest|
        invariant group == Concat(rest[..inner])
      {
        ConcatSnoc(rest[..inner], parts[index + inner]);
        assert rest[..inner] + [parts[index + inner]] == rest[..inner + 1];
        group := group + parts[index + inner];
        inner := inner + 1;
      }
      GroupedStep(groups, rest);
      groups := groups + [group];
      index := index + DIGITS;
      assert index <= |parts| ==> rest[DIGITS..] == parts[index..];
      assert index > |parts| ==> rest[inner..] == [];
    }
    GroupedNothing(groups, if index <= |parts| then parts[index..] else []);
  }

  lemma ConcatNothing(parts: seq<bytes>)
    requires parts == []
    ensures Concat(parts) == []
  {
  }

  lemma GroupedNothing(done: seq<bytes>, parts: seq<bytes>)
    requires parts == []
    ensures done + Grouped(parts) == done
  {
  }

  lemma GroupedStep(done: seq<bytes>, rest: seq<bytes>)
    requires rest != []
    ensures var n := if |rest| < DIGITS then |rest| else DIGITS;
            done + Grouped(rest) == done + [Concat(rest[..n])] + Grouped(rest[n..])
  {
    hide Concat;
  }

  /** The `k`-th four parts in a row; the last ones may be fewer. */
  function Four(parts: seq<bytes>, k: nat): seq<bytes>
    requires 4 * k < |parts|
  {
    parts[4 * k..if 4 * k + 4 < |parts| then 4 * k + 4 else |parts|]
  }

  lemma FourLater(parts: seq<bytes>, k: nat)
    requires k > 0 && 4 * k < |parts|
    ensures Four(parts, k) == Four(parts[4..], k - 1)
  {
    var end := if 4 * k + 4 < |parts| then 4 * k + 4 else |parts|;
    assert parts[4..][4 * (k - 1)..end - 4] == parts[4 * k..end];
  }

  lemma GroupedUnfolds(parts: seq<bytes>)
    requires parts != []
    ensures Grouped(parts) == [Concat(Four(parts, 0))] + Grouped(if |parts| < 4 then [] else parts[4..])
  {
    hide Concat;
    assert |parts| < 4 ==> parts[|parts|..] == [];
  }

  /** Each group holds four parts in a row, the last one as many as are left. */
  lemma {:induction false} GroupedExactly(parts: seq<bytes>, k: nat)
    ensures |Grouped(parts)| == (|parts| + 3) / 4
    ensures 4 * k < |parts| ==> k < |Grouped(parts)| && Grouped(parts)[k] == Concat(Four(parts, k))
    decreases |parts|
  {
    assert Grouped([]) == [];
    hide Concat, Grouped, Four;
    if parts != [] {
      var rest := if |parts| < 4 then [] else parts[4..];
      GroupedUnfolds(parts);
      GroupedExactly(rest, if k > 0 then k - 1 else 0);
      if k > 0 && 4 * k < |parts| {
        FourLater(parts, k);
      }
    }
  }

  // ---------------------------------------------------------------------
  // Compression.

  /** A group without its leading zeros; 0 if nothing else is left. */
  function StripZeros(g: bytes): (r: bytes)
    ensures |r| > 0 && (r[0] == ZERO ==> r == [ZERO])
    ensures forall b :: b in r ==> b in g || b == ZERO
  {
    if g == [] then [ZERO] else if g[0] == ZERO then StripZeros(g[1..]) else g
  }

  function Stripped(gs: seq<bytes>): (r: seq<bytes>)
    ensures |r| == |gs| && forall k :: 0 <= k < |r| ==> |r[k]| > 0
  {
    seq(|gs|, i requires 0 <= i < |gs| => StripZeros(gs[i]))
  }

  predicate ZeroRun(gs: seq<bytes>, start: nat, length: nat) {
    start + length <= |gs| && forall k :: start <= k < start + length ==> gs[k] == [ZERO]
  }

  /** The first of the longest runs of 0 groups among the first `upto` groups. */
  ghost predicate FirstLongest(gs: seq<bytes>, upto: nat, start: nat, length: nat) {
    && ZeroRun(gs, start, length) && start + length <= upto
    && forall s: nat, n: nat :: ZeroRun(gs, s, n) && s + n <= upto ==> n <= length && (n == length > 0 ==> start <= s)
  }

  function Compressed(gs: seq<bytes>, start: nat, length: nat): bytes
    requires start + length <= |gs|
  {
    if length < 2 then Join(gs, COLON)
    else Join(gs[..start], COLON) + [COLON, COLON] + Join(gs[start + length..], COLON)
  }

  /** Leading zeros are dropped, and the first longest zero run of two or more groups becomes a double colon. */
  ghost predicate IsSimplified(input: bytes, r: bytes) {
    var gs := Stripped(Split(input, COLON));
    exists start: nat, length: nat :: FirstLongest(gs, |gs|, start, length) && r == Compressed(gs, start, length)
  }

  lemma SimplifiedIsUnique(input: bytes, x: bytes, y: bytes)
    requires IsSimplified(input, x) && IsSimplified(input, y)
    ensures x == y
  {
    hide Split, Stripped, Join;
    var gs := Stripped(Split(input, COLON));
    var s: nat, n: nat :| FirstLongest(gs, |gs|, s, n) && x == Compressed(gs, s, n);
    var t: nat, m: nat :| FirstLongest(gs, |gs|, t, m) && y == Compressed(gs, t, m);
    assert n <= m && m <= n;
    assert n > 0 ==> s <= t && t <= s;
  }

  /** A zero run that has ended competes with the best one before it. */
  lemma RunEnds(gs: seq<bytes>, from: nat, upto: nat, start: nat, length: nat)
    requires from <= upto && FirstLongest(gs, from, start, length) && ZeroRun(gs, from, upto - from)
    requires from == 0 || gs[from - 1] != [ZERO]
    ensures if upto - from > length then FirstLongest(gs, upto, from, upto - from) else FirstLongest(gs, upto, start, length)
  {
    forall s: nat, n: nat | ZeroRun(gs, s, n) && s + n <= upto
      ensures s + n <= from || from <= s || n == 0
    {
    }
  }

  lemma NonZeroStep(gs: seq<bytes>, i: nat, start: nat, length: nat)
    requires i < |gs| && gs[i] != [ZERO] && FirstLongest(gs, i, start, length)
    ensures FirstLongest(gs, i + 1, start, length)
  {
    forall s: nat, n: nat | ZeroRun(gs, s, n) && s + n <= i + 1
      ensures s + n <= i || n == 0
    {
    }
  }

  method FindLongestZeroRun(gs: seq<bytes>) returns (start: nat, length: nat)
    ensures FirstLongest(gs, |gs|, start, length)
  {
    hide FirstLongest;
    start, length := 0, 0;
    var currentStart: nat, currentLength: nat := 0, 0;
    assert FirstLongest(gs, 0, 0, 0) by { NoRun(gs); }
    for i := 0 to |gs|
      invariant currentLength <= i && (currentLength > 0 ==> currentStart == i - currentLength)
      invariant ZeroRun(gs, i - currentLength, currentLength)
      invariant i - currentLength == 0 || gs[i - currentLength - 1] != [ZERO]
      invariant FirstLongest(gs, i - currentLength, start, length)
    {
      if gs[i] == [ZERO] {
        if currentLength == 0 {
          currentStart := i;
        }
        currentLength := currentLength + 1;
      } else {
        RunEnds(gs, i - currentLength, i, start, length);
        if currentLength > length {
          start := currentStart;
          length := currentLength;
        }
        currentLength := 0;
        NonZeroStep(gs, i, start, length);
      }
    }
    RunEnds(gs, |gs| - currentLength, |gs|, start, length);
    if currentLength > length {
      start := currentStart;
      length := currentLength;
    }
  }

  lemma NoRun(gs: seq<bytes>)
    ensures FirstLongest(gs, 0, 0, 0)
  {
  }

  predicate Plain(gs: seq<bytes>) {
    forall k :: 0 <= k < |gs| ==> |gs[k]| > 0 && COLON !in gs[k]
  }

  lemma {:induction false} JoinEnds(gs: seq<bytes>)
    requires gs != [] && Plain(gs)
    ensures var s := Join(gs, COLON); |s| > 0 && s[0] != COLON && s[|s| - 1] != COLON
  {
    assert gs[0][0] in gs[0] && gs[0][|gs[0]| - 1] in gs[0];
    if |gs| > 1 {
      JoinEnds(gs[1..]);
    }
  }

  predicate EndsInDoubleColon(s: bytes) {
    |s| >= 2 && s[|s| - 1] == COLON && s[|s| - 2] == COLON
  }

  /** The text for the first `i` groups. */
  function Shown(gs: seq<bytes>, start: nat, length: nat, i: nat): bytes
    requires start + length <= |gs| && i <= |gs|
  {
    if i < start + length then Join(gs[..if i < start then i else start], COLON)
    else Join(gs[..start], COLON) + [COLON, COLON] + Join(gs[start + length..i], COLON)
  }

  /** The separator test of the loop: nothing shown yet, or a double colon last. */
  lemma ShownStep(gs: seq<bytes>, start: nat, length: nat, i: nat)
    requires Plain(gs) && start + length <= |gs| && i < |gs| && (i < start || start + length <= i)
    requires length >= 2
    ensures var s := Shown(gs, start, length, i);
            Shown(gs, start, length, i + 1) == (if s != [] && !EndsInDoubleColon(s) then s + [COLON] else s) + gs[i]
  {
    hide Join;
    var s := Shown(gs, start, length, i);
    if i < start {
      assert gs[..i] + [gs[i]] == gs[..i + 1];
      JoinSnoc(gs[..i], gs[i], COLON);
      if i > 0 {
        JoinEnds(gs[..i]);
      } else {
        assert Join(gs[..0], COLON) == [] by { JoinNothing(gs[..0]); }
      }
    } else {
      var before, tail := Join(gs[..start], COLON) + [COLON, COLON], gs[start + length..i];
      assert tail + [gs[i]] == gs[start + length..i + 1];
      JoinSnoc(tail, gs[i], COLON);
      if tail == [] {
        JoinNothing(tail);
        assert s == before;
      } else {
        JoinEnds(tail);
        var t := Join(tail, COLON);
        assert s[|s| - 1] == t[|t| - 1];
        assert before + (t + [COLON] + gs[i]) == (before + t) + [COLON] + gs[i];
      }
    }
  }

  lemma ShownEnds(gs: seq<bytes>, start: nat, length: nat)
    requires length >= 2 && start + length <= |gs|
    ensures Shown(gs, start, length, 0) == []
    ensures Shown(gs, start, length, start + length) == Shown(gs, start, length, start) + [COLON, COLON]
    ensures Shown(gs, start, length, |gs|) == Compressed(gs, start, length)
  {
    hide Join;
    JoinNothing(gs[..0]);
    JoinNothing(gs[start + length..start + length]);
    var before := Join(gs[..start], COLON) + [COLON, COLON];
    assert before + [] == before;
    assert gs[start + length..|gs|] == gs[start + length..];
  }

  lemma JoinNothing(gs: seq<bytes>)
    requires gs == []
    ensures Join(gs, COLON) == []
  {
  }

  lemma StrippedIsPlain(input: bytes)
    ensures Plain(Stripped(Split(input, COLON)))
  {
    JoinSplit(input, COLON);
  }

  method SimplifyIpv6(input: bytes) returns (result: bytes)
    ensures IsSimplified(input, result)
  {
    hide Split, StripZeros, Join, FirstLongest, Shown;
    var parts := SplitText(input, COLON);
    var groups: seq<bytes> := [];
    for i := 0 to |parts|
      invariant |groups| == i && forall k :: 0 <= k < i ==> groups[k] == StripZeros(parts[k])
    {
      groups := groups + [StripZeros(parts[i])];
    }
    assert groups == Stripped(parts);
    StrippedIsPlain(input);
    var start, length := FindLongestZeroRun(groups);
    RunFits(groups, start, length);
    if length < 2 {
      result := JoinText(groups, COLON);
      return;
    }
    result := ShowGroups(groups, start, length);
  }

  lemma RunFits(gs: seq<bytes>, start: nat, length: nat)
    requires FirstLongest(gs, |gs|, start, length)
    ensures start + length <= |gs|
  {
  }

  method ShowGroups(groups: seq<bytes>, start: nat, length: nat) returns (result: bytes)
    requires Plain(groups) && length >= 2 && start + length <= |groups|
    ensures result == Compressed(groups, start, length)
  {
    hide Join, Plain, Shown;
    result := [];
    var index: nat := 0;
    ShownEnds(groups, start, length);
    while index < |groups|
      invariant index <= start || start + length <= index <= |groups|
      invariant result == Shown(groups, start, length, index)
      decreases |groups| - index
    {
      if index == start {
        result := result + [COLON, COLON];
        index := index + length - 1;
      } else {
        ShownStep(groups, start, length, index);
        if result != [] && !EndsInDoubleColon(result) {
          result := result + [COLON];
        }
        result := result + groups[index];
      }
      index := index + 1;
    }
  }

  // ---------------------------------------------------------------------
  // Expansion.

  /** Where the first double colon starts, or the length of `s`. */
  function FirstDouble(s: bytes): (r: nat)
    ensures r <= |s| && (r < |s| ==> r + 2 <= |s| && s[r] == COLON && s[r + 1] == COLON)
  {
    if |s| < 2 then |s|
    else if s[0] == COLON && s[1] == COLON then 0
    else 1 + FirstDouble(s[1..])
  }

  function PartsOf(s: bytes): seq<bytes> {
    if s == [] then [] else Split(s, COLON)
  }

  function ZeroGroups(n: nat): seq<bytes> {
    seq(n, i => [ZERO])
  }

  /** The eight groups of an address, the double colon standing for as many 0 groups as are missing. */
  function Expand(s: bytes): (r: Option<seq<bytes>>)
    ensures r.Some? ==> |r.value| == GROUPS
  {
    var d := FirstDouble(s);
    if d == |s| then
      if |PartsOf(s)| == GROUPS then Some(PartsOf(s)) else None
    else
      var left, right := PartsOf(s[..d]), PartsOf(s[d + 2..]);
      if |left| + |right| > GROUPS then None
      else Some(left + ZeroGroups(GROUPS - |left| - |right|) + right)
  }

  method SplitByColon(s: bytes) returns (parts: seq<bytes>)
    ensures parts == PartsOf(s)
  {
    if s == [] {
      return [];
    }
    parts := SplitText(s, COLON);
  }

  method ExpandAddress(s: bytes) returns (groups: Option<seq<bytes>>)
    ensures groups == Expand(s)
  {
    hide PartsOf;
    var double := FirstDouble(s);
    var left := SplitByColon(s[..double]);
    if double == |s| {
      assert s[..double] == s;
      return if |left| == GROUPS then Some(left) else None;
    }
    var right := SplitByColon(s[double + 2..]);
    if |left| + |right| > GROUPS {
      return None;
    }
    var all := left;
    for i := 0 to GROUPS - |left| - |right|
      invariant all == left + ZeroGroups(i)
    {
      all := all + [[ZERO]];
    }
    return Some(all + right);
  }

  /** A group of at most four characters, lower-cased and padded to four. */
  function Padded(g: bytes): bytes {
    seq(if |g| < DIGITS then DIGITS - |g| else 0, i => ZERO) + Lower(g)
  }

  function PaddedAll(gs: seq<bytes>): seq<bytes> {
    seq(|gs|, i requires 0 <= i < |gs| => Padded(gs[i]))
  }

  /** Every part, except an empty last one. */
  function Octets(s: bytes): seq<bytes> {
    var parts := Split(s, DOT);
    if parts[|parts| - 1] == [] then parts[..|parts| - 1] else parts
  }

  /** The name to look up for an address; empty if an IPv6 address is malformed. */
  function PtrLabels(s: bytes): seq<bytes> {
    if s == [] then []
    else if COLON !in s then Reversed(Octets(s)) + [IN_ADDR, ARPA]
    else
      match Expand(s)
      case None => []
      case Some(gs) =>
        if exists k :: 0 <= k < |gs| && |gs[k]| > DIGITS then []
        else Reversed(Spread(Concat(PaddedAll(gs)))) + [IP6, ARPA]
  }

  method SetPTRFromIp(address: bytes) returns (qname: seq<bytes>)
    ensures qname == PtrLabels(address)
  {
    hide Expand, Padded, Split, Spread, Reversed;
    qname := [];
    if address == [] {
      return;
    }
    if COLON !in address {
      var octets := SplitText(address, DOT);
      if octets[|octets| - 1] == [] {
        octets := octets[..|octets| - 1];
      }
      return Reversed(octets) + [IN_ADDR, ARPA];
    }
    var groups := ExpandAddress(address);
    if groups.None? {
      return;
    }
    var gs := groups.value;
    var expanded: bytes := [];
    for i := 0 to |gs|
      invariant forall k :: 0 <= k < i ==> |gs[k]| <= DIGITS
      invariant expanded == Concat(PaddedAll(gs[..i]))
    {
      if |gs[i]| > DIGITS {
        return;
      }
      var padded := PadGroup(gs[i]);
      ConcatSnoc(PaddedAll(gs[..i]), padded);
      assert PaddedAll(gs[..i]) + [padded] == PaddedAll(gs[..i + 1]);
      expanded := expanded + padded;
    }
    assert gs[..|gs|] == gs;
    qname := NibbleLabels(expanded);
    qname := qname + [IP6] + [ARPA];
    assert qname == Reversed(Spread(expanded)) + [IP6, ARPA];
  }

  method PadGroup(group: bytes) returns (padded: bytes)
    requires |group| <= DIGITS
    ensures padded == Padded(group)
  {
    padded := [];
    for i := |group| to DIGITS
      invariant padded == seq(i - |group|, k => ZERO)
    {
      padded := padded + [ZERO];
    }
    ghost var zeros := padded;
    for i := 0 to |group|
      invariant padded == zeros + Lower(group[..i])
    {
      padded := padded + [LowerByte(group[i])];
    }
    assert group[..|group|] == group;
  }

  method NibbleLabels(expanded: bytes) returns (labels: seq<bytes>)
    ensures labels == Reversed(Spread(expanded))
  {
    labels := [];
    for i := |expanded| downto 0
      invariant |labels| == |expanded| - i
      invariant forall k :: 0 <= k < |labels| ==> labels[k] == [expanded[|expanded| - 1 - k]]
    {
      labels := labels + [[expanded[i]]];
    }
  }

  // ---------------------------------------------------------------------
  // Numbers: std::stoi with base 16.

  function SkipSpace(s: bytes): bytes {
    if s != [] && (s[0] == 0x20 || 0x09 <= s[0] <= 0x0D) then SkipSpace(s[1..]) else s
  }

  /** The value of the longest run of hexadecimal digits at the front. */
  function HexPrefix(s: bytes, acc: nat): nat {
    if s == [] || !IsHex(s[0]) then acc else HexPrefix(s[1..], acc * 16 + HexValue(s[0]))
  }

  function AfterSign(s: bytes): bytes {
    if s != [] && (s[0] == 0x2B || s[0] == 0x2D) then s[1..] else s
  }

  function AfterPrefix(s: bytes): bytes {
    if |s| > 2 && s[0] == ZERO && (s[1] == 0x78 || s[1] == 0x58) && IsHex(s[2]) then s[2..] else s
  }

  /** White space, a sign and 0x may come first; characters behind the digits are ignored. */
  function Stoi16(s: bytes): Option<int> {
    var t := SkipSpace(s);
    var v := AfterPrefix(AfterSign(t));
    if v == [] || !IsHex(v[0]) then None
    else
      var value: int := HexPrefix(v, 0);
      Some(if t != [] && t[0] == 0x2D then -value else value)
  }

  /** The two bytes of one group; an empty group is 0. */
  function GroupBytes(g: bytes): Option<bytes> {
    match Stoi16(if g == [] then [ZERO] else g)
    case None => None
    case Some(v) => if v < 0 || v > 0xFFFF then None else Some(Put16(v))
  }

  function AllGroupBytes(gs: seq<bytes>): Option<bytes> {
    if gs == [] then Some([])
    else
      match GroupBytes(gs[0])
      case None => None
      case Some(two) =>
        match AllGroupBytes(gs[1..])
        case None => None
        case Some(rest) => Some(two + rest)
  }

  /** The RDATA for an address; None where the source throws. */
  function RdataOf(s: bytes): Option<bytes> {
    match Expand(s)
    case None => None
    case Some(gs) => AllGroupBytes(gs)
  }

  method SetRdataIpv6(address: bytes) returns (rdata: Option<bytes>)
    ensures rdata == RdataOf(address)
  {
    hide Expand, GroupBytes;
    var groups := ExpandAddress(address);
    if groups.None? {
      return None;
    }
    var gs := groups.value;
    var done: bytes := [];
    assert gs[0..] == gs;
    assert AllGroupBytes(gs).Some? ==> done + AllGroupBytes(gs).value == AllGroupBytes(gs).value;
    for i := 0 to |gs|
      invariant match AllGroupBytes(gs[i..])
                case None => AllGroupBytes(gs) == None
                case Some(rest) => AllGroupBytes(gs) == Some(done + rest)
    {
      assert gs[i..][1..] == gs[i + 1..];
      var two := GroupBytes(gs[i]);
      if two.None? {
        return None;
      }
      ghost var rest := AllGroupBytes(gs[i + 1..]);
      assert rest.Some? ==> done + (two.value + rest.value) == done + two.value + rest.value;
      done := done + two.value;
    }
    assert done + [] == done;
    return Some(done);
  }

  // ---------------------------------------------------------------------
  // Expansion undoes compression.

  lemma {:induction false} FirstDoublePart(part: bytes, rest: bytes)
    requires COLON !in part
    ensures FirstDouble(part + rest) == |part| + FirstDouble(rest)
  {
    if part == [] {
      assert part + rest == rest;
    } else {
      FirstDoublePart(part[1..], rest);
      assert (part + rest)[1..] == part[1..] + rest;
      assert part[0] in part;
    }
  }

  lemma FirstDoubleColon(rest: bytes)
    requires |rest| > 0 && rest[0] != COLON
    ensures FirstDouble([COLON] + rest) == 1 + FirstDouble(rest)
  {
    assert ([COLON] + rest)[1..] == rest;
  }

  lemma FirstDoubleBehind(part: bytes, rest: bytes)
    requires COLON !in part && |rest| > 0 && rest[0] != COLON
    ensures FirstDouble(part + [COLON] + rest) == |part| + 1 + FirstDouble(rest)
  {
    hide FirstDouble;
    FirstDoublePart(part, [COLON] + rest);
    FirstDoubleColon(rest);
    assert part + ([COLON] + rest) == part + [COLON] + rest;
  }

  /** Joined groups have no double colon, and one put behind them is the first. */
  lemma {:induction false} JoinHasNoDouble(gs: seq<bytes>, tail: bytes)
    requires Plain(gs)
    ensures FirstDouble(Join(gs, COLON)) == |Join(gs, COLON)|
    ensures FirstDouble(Join(gs, COLON) + [COLON, COLON] + tail) == |Join(gs, COLON)|
  {
    hide FirstDouble;
    var double := [COLON, COLON] + tail;
    assert FirstDouble([]) == 0 && FirstDouble(double) == 0 by { Doubles(tail); }
    if gs == [] {
      assert [] + [COLON, COLON] + tail == double;
    } else if |gs| == 1 {
      FirstDoublePart(gs[0], []);
      FirstDoublePart(gs[0], double);
      assert gs[0] + [] == gs[0] && gs[0] + [COLON, COLON] + tail == gs[0] + double;
    } else {
      var rest := Join(gs[1..], COLON);
      JoinHasNoDouble(gs[1..], tail);
      JoinEnds(gs[1..]);
      FirstDoubleBehind(gs[0], rest);
      FirstDoubleBehind(gs[0], rest + [COLON, COLON] + tail);
      assert gs[0] + [COLON] + (rest + [COLON, COLON] + tail) == gs[0] + [COLON] + rest + [COLON, COLON] + tail;
    }
  }

  lemma Doubles(tail: bytes)
    ensures FirstDouble([]) == 0 && FirstDouble([COLON, COLON] + tail) == 0
  {
  }

  lemma PartsOfJoin(gs: seq<bytes>)
    requires Plain(gs)
    ensures PartsOf(Join(gs, COLON)) == gs
  {
    hide Split, Join;
    if gs == [] {
      JoinNothing(gs);
    } else {
      JoinEnds(gs);
      SplitJoin(gs, COLON);
    }
  }

  lemma AroundDouble(left: bytes, right: bytes)
    ensures var s := left + [COLON, COLON] + right; s[..|left|] == left && s[|left| + 2..] == right
  {
  }

  lemma ExpandParts(s: bytes, left: seq<bytes>, right: seq<bytes>)
    requires FirstDouble(s) < |s| && PartsOf(s[..FirstDouble(s)]) == left && PartsOf(s[FirstDouble(s) + 2..]) == right
    ensures Expand(s) == if |left| + |right| > 8 then None else Some(left + ZeroGroups(8 - |left| - |right|) + right)
  {
    hide FirstDouble, PartsOf;
  }

  lemma ExpandWhole(s: bytes, gs: seq<bytes>)
    requires FirstDouble(s) == |s| && PartsOf(s) == gs
    ensures Expand(s) == if |gs| == 8 then Some(gs) else None
  {
    hide FirstDouble, PartsOf;
  }

  /** Plain groups around a double colon expand if and only if there are at most eight of them. */
  lemma ExpandExactly(left: seq<bytes>, right: seq<bytes>)
    requires Plain(left) && Plain(right)
    ensures Expand(Join(left, COLON) + [COLON, COLON] + Join(right, COLON)) ==
            if |left| + |right| > 8 then None else Some(left + ZeroGroups(8 - |left| - |right|) + right)
    ensures Expand(Join(left, COLON)) == if |left| == 8 then Some(left) else None
  {
    hide Join, FirstDouble, PartsOf, Expand, Plain, ZeroGroups;
    var l, r := Join(left, COLON), Join(right, COLON);
    JoinHasNoDouble(left, r);
    PartsOfJoin(left);
    PartsOfJoin(right);
    AroundDouble(l, r);
    ExpandParts(l + [COLON, COLON] + r, left, right);
    ExpandWhole(l, left);
  }

  /** Expanding compressed text gives the groups that were compressed. */
  lemma ExpandCompressed(gs: seq<bytes>, start: nat, length: nat)
    requires |gs| == GROUPS && Plain(gs) && ZeroRun(gs, start, length)
    ensures Expand(Compressed(gs, start, length)) == Some(gs)
  {
    hide Join, Expand;
    if length < 2 {
      ExpandExactly(gs, []);
    } else {
      var left, right := gs[..start], gs[start + length..];
      ExpandExactly(left, right);
      assert left + ZeroGroups(length) + right == gs;
    }
  }

  lemma OctetsExactly(octets: seq<bytes>)
    requires octets != [] && octets[|octets| - 1] != []
    requires forall j :: 0 <= j < |octets| ==> DOT !in octets[j]
    ensures Octets(Join(octets, DOT)) == octets && Octets(Join(octets, DOT) + [DOT]) == octets
  {
    hide Split, Join;
    var text, more := Join(octets, DOT), octets + [[]];
    SplitJoin(octets, DOT);
    forall j | 0 <= j < |more| ensures DOT !in more[j] {
    }
    SplitJoin(more, DOT);
    JoinSnoc(octets, [], DOT);
    assert text + [DOT] + [] == text + [DOT];
    assert more[..|octets|] == octets;
  }

  lemma {:induction false} NoColon(parts: seq<bytes>)
    requires forall j :: 0 <= j < |parts| ==> COLON !in parts[j]
    ensures COLON !in Join(parts, DOT)
  {
    if |parts| > 1 {
      NoColon(parts[1..]);
    }
  }

  lemma LastPartIsInside(parts: seq<bytes>)
    requires parts != [] && parts[|parts| - 1] != []
    ensures Join(parts, DOT) != []
  {
  }

  /** Octets without a dot or colon are reversed, one label each; a trailing dot changes nothing. */
  lemma Ipv4Labels(octets: seq<bytes>, k: nat)
    requires octets != [] && octets[|octets| - 1] != []
    requires forall j :: 0 <= j < |octets| ==> DOT !in octets[j] && COLON !in octets[j]
    ensures var text := Join(octets, DOT);
            && PtrLabels(text) == PtrLabels(text + [DOT])
            && |PtrLabels(text)| == |octets| + 2
            && (k < |octets| ==> PtrLabels(text)[k] == octets[|octets| - 1 - k])
            && PtrLabels(text)[|octets|..] == [IN_ADDR, ARPA]
  {
    hide Split, Join, Octets, Expand;
    OctetsExactly(octets);
    NoColon(octets);
    LastPartIsInside(octets);
    var text := Join(octets, DOT);
    assert COLON !in text + [DOT];
  }

  /** An IPv6 address has no labels exactly when it does not expand, or a group is too long. */
  lemma NoLabelsExactly(s: bytes)
    requires COLON in s
    ensures PtrLabels(s) == [] <==> Expand(s).None? || exists k :: 0 <= k < 8 && |Expand(s).value[k]| > 4
  {
  }

  // ---------------------------------------------------------------------
  // Which groups are numbers.

  /** An address has RDATA exactly when it expands to groups that all read as 16-bit numbers. */
  lemma RdataExactly(s: bytes)
    ensures RdataOf(s).Some? <==> Expand(s).Some? && forall k :: 0 <= k < 8 ==> GroupBytes(Expand(s).value[k]).Some?
  {
    hide Expand, GroupBytes;
    if Expand(s).Some? {
      AllGroupsExactly(Expand(s).value);
    }
  }

  lemma {:induction false} AllGroupsExactly(gs: seq<bytes>)
    ensures AllGroupBytes(gs).Some? <==> forall k :: 0 <= k < |gs| ==> GroupBytes(gs[k]).Some?
  {
    hide GroupBytes;
    if gs != [] {
      AllGroupsExactly(gs[1..]);
      assert gs == [gs[0]] + gs[1..];
    }
  }

  predicate IsSpace(c: byte) {
    c == 0x20 || 0x09 <= c <= 0x0D
  }

  lemma {:induction false} SpacesSkipped(spaces: bytes, rest: bytes)
    requires forall k :: 0 <= k < |spaces| ==> IsSpace(spaces[k])
    requires rest == [] || !IsSpace(rest[0])
    ensures SkipSpace(spaces + rest) == rest
  {
    if spaces == [] {
      assert spaces + rest == rest;
    } else {
      SpacesSkipped(spaces[1..], rest);
      assert (spaces + rest)[1..] == spaces[1..] + rest;
    }
  }

  lemma {:induction false} DigitsRead(digits: bytes, rest: bytes, acc: nat)
    requires IsHexText(digits) && (rest == [] || !IsHex(rest[0]))
    ensures HexPrefix(digits + rest, acc) == HexPrefix(digits, acc)
    decreases |digits|
  {
    if digits == [] {
      assert digits + rest == rest;
    } else {
      DigitsRead(digits[1..], rest, acc * 16 + HexValue(digits[0]));
      assert (digits + rest)[1..] == digits[1..] + rest;
    }
  }

  lemma SignRead(sign: bytes, rest: bytes)
    requires sign == [] || sign == [0x2B] || sign == [0x2D]
    requires rest != [] && IsHex(rest[0])
    ensures AfterSign(sign + rest) == rest
    ensures sign + rest != [] && !IsSpace((sign + rest)[0]) && ((sign + rest)[0] == 0x2D <==> sign == [0x2D])
  {
    if sign == [] {
      assert sign + rest == rest;
    } else {
      assert (sign + rest)[1..] == rest;
    }
  }

  lemma PrefixRead(prefix: bytes, digits: bytes, rest: bytes)
    requires prefix == [] || prefix == [0x30, 0x78] || prefix == [0x30, 0x58]
    requires digits != [] && IsHexText(digits) && (rest == [] || !IsHex(rest[0]))
    requires prefix == [] ==> |digits| > 1 || digits[0] != 0x30 || rest == [] || (rest[0] != 0x78 && rest[0] != 0x58)
    ensures AfterPrefix(prefix + (digits + rest)) == digits + rest
    ensures (prefix + (digits + rest))[0] == (if prefix == [] then digits[0] else 0x30)
  {
    var v := digits + rest;
    if prefix == [] {
      assert prefix + v == v;
      assert |v| > 1 ==> v[1] == if |digits| > 1 then digits[1] else rest[0];
    } else {
      assert (prefix + v)[2..] == v && (prefix + v)[2] == digits[0];
    }
  }

  /** White space, a sign, 0x or 0X, digits, and characters that are ignored: what std::stoi takes for base 16. */
  lemma StoiReads(spaces: bytes, sign: bytes, prefix: bytes, digits: bytes, rest: bytes)
    requires forall k :: 0 <= k < |spaces| ==> IsSpace(spaces[k])
    requires sign == [] || sign == [0x2B] || sign == [0x2D]
    requires prefix == [] || prefix == [0x30, 0x78] || prefix == [0x30, 0x58]
    requires digits != [] && IsHexText(digits) && (rest == [] || !IsHex(rest[0]))
    requires prefix == [] ==> |digits| > 1 || digits[0] != 0x30 || rest == [] || (rest[0] != 0x78 && rest[0] != 0x58)
    ensures Stoi16(spaces + (sign + (prefix + (digits + rest)))) ==
            Some(if sign == [0x2D] then -(HexPrefix(digits, 0) as int) else HexPrefix(digits, 0))
  {
    hide SkipSpace, HexPrefix, AfterSign, AfterPrefix;
    var v := digits + rest;
    SignRead(sign, prefix + v);
    SpacesSkipped(spaces, sign + (prefix + v));
    PrefixRead(prefix, digits, rest);
    DigitsRead(digits, rest, 0);
  }

  /** The digits of both cases, in order. */
  lemma HexDigits(v: nat)
    requires v < 16
    ensures var c := "0123456789abcdef"[v] as byte; IsHex(c) && HexValue(c) == v
    ensures var c := "0123456789ABCDEF"[v] as byte; IsHex(c) && HexValue(c) == v
  {
  }

  lemma HexDigitsOnly(c: char)
    requires c as int < 0x100
    ensures IsHex(c as byte) <==> c in "0123456789abcdefABCDEF"
  {
  }

  // ---------------------------------------------------------------------
  // The round trip.

  predicate IsHexText(g: bytes) {
    forall k :: 0 <= k < |g| ==> IsHex(g[k])
  }

  /** Eight groups of at most four hexadecimal digits each. */
  predicate IsAddress(gs: seq<bytes>) {
    |gs| == GROUPS && forall k :: 0 <= k < |gs| ==> |gs[k]| <= DIGITS && IsHexText(gs[k])
  }

  /** Eight groups of exactly four lower-case hexadecimal digits each. */
  predicate IsFullAddress(gs: seq<bytes>) {
    IsAddress(gs) && forall k :: 0 <= k < |gs| ==> |gs[k]| == DIGITS && Lower(gs[k]) == gs[k]
  }

  /** The two bytes that four hexadecimal digits stand for. */
  function Packed(g: bytes): (r: bytes)
    requires |g| == DIGITS && IsHexText(g)
    ensures |r| == 2
  {
    [(HexValue(g[0]) * 16 + HexValue(g[1])) as byte, (HexValue(g[2]) * 16 + HexValue(g[3])) as byte]
  }

  function PackedAll(gs: seq<bytes>): bytes
    requires forall k :: 0 <= k < |gs| ==> |gs[k]| == DIGITS && IsHexText(gs[k])
  {
    if gs == [] then [] else Packed(gs[0]) + PackedAll(gs[1..])
  }

  lemma PaddedIsFull(g: bytes)
    requires |g| <= DIGITS && IsHexText(g)
    ensures |Padded(g)| == DIGITS && IsHexText(Padded(g)) && Lower(Padded(g)) == Padded(g)
    ensures |g| == DIGITS && Lower(g) == g ==> Padded(g) == g
  {
  }

  /** Leading zeros do not matter. */
  lemma {:induction false} PaddedStripped(g: bytes)
    requires |g| <= DIGITS && IsHexText(g)
    ensures |StripZeros(g)| <= DIGITS && IsHexText(StripZeros(g)) && Padded(StripZeros(g)) == Padded(g)
  {
    if g == [] {
      assert Padded([ZERO]) == Padded([]);
    } else if g[0] == ZERO {
      PaddedStripped(g[1..]);
      assert Padded(g[1..]) == Padded(g);
    }
  }

  lemma PackedValue(a: nat, b: nat, c: nat, d: nat)
    requires a < 16 && b < 16 && c < 16 && d < 16
    ensures var v := ((a * 16 + b) * 16 + c) * 16 + d; v <= 0xFFFF && v / 0x100 == a * 16 + b && v % 0x100 == c * 16 + d
  {
  }

  lemma HexPrefixOfPadded(g: bytes)
    requires |g| <= DIGITS && IsHexText(g)
    ensures HexPrefix(g, 0) <= 0xFFFF
    ensures |Padded(g)| == DIGITS && IsHexText(Padded(g)) && Put16(HexPrefix(g, 0)) == Packed(Padded(g))
  {
    hide Padded, HexPrefix, IsHex;
    PaddedIsFull(g);
    var p := Padded(g);
    PackedValue(HexValue(p[0]), HexValue(p[1]), HexValue(p[2]), HexValue(p[3]));
    HexPrefixOfFour(p);
    HexPrefixPadded(g);
  }

  lemma HexPrefixOfFour(p: bytes)
    requires |p| == DIGITS && IsHexText(p)
    ensures HexPrefix(p, 0) == ((HexValue(p[0]) * 16 + HexValue(p[1])) * 16 + HexValue(p[2])) * 16 + HexValue(p[3])
  {
    var v0 := HexValue(p[0]);
    var v1 := v0 * 16 + HexValue(p[1]);
    var v2 := v1 * 16 + HexValue(p[2]);
    assert p[1..][0] == p[1] && p[1..][1..] == p[2..] && p[2..][0] == p[2] && p[2..][1..] == p[3..] && p[3..][0] == p[3] && p[3..][1..] == [];
    assert HexPrefix(p, 0) == HexPrefix(p[1..], v0);
    assert HexPrefix(p[1..], v0) == HexPrefix(p[2..], v1);
    assert HexPrefix(p[2..], v1) == HexPrefix(p[3..], v2);
    assert HexPrefix(p[3..], v2) == HexPrefix(p[3..][1..], v2 * 16 + HexValue(p[3]));
  }

  lemma {:induction false} HexPrefixLower(g: bytes, acc: nat)
    ensures IsHexText(g) ==> HexPrefix(Lower(g), acc) == HexPrefix(g, acc)
  {
    if g != [] && IsHexText(g) {
      HexPrefixLower(g[1..], acc * 16 + HexValue(g[0]));
      assert Lower(g)[1..] == Lower(g[1..]);
    }
  }

  lemma {:induction false} HexPrefixZeros(n: nat, s: bytes)
    ensures HexPrefix(seq(n, i => ZERO) + s, 0) == HexPrefix(s, 0)
  {
    var zeros: bytes := seq(n, i => ZERO);
    if n == 0 {
      assert zeros + s == s;
    } else {
      HexPrefixZeros(n - 1, s);
      var fewer: bytes := seq(n - 1, i => ZERO);
      assert (zeros + s)[1..] == fewer + s;
    }
  }

  lemma HexPrefixPadded(g: bytes)
    requires |g| <= DIGITS && IsHexText(g)
    ensures HexPrefix(Padded(g), 0) == HexPrefix(g, 0)
  {
    HexPrefixLower(g, 0);
    HexPrefixZeros(DIGITS - |g|, Lower(g));
  }

  /** std::stoi reads a group of hexadecimal digits for what it is. */
  lemma GroupMeans(g: bytes)
    requires |g| <= DIGITS && IsHexText(g)
    ensures |Padded(g)| == DIGITS && IsHexText(Padded(g)) && GroupBytes(g) == Some(Packed(Padded(g)))
  {
    hide Packed, Padded, Put16, HexPrefix;
    HexPrefixOfPadded(g);
    if g == [] {
      assert HexPrefix([ZERO], 0) == 0 && HexPrefix([], 0) == 0 by { ZeroIsNothing(); }
    }
  }

  lemma ZeroIsNothing()
    ensures HexPrefix([ZERO], 0) == 0 && HexPrefix([], 0) == 0
  {
  }

  lemma {:induction false} AllGroupsMean(gs: seq<bytes>)
    requires forall k :: 0 <= k < |gs| ==> |gs[k]| <= DIGITS && IsHexText(gs[k])
    ensures forall k :: 0 <= k < |gs| ==> |PaddedAll(gs)[k]| == DIGITS && IsHexText(PaddedAll(gs)[k])
    ensures AllGroupBytes(gs) == Some(PackedAll(PaddedAll(gs)))
  {
    hide Padded, Packed, GroupBytes;
    if gs != [] {
      GroupMeans(gs[0]);
      AllGroupsMean(gs[1..]);
      assert PaddedAll(gs)[1..] == PaddedAll(gs[1..]);
      assert PaddedAll(gs)[0] == Padded(gs[0]);
      forall k | 0 <= k < |gs| ensures |PaddedAll(gs)[k]| == DIGITS && IsHexText(PaddedAll(gs)[k]) {
        if k > 0 {
          assert PaddedAll(gs)[k] == PaddedAll(gs[1..])[k - 1];
        }
      }
    }
  }

  lemma {:induction false} ConcatSpread(s: bytes)
    ensures Concat(Spread(s)) == s
  {
    if s != [] {
      ConcatSpread(s[1..]);
      assert Spread(s)[1..] == Spread(s[1..]);
    }
  }

  lemma {:induction false} GroupedSpread(gs: seq<bytes>)
    requires forall k :: 0 <= k < |gs| ==> |gs[k]| == DIGITS
    ensures Grouped(Spread(Concat(gs))) == gs
  {
    if gs != [] {
      var rest := Concat(gs[1..]);
      var parts := Spread(Concat(gs));
      assert parts[..DIGITS] == Spread(gs[0]) && parts[DIGITS..] == Spread(rest);
      ConcatSpread(gs[0]);
      GroupedSpread(gs[1..]);
    }
  }

  lemma {:induction false} ConcatLength(gs: seq<bytes>)
    requires forall k :: 0 <= k < |gs| ==> |gs[k]| == DIGITS && IsHexText(gs[k])
    ensures |Concat(gs)| == DIGITS * |gs| && IsHexText(Concat(gs))
  {
    if gs != [] {
      ConcatLength(gs[1..]);
    }
  }

  /** Reversing the nibbles of a full address gives its colon form. */
  lemma NibblesReversed(gs: seq<bytes>)
    requires IsFullAddress(gs)
    ensures ReversedText(Join(Reversed(Spread(Concat(gs))), DOT)) == Join(gs, COLON)
  {
    hide Grouped, Join, Split, Concat;
    var s := Concat(gs);
    ConcatLength(gs);
    var labels := Reversed(Spread(s));
    forall k | 0 <= k < |labels| ensures DOT !in labels[k] {
      assert labels[k] == [s[|s| - 1 - k]];
    }
    SplitJoin(labels, DOT);
    assert Join(labels, DOT) != [] by { SplitOfNothing(labels); }
    assert Reversed(labels) == Spread(s);
    GroupedSpread(gs);
  }

  lemma SplitOfNothing(labels: seq<bytes>)
    requires |labels| > 1 && Split(Join(labels, DOT), DOT) == labels
    ensures Join(labels, DOT) != []
  {
  }

  /** An address read from any text that expands to hexadecimal groups. */
  lemma ReadAddress(s: bytes, gs: seq<bytes>)
    requires COLON in s && Expand(s) == Some(gs) && IsAddress(gs)
    ensures IsFullAddress(PaddedAll(gs))
    ensures PtrLabels(s) == Reversed(Spread(Concat(PaddedAll(gs)))) + [IP6, ARPA]
    ensures RdataOf(s) == Some(PackedAll(PaddedAll(gs)))
  {
    hide Expand, Padded, Concat, PackedAll, AllGroupBytes, IsHexText, Lower;
    AllGroupsMean(gs);
    forall k | 0 <= k < |gs|
      ensures |PaddedAll(gs)[k]| == DIGITS && IsHexText(PaddedAll(gs)[k]) && Lower(PaddedAll(gs)[k]) == PaddedAll(gs)[k]
    {
      PaddedIsFull(gs[k]);
    }
  }

  /** What is left of a full address after simplification stands for the same address. */
  lemma SimplifiedReads(full: seq<bytes>, r: bytes)
    requires IsFullAddress(full) && IsSimplified(Join(full, COLON), r)
    ensures PtrLabels(r) == Reversed(Spread(Concat(full))) + [IP6, ARPA]
    ensures RdataOf(r) == Some(PackedAll(full))
  {
    hide Join, Split, Expand, PtrLabels, RdataOf, Padded, StripZeros, Concat, PackedAll, Spread, Reversed, Compressed, FirstLongest, Lower;
    FullIsPlain(full);
    SplitJoin(full, COLON);
    var gs := Stripped(full);
    var start, length := SimplifiedRun(Join(full, COLON), r);
    forall k | 0 <= k < |gs| ensures |gs[k]| <= DIGITS && IsHexText(gs[k]) && Padded(gs[k]) == full[k] {
      PaddedStripped(full[k]);
      PaddedIsFull(full[k]);
    }
    assert PaddedAll(gs) == full;
    HexIsPlain(gs);
    ExpandCompressed(gs, start, length);
    CompressedHasColon(gs, start, length);
    ReadAddress(r, gs);
  }

  lemma FullIsPlain(gs: seq<bytes>)
    requires IsFullAddress(gs)
    ensures Plain(gs)
  {
    HexIsPlain(gs);
  }

  lemma HexIsPlain(gs: seq<bytes>)
    requires forall k :: 0 <= k < |gs| ==> |gs[k]| > 0 && IsHexText(gs[k])
    ensures Plain(gs)
  {
  }

  lemma SimplifiedRun(input: bytes, r: bytes) returns (start: nat, length: nat)
    requires IsSimplified(input, r)
    ensures ZeroRun(Stripped(Split(input, COLON)), start, length)
    ensures r == Compressed(Stripped(Split(input, COLON)), start, length)
  {
    hide Split, Stripped, Join;
    var gs := Stripped(Split(input, COLON));
    start, length :| FirstLongest(gs, |gs|, start, length) && r == Compressed(gs, start, length);
  }

  lemma CompressedHasColon(gs: seq<bytes>, start: nat, length: nat)
    requires |gs| == GROUPS && ZeroRun(gs, start, length)
    ensures COLON in Compressed(gs, start, length)
  {
    if length >= 2 {
      assert Compressed(gs, start, length)[|Join(gs[..start], COLON)|] == COLON;
    } else {
      assert Join(gs, COLON)[|gs[0]|] == COLON;
    }
  }

  lemma {:induction false} ConcatAt(gs: seq<bytes>, i: nat, j: nat)
    requires forall k :: 0 <= k < |gs| ==> |gs[k]| == DIGITS && IsHexText(gs[k])
    requires i < |gs| && j < DIGITS
    ensures |Concat(gs)| == DIGITS * |gs| && Concat(gs)[DIGITS * i + j] == gs[i][j]
    decreases i
  {
    ConcatLength(gs);
    if i > 0 {
      ConcatAt(gs[1..], i - 1, j);
    }
  }

  lemma {:induction false} PackedAt(gs: seq<bytes>, i: nat)
    requires forall k :: 0 <= k < |gs| ==> |gs[k]| == DIGITS && IsHexText(gs[k])
    requires i < |gs|
    ensures |PackedAll(gs)| == 2 * |gs| && PackedAll(gs)[2 * i..2 * i + 2] == Packed(gs[i])
    decreases |gs|
  {
    hide Packed;
    PackedLength(gs);
    if i > 0 {
      PackedAt(gs[1..], i - 1);
      assert PackedAll(gs)[2 * i..2 * i + 2] == PackedAll(gs[1..])[2 * i - 2..2 * i];
    }
  }

  lemma {:induction false} PackedLength(gs: seq<bytes>)
    requires forall k :: 0 <= k < |gs| ==> |gs[k]| == DIGITS && IsHexText(gs[k])
    ensures |PackedAll(gs)| == 2 * |gs|
  {
    if gs != [] {
      PackedLength(gs[1..]);
    }
  }

  /**
   * The round trip. Whatever text an address was given in, its nibble labels reverse to the full
   * colon form, and the simplified form of that stands for the same labels and the same 16 bytes.
   */
  lemma AddressRoundTrip(s: bytes, gs: seq<bytes>, r: bytes)
    requires COLON in s && Expand(s) == Some(gs) && IsAddress(gs)
    ensures |PtrLabels(s)| == GROUPS * DIGITS + 2
    ensures forall i, j {:trigger PaddedAll(gs)[i][j]} :: 0 <= i < GROUPS && 0 <= j < DIGITS ==>
              |PaddedAll(gs)[i]| == DIGITS && PtrLabels(s)[31 - (4 * i + j)] == [PaddedAll(gs)[i][j]]
    ensures PtrLabels(s)[GROUPS * DIGITS..] == [IP6, ARPA]
    ensures ReversedText(Join(PtrLabels(s)[..GROUPS * DIGITS], DOT)) == Join(PaddedAll(gs), COLON)
    ensures RdataOf(s).Some? && |RdataOf(s).value| == 2 * GROUPS
    ensures forall i {:trigger PaddedAll(gs)[i]} :: 0 <= i < GROUPS ==>
              |PaddedAll(gs)[i]| == DIGITS && IsHexText(PaddedAll(gs)[i]) && RdataOf(s).value[2 * i..2 * i + 2] == Packed(PaddedAll(gs)[i])
    ensures IsSimplified(ReversedText(Join(PtrLabels(s)[..GROUPS * DIGITS], DOT)), r) ==>
              PtrLabels(r) == PtrLabels(s) && RdataOf(r) == RdataOf(s)
  {
    hide Join, Expand, PtrLabels, RdataOf, Padded, PackedAll, Concat, ReversedText, IsSimplified;
    ReadAddress(s, gs);
    var full := PaddedAll(gs);
    ConcatLength(full);
    var nibbles := Reversed(Spread(Concat(full)));
    assert PtrLabels(s)[..GROUPS * DIGITS] == nibbles;
    NibblesReversed(full);
    forall i, j | 0 <= i < GROUPS && 0 <= j < DIGITS
      ensures |full[i]| == DIGITS && PtrLabels(s)[31 - (4 * i + j)] == [full[i][j]]
    {
      ConcatAt(full, i, j);
      assert PtrLabels(s)[31 - (4 * i + j)] == nibbles[31 - (4 * i + j)];
    }
    PackedLength(full);
    forall i | 0 <= i < GROUPS ensures |full[i]| == DIGITS && IsHexText(full[i]) && RdataOf(s).value[2 * i..2 * i + 2] == Packed(full[i]) {
      PackedAt(full, i);
    }
    PackedAt(full, 0);
    if IsSimplified(Join(full, COLON), r) {
      SimplifiedReads(full, r);
    }
  }
}
