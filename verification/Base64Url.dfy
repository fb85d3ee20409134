// The unpadded base64url encoding of DoH GET queries, and the standard decoder
// (section 5 of RFC 4648) that undoes it.
module Base64Url {
  import opened Wire

  type sextet = v: int | 0 <= v < 64

  /** The 64-character table: A to Z, a to z, 0 to 9, minus and underscore. */
  function CharOf(v: sextet): char {
    if v < 26 then 'A' + v as char
    else if v < 52 then 'a' + (v - 26) as char
    else if v < 62 then '0' + (v - 52) as char
    else if v == 62 then '-' else '_'
  }

  const UPPER: string := "ABCDEFGHIJKLMNOPQRSTUVWXYZ"
  const LOWER: string := "abcdefghijklmnopqrstuvwxyz"
  const DECIMAL: string := "0123456789"

  lemma UpperTable(v: nat)
    requires v < 26
    ensures |UPPER| == 26 && UPPER[v] == 'A' + v as char
  {
  }

  lemma LowerTable(v: nat)
    requires v < 26
    ensures |LOWER| == 26 && LOWER[v] == 'a' + v as char
  {
  }

  lemma DecimalTable(v: nat)
    requires v < 10
    ensures |DECIMAL| == 10 && DECIMAL[v] == '0' + v as char
  {
  }

  /** The table is the one of section 5 of RFC 4648, entry by entry. */
  lemma TableExactly(v: sextet)
    ensures |UPPER + LOWER + DECIMAL + "-_"| == 64 && CharOf(v) == (UPPER + LOWER + DECIMAL + "-_")[v]
  {
    var u, l, d := if v < 26 then v as int else 0, if 26 <= v < 52 then v - 26 else 0, if 52 <= v < 62 then v - 52 else 0;
    UpperTable(u);
    LowerTable(l);
    DecimalTable(d);
    TableOf(UPPER, LOWER, DECIMAL, v, u, l, d);
  }

  lemma TableOf(upper: string, lower: string, decimal: string, v: sextet, u: nat, l: nat, d: nat)
    requires |upper| == |lower| == 26 && |decimal| == 10 && u < 26 && l < 26 && d < 10
    requires upper[u] == 'A' + u as char && lower[l] == 'a' + l as char && decimal[d] == '0' + d as char
    requires (v < 26 ==> u == v) && (26 <= v < 52 ==> l == v - 26) && (52 <= v < 62 ==> d == v - 52)
    ensures |upper + lower + decimal + "-_"| == 64 && CharOf(v) == (upper + lower + decimal + "-_")[v]
  {
  }

  predicate InAlphabet(c: char) {
    'A' <= c <= 'Z' || 'a' <= c <= 'z' || '0' <= c <= '9' || c == '-' || c == '_'
  }

  /** The value of a character of the alphabet. */
  function ValueOf(c: char): sextet
    requires InAlphabet(c)
  {
    if 'A' <= c <= 'Z' then c as int - 'A' as int
    else if 'a' <= c <= 'z' then c as int - 'a' as int + 26
    else if '0' <= c <= '9' then c as int - '0' as int + 52
    else if c == '-' then 62 else 63
  }

  lemma TableIsAlphabet(v: sextet)
    ensures InAlphabet(CharOf(v)) && ValueOf(CharOf(v)) == v
  {
  }

  /** Three bytes as one number, missing bytes being 0. */
  function Group(b: bytes): nat
    requires 1 <= |b|
  {
    b[0] as int * 0x1_0000 + (if |b| > 1 then b[1] as int * 0x100 else 0) + (if |b| > 2 then b[2] as int else 0)
  }

  function Digit(n: nat, weight: nat): char
    requires weight > 0
  {
    CharOf(n / weight % 64)
  }

  /** The characters for one group of one, two or three bytes. */
  function EncodeGroup(b: bytes): (r: string)
    requires 1 <= |b| <= 3
    ensures |r| == 1 + |b|
  {
    var n := Group(b);
    [Digit(n, 0x4_0000), Digit(n, 0x1000)] +
    (if |b| > 1 then [Digit(n, 0x40)] else []) +
    (if |b| > 2 then [Digit(n, 1)] else [])
  }

  function Encode(b: bytes): string {
    if |b| == 0 then ""
    else if |b| <= 3 then EncodeGroup(b)
    else EncodeGroup(b[..3]) + Encode(b[3..])
  }

  /** The decoder for one group of two, three or four characters. */
  function DecodeGroup(s: string): (r: bytes)
    requires 2 <= |s| <= 4 && forall c :: c in s ==> InAlphabet(c)
    ensures |r| == |s| - 1
  {
    var n := ValueOf(s[0]) * 0x4_0000 + ValueOf(s[1]) * 0x1000 +
             (if |s| > 2 then ValueOf(s[2]) * 0x40 else 0) + (if |s| > 3 then ValueOf(s[3]) else 0);
    [(n / 0x1_0000) as byte] +
    (if |s| > 2 then [(n / 0x100 % 0x100) as byte] else []) +
    (if |s| > 3 then [(n % 0x100) as byte] else [])
  }

  function Decode(s: string): Option<bytes> {
    if |s| == 0 then Some([])
    else if |s| == 1 || exists c :: c in s && !InAlphabet(c) then None
    else if |s| <= 4 then Some(DecodeGroup(s))
    else
      match Decode(s[4..])
      case None => None
      case Some(rest) => Some(DecodeGroup(s[..4]) + rest)
  }

  lemma DigitValue(n: nat, weight: nat)
    requires weight > 0
    ensures InAlphabet(Digit(n, weight)) && ValueOf(Digit(n, weight)) == n / weight % 64
  {
    TableIsAlphabet(n / weight % 64);
  }

  lemma Digits(n: nat)
    requires n < 0x100_0000
    ensures n / 0x4_0000 % 64 * 0x4_0000 + n / 0x1000 % 64 * 0x1000 + n / 0x40 % 64 * 0x40 + n % 64 == n
  {
    assert n / 0x1000 == n / 0x40 / 0x40 && n / 0x4_0000 == n / 0x1000 / 0x40;
  }

  lemma DigitsOfOne(a: nat)
    requires a < 0x100
    ensures var n := a * 0x1_0000; (n / 0x4_0000 % 64 * 0x4_0000 + n / 0x1000 % 64 * 0x1000) / 0x1_0000 == a
  {
    var n := a * 0x1_0000;
    assert n / 0x4_0000 == a / 4 && n / 0x1000 == a * 16;
    assert a * 16 % 64 == a % 4 * 16;
  }

  lemma DigitsOfTwo(a: nat, b: nat)
    requires a < 0x100 && b < 0x100
    ensures var n := a * 0x1_0000 + b * 0x100; n % 64 == 0
  {
  }

  lemma Bytes(a: nat, b: nat, c: nat)
    requires a < 0x100 && b < 0x100 && c < 0x100
    ensures var n := a * 0x1_0000 + b * 0x100 + c;
            n < 0x100_0000 && n / 0x1_0000 == a && n / 0x100 % 0x100 == b && n % 0x100 == c
  {
    var n := a * 0x1_0000 + b * 0x100 + c;
    var m := a * 0x100 + b;
    assert n == m * 0x100 + c;
    assert n / 0x100 == m && n % 0x100 == c;
    assert m / 0x100 == a && m % 0x100 == b;
    assert n / 0x1_0000 == m / 0x100;
  }

  lemma GroupRoundTrip(b: bytes)
    requires 1 <= |b| <= 3
    ensures forall c :: c in EncodeGroup(b) ==> InAlphabet(c)
    ensures DecodeGroup(EncodeGroup(b)) == b
  {
    hide Digit, InAlphabet, ValueOf;
    var n := Group(b);
    DigitValue(n, 0x4_0000);
    DigitValue(n, 0x1000);
    DigitValue(n, 0x40);
    DigitValue(n, 1);
    Digits(n);
    var b0, b1, b2 := b[0] as int, if |b| > 1 then b[1] as int else 0, if |b| > 2 then b[2] as int else 0;
    Bytes(b0, b1, b2);
    if |b| == 1 {
      DigitsOfOne(b0);
    } else if |b| == 2 {
      DigitsOfTwo(b0, b1);
    }
  }

  lemma GroupIsDecodable(b: bytes)
    requires 1 <= |b| <= 3
    ensures Decode(EncodeGroup(b)) == Some(b)
  {
    hide EncodeGroup, DecodeGroup, InAlphabet;
    GroupRoundTrip(b);
  }

  lemma DecodeCons(x: string, y: string)
    requires |x| == 4 && |y| > 0 && forall c :: c in x ==> InAlphabet(c)
    ensures Decode(y).Some? ==> Decode(x + y) == Some(DecodeGroup(x) + Decode(y).value)
  {
    hide DecodeGroup, InAlphabet;
    assert (x + y)[..4] == x && (x + y)[4..] == y;
    if Decode(y).Some? {
      assert forall c :: c in x + y ==> c in x || c in y;
      assert forall c :: c in y ==> InAlphabet(c) by { DecodableIsAlphabet(y); }
    }
  }

  lemma DecodableIsAlphabet(s: string)
    requires Decode(s).Some?
    ensures forall c :: c in s ==> InAlphabet(c)
  {
    hide DecodeGroup, InAlphabet;
  }

  /**
   * Encoding is invertible: the output has ceil(4n/3) characters, all from the alphabet and
   * so without padding, and the decoder recovers the input.
   */
  lemma {:induction false} RoundTrip(b: bytes)
    ensures |Encode(b)| == (4 * |b| + 2) / 3
    ensures forall c :: c in Encode(b) ==> InAlphabet(c)
    ensures Decode(Encode(b)) == Some(b)
    decreases |b|
  {
    hide InAlphabet, EncodeGroup, DecodeGroup, Decode;
    if |b| == 0 {
      assert Decode("") == Some([]) by { DecodeNothing(); }
    } else if |b| <= 3 {
      GroupRoundTrip(b);
      GroupIsDecodable(b);
    } else {
      GroupRoundTrip(b[..3]);
      RoundTrip(b[3..]);
      DecodeCons(EncodeGroup(b[..3]), Encode(b[3..]));
      assert b[..3] + b[3..] == b;
    }
  }

  lemma DecodeNothing()
    ensures Decode("") == Some([])
  {
  }

  /** The byte at `i`, 0 behind the end. */
  function ByteAt(b: bytes, i: nat): (v: nat)
    ensures v < 0x100
  {
    if i < |b| then b[i] as int else 0
  }

  /** The `k`-th group of six bits, from the most significant bit on. */
  function SixBits(b: bytes, k: nat): nat {
    var i := k / 4 * 3;
    if k % 4 == 0 then ByteAt(b, i) / 4
    else if k % 4 == 1 then ByteAt(b, i) % 4 * 16 + ByteAt(b, i + 1) / 16
    else if k % 4 == 2 then ByteAt(b, i + 1) % 16 * 4 + ByteAt(b, i + 2) / 64
    else ByteAt(b, i + 2) % 64
  }

  lemma By64(q: nat, r: nat)
    requires r < 64
    ensures (64 * q + r) / 64 == q && (64 * q + r) % 64 == r
  {
  }

  lemma By4096(q: nat, r: nat)
    requires r < 0x1000
    ensures (0x1000 * q + r) / 0x1000 == q
  {
  }

  lemma By262144(q: nat, r: nat)
    requires r < 0x4_0000
    ensures (0x4_0000 * q + r) / 0x4_0000 == q
  {
  }

  /** Three bytes, given in pieces of 6 and 2, 4 and 4, 2 and 6 bits. */
  lemma PieceBits(a1: nat, a0: nat, b1: nat, b0: nat, c1: nat, c0: nat)
    requires a1 < 64 && a0 < 4 && b1 < 16 && b0 < 16 && c1 < 4 && c0 < 64
    ensures var n := (a1 * 4 + a0) * 0x1_0000 + (b1 * 16 + b0) * 0x100 + (c1 * 64 + c0);
            && n / 0x4_0000 % 64 == a1 && n / 0x1000 % 64 == a0 * 16 + b1
            && n / 0x40 % 64 == b0 * 4 + c1 && n % 64 == c0
  {
    var n := (a1 * 4 + a0) * 0x1_0000 + (b1 * 16 + b0) * 0x100 + (c1 * 64 + c0);
    var low := b0 * 0x100 + c1 * 64 + c0;
    var q := a0 * 16 + b1;
    assert n == 0x4_0000 * a1 + (q * 0x1000 + low);
    By262144(a1, q * 0x1000 + low);
    By64(0, a1);
    assert n == 0x1000 * (64 * a1 + q) + low;
    By4096(64 * a1 + q, low);
    By64(a1, q);
    var m := b0 * 4 + c1;
    assert n == 64 * (64 * (64 * a1 + q) + m) + c0;
    By64(64 * (64 * a1 + q) + m, c0);
    By64(64 * a1 + q, m);
  }

  lemma GroupBits(a: nat, b: nat, c: nat)
    requires a < 0x100 && b < 0x100 && c < 0x100
    ensures var n := a * 0x1_0000 + b * 0x100 + c;
            && n / 0x4_0000 % 64 == a / 4 && n / 0x1000 % 64 == a % 4 * 16 + b / 16
            && n / 0x40 % 64 == b % 16 * 4 + c / 64 && n % 64 == c % 64
  {
    PieceBits(a / 4, a % 4, b / 16, b % 16, c / 64, c % 64);
  }

  /** Every character stands for the next six bits of the input. */
  lemma {:induction false} EncodedBits(b: bytes, k: nat)
    requires k < |Encode(b)|
    ensures InAlphabet(Encode(b)[k]) && ValueOf(Encode(b)[k]) == SixBits(b, k)
    decreases |b|
  {
    hide InAlphabet, ValueOf, Encode, EncodeGroup;
    EncodeUnfolds(b);
    var first := if |b| <= 3 then b else b[..3];
    if k < |EncodeGroup(first)| {
      GroupEncodesBits(first, k);
      assert SixBits(b, k) == SixBits(first, k);
    } else {
      EncodedBits(b[3..], k - 4);
      ShiftedBits(b, k);
    }
  }

  lemma EncodeUnfolds(b: bytes)
    requires |Encode(b)| > 0
    ensures |b| > 0 && Encode(b) == if |b| <= 3 then EncodeGroup(b) else EncodeGroup(b[..3]) + Encode(b[3..])
  {
  }

  lemma ShiftedBits(b: bytes, k: nat)
    requires |b| > 3 && k >= 4
    ensures SixBits(b, k) == SixBits(b[3..], k - 4)
  {
    var i := (k - 4) / 4 * 3;
    assert k / 4 * 3 == i + 3 && k % 4 == (k - 4) % 4;
    assert forall j: nat :: ByteAt(b, 3 + j) == ByteAt(b[3..], j);
  }

  lemma GroupEncodesBits(b: bytes, k: nat)
    requires 1 <= |b| <= 3 && k < 1 + |b|
    ensures InAlphabet(EncodeGroup(b)[k]) && ValueOf(EncodeGroup(b)[k]) == SixBits(b, k)
  {
    hide EncodeGroup, Group, InAlphabet, ValueOf, Digit, ByteAt;
    var weight := if k == 0 then 0x4_0000 else if k == 1 then 0x1000 else if k == 2 then 0x40 else 1;
    GroupDigit(b, k);
    DigitValue(Group(b), weight);
    GroupOfBytes(b);
    FirstSixBits(b, k, weight);
  }

  lemma FirstSixBits(b: bytes, k: nat, weight: nat)
    requires k < 4 && weight == if k == 0 then 0x4_0000 else if k == 1 then 0x1000 else if k == 2 then 0x40 else 1
    ensures (ByteAt(b, 0) * 0x1_0000 + ByteAt(b, 1) * 0x100 + ByteAt(b, 2)) / weight % 64 == SixBits(b, k)
  {
    hide ByteAt;
    GroupBits(ByteAt(b, 0), ByteAt(b, 1), ByteAt(b, 2));
  }

  lemma GroupOfBytes(b: bytes)
    requires 1 <= |b| <= 3
    ensures Group(b) == ByteAt(b, 0) * 0x1_0000 + ByteAt(b, 1) * 0x100 + ByteAt(b, 2)
  {
  }

  lemma GroupDigit(b: bytes, k: nat)
    requires 1 <= |b| <= 3 && k < 1 + |b|
    ensures EncodeGroup(b)[k] == Digit(Group(b), if k == 0 then 0x4_0000 else if k == 1 then 0x1000 else if k == 2 then 0x40 else 1)
  {
    hide Digit, Group;
  }

  /** Different queries never share a URL. */
  lemma Injective(a: bytes, b: bytes)
    requires Encode(a) == Encode(b)
    ensures a == b
  {
    hide Encode, Decode;
    RoundTrip(a);
    RoundTrip(b);
  }

  method Base64UrlEncode(data: bytes) returns (result: string)
    ensures result == Encode(data)
    ensures Decode(result) == Some(data)
  {
    hide CharOf, Decode;
    RoundTrip(data);
    result := "";
    var index := 0;
    while index < |data|
      invariant 0 <= index && (index <= |data| ==> Encode(data) == result + Encode(data[index..]))
      invariant index > |data| ==> Encode(data) == result
      decreases |data| - index
    {
      var n: nat := data[index] as int * 0x1_0000;
      if index + 1 < |data| {
        n := n + data[index + 1] as int * 0x100;
      }
      if index + 2 < |data| {
        n := n + data[index + 2] as int;
      }
      EncodeStep(result, data, index, n);
      result := result + [CharOf(n / 0x4_0000 % 64)];
      result := result + [CharOf(n / 0x1000 % 64)];
      if index + 1 < |data| {
        result := result + [CharOf(n / 0x40 % 64)];
      }
      if index + 2 < |data| {
        result := result + [CharOf(n % 64)];
      }
      index := index + 3;
    }
    assert index == |data| ==> data[index..] == [];
  }

  /** One turn of the loop: one group. */
  lemma EncodeStep(done: string, data: bytes, index: nat, n: nat)
    requires index < |data|
    requires n == data[index] as int * 0x1_0000 + (if index + 1 < |data| then data[index + 1] as int * 0x100 else 0)
                  + (if index + 2 < |data| then data[index + 2] as int else 0)
    ensures var two := done + [CharOf(n / 0x4_0000 % 64)] + [CharOf(n / 0x1000 % 64)];
            var three := if index + 1 < |data| then two + [CharOf(n / 0x40 % 64)] else two;
            var four := if index + 2 < |data| then three + [CharOf(n % 64)] else three;
            done + Encode(data[index..]) == if index + 3 <= |data| then four + Encode(data[index + 3..]) else four
  {
    hide CharOf;
    var b := data[index..];
    if |b| <= 3 {
      assert Group(b) == n;
      assert Encode(b) == EncodeGroup(b);
      if |b| == 3 {
        assert data[index + 3..] == [];
      }
    } else {
      assert b[..3] == [data[index], data[index + 1], data[index + 2]];
      assert Group(b[..3]) == n;
      assert b[3..] == data[index + 3..];
      assert done + (EncodeGroup(b[..3]) + Encode(b[3..])) == done + EncodeGroup(b[..3]) + Encode(b[3..]);
    }
  }
}
