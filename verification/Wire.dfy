// Bytes, big-endian integers, and the placement of a byte string in a buffer.
module Wire {

  datatype Option<+T> = None | Some(value: T)

  newtype byte = b: int | 0 <= b < 0x100
  type u16 = n: int | 0 <= n < 0x1_0000
  type u32 = n: int | 0 <= n < 0x1_0000_0000

  /** Wire data, and every std::string that ends up on the wire. */
  type bytes = seq<byte>

  /** The separator of dotted names. */
  const DOT: byte := 0x2E

  function Get16(d: bytes, o: nat): u16
    requires o + 2 <= |d|
  {
    d[o] as int * 0x100 + d[o + 1] as int
  }

  function Get32(d: bytes, o: nat): u32
    requires o + 4 <= |d|
  {
    Get16(d, o) * 0x1_0000 + Get16(d, o + 2)
  }

  /** Network order: the most significant byte comes first. */
  lemma BigEndian(d: bytes, o: nat)
    requires o + 4 <= |d|
    ensures Get16(d, o) == d[o] as int * 0x100 + d[o + 1] as int
    ensures Get32(d, o) == d[o] as int * 0x100_0000 + d[o + 1] as int * 0x1_0000 + d[o + 2] as int * 0x100 + d[o + 3] as int
  {
  }

  function Put16(v: u16): (b: bytes)
    ensures |b| == 2 && Get16(b, 0) == v
  {
    [(v / 0x100) as byte, (v % 0x100) as byte]
  }

  function Put32(v: u32): (b: bytes)
    ensures |b| == 4 && Get32(b, 0) == v
  {
    Put16(v / 0x1_0000) + Put16(v % 0x1_0000)
  }

  /** `x` lies in `d` at offset `o`. */
  predicate At(d: bytes, o: nat, x: bytes) {
    o + |x| <= |d| && forall i {:trigger x[i]} :: 0 <= i < |x| ==> d[o + i] == x[i]
  }

  lemma AtByte(d: bytes, o: nat, x: bytes, i: nat)
    requires At(d, o, x) && i < |x|
    ensures d[o + i] == x[i]
  {
    assert x[i] == x[i];
  }

  lemma AtSlice(d: bytes, o: nat, x: bytes)
    ensures At(d, o, x) <==> o + |x| <= |d| && d[o..o + |x|] == x
  {
    if o + |x| <= |d| && d[o..o + |x|] == x {
      forall i | 0 <= i < |x| ensures d[o + i] == x[i] {
        assert d[o..o + |x|][i] == x[i];
      }
    }
  }

  lemma AtSplit(d: bytes, o: nat, x: bytes, y: bytes)
    ensures At(d, o, x + y) <==> At(d, o, x) && At(d, o + |x|, y)
  {
    var xy := x + y;
    if At(d, o, xy) {
      forall i | 0 <= i < |x| ensures d[o + i] == x[i] {
        assert xy[i] == x[i];
      }
      forall i | 0 <= i < |y| ensures d[o + |x| + i] == y[i] {
        assert xy[|x| + i] == y[i];
      }
    }
  }

  /** `x` lies in `before + x + after` right after `before`. */
  lemma AtMiddle(before: bytes, x: bytes, after: bytes)
    ensures At(before + x + after, |before|, x)
  {
    assert (before + x + after)[|before|..|before| + |x|] == x;
  }

  lemma AtPut16(d: bytes, o: nat, v: u16)
    requires At(d, o, Put16(v))
    ensures o + 2 <= |d| && Get16(d, o) == v
  {
    AtByte(d, o, Put16(v), 0);
    AtByte(d, o, Put16(v), 1);
  }

  lemma Put16At(d: bytes, o: nat, v: u16)
    ensures At(d, o, Put16(v)) <==> o + 2 <= |d| && Get16(d, o) == v
  {
    if At(d, o, Put16(v)) {
      AtPut16(d, o, v);
    }
  }

  lemma AtPut32(d: bytes, o: nat, v: u32)
    requires At(d, o, Put32(v))
    ensures o + 4 <= |d| && Get32(d, o) == v
  {
    AtSplit(d, o, Put16(v / 0x1_0000), Put16(v % 0x1_0000));
    AtPut16(d, o, v / 0x1_0000);
    AtPut16(d, o + 2, v % 0x1_0000);
  }

  /** Two buffers that agree on four bytes hold the same integers there. */
  lemma SameInt(d: bytes, e: bytes, o: nat)
    requires o + 4 <= |d| <= |e| && forall i :: o <= i < o + 4 ==> d[i] == e[i]
    ensures Get32(d, o) == Get32(e, o) && Get16(d, o) == Get16(e, o) && Get16(d, o + 2) == Get16(e, o + 2)
  {
  }

  // ---------------------------------------------------------------------
  // Lower case: std::tolower in the C locale.

  function LowerByte(b: byte): (r: byte)
    ensures !(0x41 <= r <= 0x5A)
  {
    if 0x41 <= b <= 0x5A then b + 0x20 else b
  }

  function Lower(s: bytes): (r: bytes)
    ensures |r| == |s| && forall i :: 0 <= i < |s| ==> r[i] == LowerByte(s[i])
  {
    seq(|s|, i requires 0 <= i < |s| => LowerByte(s[i]))
  }
}
