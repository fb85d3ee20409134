// The std::vector<char> that builders append to and the cache rewrites in place.
module Buffers {
  import opened Wire

  /** `d` with `x` written over it at `o`. */
  function Overwrite(d: bytes, o: nat, x: bytes): (r: bytes)
    requires o + |x| <= |d|
    ensures |r| == |d|
    ensures forall i :: 0 <= i < |d| ==> r[i] == if o <= i < o + |x| then x[i - o] else d[i]
  {
    d[..o] + x + d[o + |x|..]
  }

  lemma OverwriteTwice(d: bytes, o: nat, x: bytes, y: bytes)
    requires o + |x| + |y| <= |d|
    ensures Overwrite(Overwrite(d, o, x), o + |x|, y) == Overwrite(d, o, x + y)
  {
  }

  lemma NothingWritten(d: bytes, o: nat)
    requires o <= |d|
    ensures Overwrite(d, o, []) == d
  {
  }

  lemma OverwriteAll(d: bytes, x: bytes)
    requires |x| == |d|
    ensures Overwrite(d, 0, x) == x
  {
  }

  class Buffer {
    var data: bytes

    constructor ()
      ensures data == []
    {
      data := [];
    }

    method Clear()
      modifies this
      ensures data == []
    {
      data := [];
    }

    method Append(x: bytes)
      modifies this
      ensures data == old(data) + x
    {
      data := data + x;
    }

    method Append16(v: u16)
      modifies this
      ensures data == old(data) + Put16(v)
    {
      data := data + [(v / 0x100) as byte];
      data := data + [(v % 0x100) as byte];
      assert data == old(data) + Put16(v);
    }

    method Append32(v: u32)
      modifies this
      ensures data == old(data) + Put32(v)
    {
      var hi, lo := v / 0x1_0000, v % 0x1_0000;
      data := data + [(hi / 0x100) as byte];
      data := data + [(hi % 0x100) as byte];
      data := data + [(lo / 0x100) as byte];
      data := data + [(lo % 0x100) as byte];
      assert data == old(data) + Put32(v);
    }

    method Write16(o: nat, v: u16)
      requires o + 2 <= |data|
      modifies this
      ensures data == Overwrite(old(data), o, Put16(v))
    {
      data := data[o := (v / 0x100) as byte];
      data := data[o + 1 := (v % 0x100) as byte];
      assert data == Overwrite(old(data), o, Put16(v));
    }

    method Write32(o: nat, v: u32)
      requires o + 4 <= |data|
      modifies this
      ensures data == Overwrite(old(data), o, Put32(v))
    {
      Write16(o, v / 0x1_0000);
      Write16(o + 2, v % 0x1_0000);
      assert data == Overwrite(old(data), o, Put32(v));
    }
  }
}
