/**
 * Fixed-width unsigned integers as bytes, most significant byte first: the
 * layout the serialisers use for every number they write (a uint32 takes 4
 * bytes, a uint256 or a field element 32).
 */
module ByteCodec {
  import opened Digits

  type Byte = x: nat | x < 256

  /** x in `width` bytes, big-endian (x is reduced mod 256^width). */
  function ToBytes(x: nat, width: nat): (bs: seq<Byte>)
    ensures |bs| == width
  {
    ToDigits(x, width, 256)
  }

  /** The number a run of big-endian bytes spells. */
  function FromBytes(bs: seq<Byte>): nat
  {
    BeValue(bs, 256)
  }

  /** Reading back what was written gives the number, when it fits the width. */
  lemma FromToBytes(x: nat, width: nat)
    requires x < Pow(256, width)
    ensures FromBytes(ToBytes(x, width)) == x
  {
    ToDigitsValue(x, width, 256);
  }

  /** Writing back what was read gives the same bytes. */
  lemma ToFromBytes(bs: seq<Byte>)
    ensures ToBytes(FromBytes(bs), |bs|) == bs
  {
    ToDigitsOfValue(bs, 256);
  }

  /** What `width` bytes spell fits the width. */
  lemma FromBytesBound(bs: seq<Byte>)
    ensures FromBytes(bs) < Pow(256, |bs|)
  {
    BeValueBound(bs, 256);
  }

  /** Bytes in a serialised uint32, and in a uint256 or field element. */
  const Uint32Bytes: nat := 4
  const Uint256Bytes: nat := 32

  /** The ranges of a uint32 and of a uint256. */
  lemma Pow256Widths()
    ensures Pow(256, Uint32Bytes) == 0x1_0000_0000
    ensures Pow(256, Uint256Bytes) == 0x1_0000_0000_0000_0000_0000_0000_0000_0000_0000_0000_0000_0000_0000_0000_0000_0000
  {
    assert Pow(256, 4) == 0x1_0000_0000;
    assert Pow(256, 8) == 0x1_0000_0000_0000_0000 by {
      PowAdd(256, 4, 4);
    }
    assert Pow(256, 16) == 0x1_0000_0000_0000_0000_0000_0000_0000_0000 by {
      PowAdd(256, 8, 8);
    }
    PowAdd(256, 16, 16);
  }

  /** The bytes written so far, followed by the bytes still to write. */
  lemma AppendAssoc(a: seq<Byte>, b: seq<Byte>, c: seq<Byte>)
    ensures (a + b) + c == a + (b + c)
  {
  }

  /** The first w + n bytes are the first w bytes followed by the n after them. */
  lemma TakeSplit(r: seq<Byte>, w: nat, n: nat)
    requires w + n <= |r|
    ensures r[..w + n] == r[..w] + r[w..][..n]
  {
  }

  /** A growable byte buffer that serialisers append to (a std::vector<uint8_t> or a Buffer). */
  class ByteBuffer {
    var bytes: seq<Byte>

    constructor ()
      ensures bytes == []
    {
      bytes := [];
    }

    /** write(buf, x) for a `width`-byte unsigned integer: its bytes go on the end. */
    method WriteUint(x: nat, width: nat)
      modifies this
      ensures bytes == old(bytes) + ToBytes(x, width)
    {
      bytes := bytes + ToBytes(x, width);
    }
  }

  /** A read cursor over a byte string; reading advances it. */
  class Cursor {
    const data: seq<Byte>
    var pos: nat

    constructor (data: seq<Byte>)
      ensures this.data == data && pos == 0
    {
      this.data := data;
      pos := 0;
    }

    /** read(it, x) for a `width`-byte unsigned integer: the next `width` bytes, and the cursor moves past them. */
    method ReadUint(width: nat) returns (x: nat)
      requires pos + width <= |data|
      modifies this`pos
      ensures x == FromBytes(data[old(pos)..][..width]) && x < Pow(256, width)
      ensures pos == old(pos) + width && data[pos..] == data[old(pos)..][width..]
    {
      x := FromBytes(data[pos..pos + width]);
      FromBytesBound(data[pos..pos + width]);
      assert data[pos..pos + width] == data[pos..][..width];
      pos := pos + width;
    }
  }
}
