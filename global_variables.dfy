/**
 * The global variables of an L2 block (chain id, version, block number,
 * timestamp and the hash of the L1 block) and their buffer form: six field
 * elements, each as 32 big-endian bytes.
 */
module GlobalVariables {
  import opened Wrappers
  import opened Digits
  import opened ByteCodec

  /** The order of the BN254 scalar field, the field an Fr lives in. */
  const FrModulus: nat := 0x30644e72e131a029b85045b68181585d2833e84879b9709143e1f593f0000001

  type Fr = x: nat | x < FrModulus

  /** Bytes in a serialised field element. */
  const FrBytes: nat := Uint256Bytes

  /** An L1 block hash, held as two field elements. */
  datatype TwoFieldHash = TwoFieldHash(first: Fr, second: Fr)

  datatype GlobalVariables = GlobalVariables(
    chainId: Fr,
    version: Fr,
    blockNumber: Fr,
    timestamp: Fr,
    ethBlockHash: TwoFieldHash)

  /** Why a BufferReader could not read a field element. */
  datatype ReadError = EndOfBuffer | NotInField

  /** The serialised size of the global variables: six field elements. */
  const BufferSize: nat := 6 * FrBytes

  /** getFields: the members in declaration order. */
  function GetFields(fields: GlobalVariables): (Fr, Fr, Fr, Fr, TwoFieldHash)
  {
    (fields.chainId, fields.version, fields.blockNumber, fields.timestamp, fields.ethBlockHash)
  }

  /** from: the constructor applied to getFields, so every member is kept. */
  function From(fields: GlobalVariables): (g: GlobalVariables)
    ensures g == fields
  {
    var (chainId, version, blockNumber, timestamp, ethBlockHash) := GetFields(fields);
    GlobalVariables(chainId, version, blockNumber, timestamp, ethBlockHash)
  }

  /** TwoFieldHash.empty(): both fields zero. */
  function EmptyHash(): TwoFieldHash
  {
    TwoFieldHash(0, 0)
  }

  /** empty(): four zero scalars and the empty hash. */
  function Empty(): GlobalVariables
  {
    GlobalVariables(0, 0, 0, 0, EmptyHash())
  }

  /** An Fr's toBuffer: its value in 32 big-endian bytes. */
  function FrToBuffer(x: Fr): (bs: seq<Byte>)
    ensures |bs| == FrBytes
  {
    ToBytes(x, FrBytes)
  }

  /** The hash's toBuffer: its two fields in order. */
  function HashToBuffer(h: TwoFieldHash): (bs: seq<Byte>)
    ensures |bs| == 2 * FrBytes
  {
    FrToBuffer(h.first) + FrToBuffer(h.second)
  }

  /** toBuffer: serializeToBuffer over getFields, each member's bytes after the previous member's. */
  function ToBuffer(g: GlobalVariables): (bs: seq<Byte>)
    ensures |bs| == BufferSize
  {
    var (chainId, version, blockNumber, timestamp, ethBlockHash) := GetFields(g);
    FrToBuffer(chainId)
      + (FrToBuffer(version)
      + (FrToBuffer(blockNumber)
      + (FrToBuffer(timestamp)
      + HashToBuffer(ethBlockHash))))
  }

  /**
   * BufferReader.readFr on the unread bytes bs: the next 32 bytes as a
   * field element, and the bytes after them.
   */
  function ReadFr(bs: seq<Byte>): Result<(Fr, seq<Byte>), ReadError>
  {
    if |bs| < FrBytes then Failure(EndOfBuffer)
    else
      var v := FromBytes(bs[..FrBytes]);
      if v >= FrModulus then Failure(NotInField) else Success((v, bs[FrBytes..]))
  }

  /**
   * fromBuffer on a reader whose unread bytes are bs: six readFr calls in
   * argument order, the last two forming the hash; the result carries the
   * bytes still unread, which is where the reader is left.
   */
  function FromBuffer(bs: seq<Byte>): Result<(GlobalVariables, seq<Byte>), ReadError>
  {
    var r0 := ReadFr(bs);
    if r0.Failure? then Failure(r0.error) else
    var r1 := ReadFr(r0.value.1);
    if r1.Failure? then Failure(r1.error) else
    var r2 := ReadFr(r1.value.1);
    if r2.Failure? then Failure(r2.error) else
    var r3 := ReadFr(r2.value.1);
    if r3.Failure? then Failure(r3.error) else
    var r4 := ReadFr(r3.value.1);
    if r4.Failure? then Failure(r4.error) else
    var r5 := ReadFr(r4.value.1);
    if r5.Failure? then Failure(r5.error) else
    Success((GlobalVariables(r0.value.0, r1.value.0, r2.value.0, r3.value.0, TwoFieldHash(r4.value.0, r5.value.0)), r5.value.1))
  }

  // ----- reading one field element -----

  /** Every field element fits in 32 bytes. */
  lemma FrFitsBuffer(x: Fr)
    ensures x < Pow(256, FrBytes)
  {
    Pow256Widths();
  }

  /** readFr after an Fr's toBuffer gives the element back and stops right after it. */
  lemma ReadFrToBuffer(x: Fr, rest: seq<Byte>)
    ensures ReadFr(FrToBuffer(x) + rest) == Success((x, rest))
  {
    var bs := FrToBuffer(x) + rest;
    assert bs[..FrBytes] == FrToBuffer(x);
    assert bs[FrBytes..] == rest;
    FrFitsBuffer(x);
    FromToBytes(x, FrBytes);
  }

  /** A successful readFr consumed exactly the toBuffer of what it read. */
  lemma ReadFrConsumes(bs: seq<Byte>)
    requires ReadFr(bs).Success?
    ensures bs == FrToBuffer(ReadFr(bs).value.0) + ReadFr(bs).value.1
  {
    ToFromBytes(bs[..FrBytes]);
    assert bs == bs[..FrBytes] + bs[FrBytes..];
  }

  // ----- the buffer form -----

  /** toBuffer writes the six field elements, each as 32 bytes, in this order. */
  function FieldList(g: GlobalVariables): (fs: seq<Fr>)
    ensures |fs| == 6
  {
    [g.chainId, g.version, g.blockNumber, g.timestamp, g.ethBlockHash.first, g.ethBlockHash.second]
  }

  /** Field elements written one after the other. */
  function FrsToBuffer(fs: seq<Fr>): (bs: seq<Byte>)
    ensures |bs| == FrBytes * |fs|
  {
    if fs == [] then [] else FrToBuffer(fs[0]) + FrsToBuffer(fs[1..])
  }

  lemma FrsToBufferCons(x: Fr, fs: seq<Fr>)
    ensures FrsToBuffer([x] + fs) == FrToBuffer(x) + FrsToBuffer(fs)
  {
    assert ([x] + fs)[1..] == fs;
  }

  /** toBuffer is chainId, version, blockNumber, timestamp and the hash's two fields, in that order. */
  lemma ToBufferIsFieldList(g: GlobalVariables)
    ensures ToBuffer(g) == FrsToBuffer(FieldList(g))
  {
    var h := g.ethBlockHash;
    var f5 := [h.second];
    var f4 := [h.first] + f5;
    var f3 := [g.timestamp] + f4;
    var f2 := [g.blockNumber] + f3;
    var f1 := [g.version] + f2;
    assert FieldList(g) == [g.chainId] + f1;
    assert FrsToBuffer(f5) == FrToBuffer(h.second) by { FrsToBufferCons(h.second, []); }
    assert FrsToBuffer(f4) == HashToBuffer(h) by { FrsToBufferCons(h.first, f5); }
    assert FrsToBuffer(f3) == FrToBuffer(g.timestamp) + HashToBuffer(h) by { FrsToBufferCons(g.timestamp, f4); }
    assert FrsToBuffer(f2) == FrToBuffer(g.blockNumber) + FrsToBuffer(f3) by { FrsToBufferCons(g.blockNumber, f3); }
    assert FrsToBuffer(f1) == FrToBuffer(g.version) + FrsToBuffer(f2) by { FrsToBufferCons(g.version, f2); }
    FrsToBufferCons(g.chainId, f1);
  }

  /** fromBuffer after toBuffer gives the same global variables and leaves the reader just past them. */
  lemma FromBufferToBuffer(g: GlobalVariables, rest: seq<Byte>)
    ensures FromBuffer(ToBuffer(g) + rest) == Success((g, rest))
  {
    var h := g.ethBlockHash;
    var b0, b1, b2, b3 := FrToBuffer(g.chainId), FrToBuffer(g.version), FrToBuffer(g.blockNumber), FrToBuffer(g.timestamp);
    var b4, b5 := FrToBuffer(h.first), FrToBuffer(h.second);
    var t5 := b5 + rest;
    var t4 := b4 + t5;
    var t3 := b3 + t4;
    var t2 := b2 + t3;
    var t1 := b1 + t2;
    var t0 := b0 + t1;
    assert ToBuffer(g) + rest == t0 by {
      AppendAssoc(b4, b5, rest);
      AppendAssoc(b3, b4 + b5, rest);
      AppendAssoc(b2, b3 + (b4 + b5), rest);
      AppendAssoc(b1, b2 + (b3 + (b4 + b5)), rest);
      AppendAssoc(b0, b1 + (b2 + (b3 + (b4 + b5))), rest);
    }
    assert ReadFr(t0) == Success((g.chainId, t1)) by { ReadFrToBuffer(g.chainId, t1); }
    assert ReadFr(t1) == Success((g.version, t2)) by { ReadFrToBuffer(g.version, t2); }
    assert ReadFr(t2) == Success((g.blockNumber, t3)) by { ReadFrToBuffer(g.blockNumber, t3); }
    assert ReadFr(t3) == Success((g.timestamp, t4)) by { ReadFrToBuffer(g.timestamp, t4); }
    assert ReadFr(t4) == Success((h.first, t5)) by { ReadFrToBuffer(h.first, t5); }
    assert ReadFr(t5) == Success((h.second, rest)) by { ReadFrToBuffer(h.second, rest); }
  }

  /** fromBuffer reads exactly six field elements: what it consumed is the toBuffer of what it returned. */
  lemma FromBufferConsumes(bs: seq<Byte>)
    requires FromBuffer(bs).Success?
    ensures bs == ToBuffer(FromBuffer(bs).value.0) + FromBuffer(bs).value.1
  {
    var r0 := ReadFr(bs);
    var r1 := ReadFr(r0.value.1);
    var r2 := ReadFr(r1.value.1);
    var r3 := ReadFr(r2.value.1);
    var r4 := ReadFr(r3.value.1);
    var r5 := ReadFr(r4.value.1);
    var g := GlobalVariables(r0.value.0, r1.value.0, r2.value.0, r3.value.0, TwoFieldHash(r4.value.0, r5.value.0));
    var rest := r5.value.1;
    assert FromBuffer(bs) == Success((g, rest));
    ReadFrConsumes(bs);
    ReadFrConsumes(r0.value.1);
    ReadFrConsumes(r1.value.1);
    ReadFrConsumes(r2.value.1);
    ReadFrConsumes(r3.value.1);
    ReadFrConsumes(r4.value.1);
    var b0, b1, b2, b3 := FrToBuffer(r0.value.0), FrToBuffer(r1.value.0), FrToBuffer(r2.value.0), FrToBuffer(r3.value.0);
    var b4, b5 := FrToBuffer(r4.value.0), FrToBuffer(r5.value.0);
    assert bs == b0 + (b1 + (b2 + (b3 + (b4 + (b5 + rest)))));
    AppendAssoc(b4, b5, rest);
    AppendAssoc(b3, b4 + b5, rest);
    AppendAssoc(b2, b3 + (b4 + b5), rest);
    AppendAssoc(b1, b2 + (b3 + (b4 + b5)), rest);
    AppendAssoc(b0, b1 + (b2 + (b3 + (b4 + b5))), rest);
    assert ToBuffer(g) == b0 + (b1 + (b2 + (b3 + (b4 + b5))));
  }

  /** fromBuffer succeeds exactly on the buffers that start with some global variables' toBuffer. */
  lemma FromBufferSucceeds(bs: seq<Byte>, g: GlobalVariables, rest: seq<Byte>)
    ensures FromBuffer(bs) == Success((g, rest)) <==> bs == ToBuffer(g) + rest
  {
    if bs == ToBuffer(g) + rest {
      FromBufferToBuffer(g, rest);
    }
    if FromBuffer(bs) == Success((g, rest)) {
      FromBufferConsumes(bs);
    }
  }

  /** Fewer than six field elements' worth of bytes makes fromBuffer fail. */
  lemma ShortBufferFails(bs: seq<Byte>)
    requires |bs| < BufferSize
    ensures FromBuffer(bs).Failure?
  {
    if FromBuffer(bs).Success? {
      FromBufferConsumes(bs);
    }
  }

  // ----- empty() -----

  lemma {:induction false} ToBytesOfZero(width: nat)
    ensures ToBytes(0, width) == seq(width, _ => 0)
  {
    if width > 0 {
      ToBytesOfZero(width - 1);
      assert ToBytes(0, width) == ToBytes(0, width - 1) + [0];
    }
  }

  /** empty() serialises to 192 zero bytes, and those bytes read back as empty(). */
  lemma EmptyIsZeroBytes()
    ensures ToBuffer(Empty()) == seq(BufferSize, _ => 0)
    ensures FromBuffer(seq(BufferSize, _ => 0)) == Success((Empty(), []))
  {
    ToBytesOfZero(FrBytes);
    var z := FrToBuffer(0);
    assert ToBuffer(Empty()) == z + (z + (z + (z + (z + z))));
    assert ToBuffer(Empty()) == seq(BufferSize, _ => 0);
    FromBufferToBuffer(Empty(), []);
    assert ToBuffer(Empty()) + [] == ToBuffer(Empty());
  }
}
