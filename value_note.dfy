/**
 * The rollup's native value note: a value of some asset owned by a grumpkin
 * point, with the nonce, secret and creator key that go into its commitment,
 * and its fixed-width serialisation.
 */
module ValueNote {
  import opened Digits
  import opened ByteCodec

  type Uint32 = x: nat | x < 0x1_0000_0000
  type Uint256 = x: nat | x < 0x1_0000_0000_0000_0000_0000_0000_0000_0000_0000_0000_0000_0000_0000_0000_0000_0000

  /** A grumpkin affine point, serialised as x then y. */
  datatype AffinePoint = AffinePoint(x: Uint256, y: Uint256)

  datatype ValueNote = ValueNote(
    value: Uint256,
    assetId: Uint32,
    nonce: Uint32,
    owner: AffinePoint,
    secret: Uint256,
    creatorPubkey: Uint256)

  /** The defaulted operator==: the notes agree member by member. */
  function Equal(a: ValueNote, b: ValueNote): (r: bool)
    ensures r <==> a == b
  {
    && a.value == b.value
    && a.assetId == b.assetId
    && a.nonce == b.nonce
    && a.owner.x == b.owner.x && a.owner.y == b.owner.y
    && a.secret == b.secret
    && a.creatorPubkey == b.creatorPubkey
  }

  /** The serialised size, the same for every note. */
  const NoteSize: nat := 5 * Uint256Bytes + 2 * Uint32Bytes

  /** What write appends: value, asset_id, nonce, owner (x then y), secret, creator_pubkey, each at its fixed width. */
  function Encode(note: ValueNote): (bs: seq<Byte>)
    ensures |bs| == NoteSize
  {
    ToBytes(note.value, Uint256Bytes)
      + (ToBytes(note.assetId, Uint32Bytes)
      + (ToBytes(note.nonce, Uint32Bytes)
      + (ToBytes(note.owner.x, Uint256Bytes)
      + (ToBytes(note.owner.y, Uint256Bytes)
      + (ToBytes(note.secret, Uint256Bytes)
      + ToBytes(note.creatorPubkey, Uint256Bytes))))))
  }

  /** What read takes from the front of bs: the same members in the same order, each from the bytes after the previous one. */
  function Decode(bs: seq<Byte>): ValueNote
    requires |bs| >= NoteSize
  {
    Pow256Widths();
    var r1 := bs[Uint256Bytes..];
    var r2 := r1[Uint32Bytes..];
    var r3 := r2[Uint32Bytes..];
    var r4 := r3[Uint256Bytes..];
    var r5 := r4[Uint256Bytes..];
    var r6 := r5[Uint256Bytes..];
    FromBytesBound(bs[..Uint256Bytes]);
    FromBytesBound(r1[..Uint32Bytes]);
    FromBytesBound(r2[..Uint32Bytes]);
    FromBytesBound(r3[..Uint256Bytes]);
    FromBytesBound(r4[..Uint256Bytes]);
    FromBytesBound(r5[..Uint256Bytes]);
    FromBytesBound(r6[..Uint256Bytes]);
    ValueNote(
      FromBytes(bs[..Uint256Bytes]),
      FromBytes(r1[..Uint32Bytes]),
      FromBytes(r2[..Uint32Bytes]),
      AffinePoint(FromBytes(r3[..Uint256Bytes]), FromBytes(r4[..Uint256Bytes])),
      FromBytes(r5[..Uint256Bytes]),
      FromBytes(r6[..Uint256Bytes]))
  }

  /** read(write(note)) is the note: every member comes back from its own bytes. */
  lemma DecodeEncode(note: ValueNote)
    ensures Decode(Encode(note)) == note
  {
    Pow256Widths();
    var t6 := ToBytes(note.creatorPubkey, Uint256Bytes);
    var t5 := ToBytes(note.secret, Uint256Bytes);
    var t4 := ToBytes(note.owner.y, Uint256Bytes);
    var t3 := ToBytes(note.owner.x, Uint256Bytes);
    var t2 := ToBytes(note.nonce, Uint32Bytes);
    var t1 := ToBytes(note.assetId, Uint32Bytes);
    var t0 := ToBytes(note.value, Uint256Bytes);
    var r6 := t6;
    var r5 := t5 + r6;
    var r4 := t4 + r5;
    var r3 := t3 + r4;
    var r2 := t2 + r3;
    var r1 := t1 + r2;
    var bs := t0 + r1;
    assert bs == Encode(note);
    assert bs[..Uint256Bytes] == t0 && bs[Uint256Bytes..] == r1;
    assert r1[..Uint32Bytes] == t1 && r1[Uint32Bytes..] == r2;
    assert r2[..Uint32Bytes] == t2 && r2[Uint32Bytes..] == r3;
    assert r3[..Uint256Bytes] == t3 && r3[Uint256Bytes..] == r4;
    assert r4[..Uint256Bytes] == t4 && r4[Uint256Bytes..] == r5;
    assert r5[..Uint256Bytes] == t5 && r5[Uint256Bytes..] == r6;
    assert r6[..Uint256Bytes] == t6;
    FromToBytes(note.value, Uint256Bytes);
    FromToBytes(note.assetId, Uint32Bytes);
    FromToBytes(note.nonce, Uint32Bytes);
    FromToBytes(note.owner.x, Uint256Bytes);
    FromToBytes(note.owner.y, Uint256Bytes);
    FromToBytes(note.secret, Uint256Bytes);
    FromToBytes(note.creatorPubkey, Uint256Bytes);
  }

  /** write(read(bs)) gives back the bytes read: no byte pattern is lost or normalised. */
  lemma EncodeDecode(bs: seq<Byte>)
    requires |bs| >= NoteSize
    ensures Encode(Decode(bs)) == bs[..NoteSize]
  {
    var r1 := bs[Uint256Bytes..];
    var r2 := r1[Uint32Bytes..];
    var r3 := r2[Uint32Bytes..];
    var r4 := r3[Uint256Bytes..];
    var r5 := r4[Uint256Bytes..];
    var r6 := r5[Uint256Bytes..];
    ToFromBytes(bs[..Uint256Bytes]);
    ToFromBytes(r1[..Uint32Bytes]);
    ToFromBytes(r2[..Uint32Bytes]);
    ToFromBytes(r3[..Uint256Bytes]);
    ToFromBytes(r4[..Uint256Bytes]);
    ToFromBytes(r5[..Uint256Bytes]);
    ToFromBytes(r6[..Uint256Bytes]);
    TakeSplit(r5, Uint256Bytes, Uint256Bytes);
    TakeSplit(r4, Uint256Bytes, 2 * Uint256Bytes);
    TakeSplit(r3, Uint256Bytes, 3 * Uint256Bytes);
    TakeSplit(r2, Uint32Bytes, 4 * Uint256Bytes);
    TakeSplit(r1, Uint32Bytes, 4 * Uint256Bytes + Uint32Bytes);
    TakeSplit(bs, Uint256Bytes, 4 * Uint256Bytes + 2 * Uint32Bytes);
  }

  /** write: the note's bytes are appended to buf, and what buf held stays in front. */
  method Write(buf: ByteBuffer, note: ValueNote)
    modifies buf
    ensures buf.bytes == old(buf.bytes) + Encode(note)
  {
    ghost var t6 := ToBytes(note.creatorPubkey, Uint256Bytes);
    ghost var t5 := ToBytes(note.secret, Uint256Bytes) + t6;
    ghost var t4 := ToBytes(note.owner.y, Uint256Bytes) + t5;
    ghost var t3 := ToBytes(note.owner.x, Uint256Bytes) + t4;
    ghost var t2 := ToBytes(note.nonce, Uint32Bytes) + t3;
    ghost var t1 := ToBytes(note.assetId, Uint32Bytes) + t2;
    ghost var b0 := buf.bytes;
    buf.WriteUint(note.value, Uint256Bytes);
    AppendAssoc(b0, ToBytes(note.value, Uint256Bytes), t1);
    ghost var b1 := buf.bytes;
    buf.WriteUint(note.assetId, Uint32Bytes);
    AppendAssoc(b1, ToBytes(note.assetId, Uint32Bytes), t2);
    ghost var b2 := buf.bytes;
    buf.WriteUint(note.nonce, Uint32Bytes);
    AppendAssoc(b2, ToBytes(note.nonce, Uint32Bytes), t3);
    ghost var b3 := buf.bytes;
    buf.WriteUint(note.owner.x, Uint256Bytes);
    AppendAssoc(b3, ToBytes(note.owner.x, Uint256Bytes), t4);
    ghost var b4 := buf.bytes;
    buf.WriteUint(note.owner.y, Uint256Bytes);
    AppendAssoc(b4, ToBytes(note.owner.y, Uint256Bytes), t5);
    ghost var b5 := buf.bytes;
    buf.WriteUint(note.secret, Uint256Bytes);
    AppendAssoc(b5, ToBytes(note.secret, Uint256Bytes), t6);
    buf.WriteUint(note.creatorPubkey, Uint256Bytes);
  }

  /** read: the members are taken in write's order and the cursor moves past exactly NoteSize bytes. */
  method Read(it: Cursor) returns (note: ValueNote)
    requires it.pos + NoteSize <= |it.data|
    modifies it`pos
    ensures note == Decode(it.data[old(it.pos)..])
    ensures it.pos == old(it.pos) + NoteSize
  {
    Pow256Widths();
    var value := it.ReadUint(Uint256Bytes);
    var assetId := it.ReadUint(Uint32Bytes);
    var nonce := it.ReadUint(Uint32Bytes);
    var x := it.ReadUint(Uint256Bytes);
    var y := it.ReadUint(Uint256Bytes);
    var secret := it.ReadUint(Uint256Bytes);
    var creatorPubkey := it.ReadUint(Uint256Bytes);
    note := ValueNote(value, assetId, nonce, AffinePoint(x, y), secret, creatorPubkey);
  }

  /** Writing a note into an empty buffer and reading it back consumes every byte and gives an equal note. */
  method WriteThenRead(note: ValueNote) returns (back: ValueNote, consumed: nat)
    ensures Equal(back, note) && consumed == NoteSize
  {
    var buf := new ByteBuffer();
    Write(buf, note);
    var it := new Cursor(buf.bytes);
    back := Read(it);
    consumed := it.pos;
    assert it.data[0..] == Encode(note);
    DecodeEncode(note);
  }
}
