/**
 * packed_bytes: a byte string packed big-endian into limbs of
 * BYTES_PER_ELEMENT bytes each, the last limb left-aligned (its unused low
 * bytes are zero).
 *
 * Only native values are modelled. Limbs are naturals (the field reduction is
 * not applied), BYTES_PER_ELEMENT is the parameter `b` of each object, and a
 * circuit constraint the source adds (`assert_equal`) is reported as a
 * boolean saying whether it holds on the native values.
 */
module PackedBytes {
  import opened Digits

  type Byte = x: nat | x < 256
  type Bit = x: nat | x < 2

  function Min(a: nat, b: nat): nat
  {
    if a < b then a else b
  }

  /** num_elements: num_bytes / B rounded up. */
  function NumElements(numBytes: nat, b: nat): nat
    requires b > 0
  {
    numBytes / b + (if numBytes % b != 0 then 1 else 0)
  }

  /** num_elements is the least number of B-byte limbs holding num_bytes bytes. */
  lemma NumElementsIsCeiling(numBytes: nat, b: nat)
    requires b > 0
    ensures var ne := NumElements(numBytes, b);
      && numBytes <= ne * b
      && (ne > 0 ==> (ne - 1) * b < numBytes)
      && (ne == 0 <==> numBytes == 0)
  {
    var q, r := numBytes / b, numBytes % b;
    assert numBytes == q * b + r;
    assert (q + 1) * b == q * b + b;
    if r == 0 && q > 0 {
      assert (q - 1) * b == q * b - b;
    }
  }

  /** bytes_in_limb: the last limb holds what is left of num_bytes, every other limb B bytes. */
  function BytesInLimb(numBytes: nat, numLimbs: nat, i: nat, b: nat): int
  {
    if i == numLimbs - 1 then numBytes - i * b else b
  }

  /** With num_elements limbs, every limb holds between 1 and B bytes, and they tile num_bytes. */
  lemma BytesInLimbRange(numBytes: nat, i: nat, b: nat)
    requires b > 0 && i < NumElements(numBytes, b)
    ensures var ne := NumElements(numBytes, b);
      var w := BytesInLimb(numBytes, ne, i, b);
      && 0 < w <= b
      && i * b + w <= numBytes
      && (i < ne - 1 ==> w == b)
      && (i == ne - 1 ==> i * b + w == numBytes)
  {
    var ne := NumElements(numBytes, b);
    NumElementsIsCeiling(numBytes, b);
    assert (ne - 1) * b + b == ne * b;
    if i < ne - 1 {
      MulMonotone(i + 1, ne - 1, b);
      assert (i + 1) * b == i * b + b;
    }
  }

  /** uint256_t::slice(start, end): bits start .. end - 1 of x as a number. */
  function Slice(x: nat, start: nat, end: nat): (r: nat)
    requires start <= end
    ensures r < Pow(2, end - start)
  {
    PowPositive(2, start);
    PowPositive(2, end - start);
    (x / Pow(2, start)) % Pow(2, end - start)
  }

  /** A byte-aligned slice is the number spelt by a run of the limb's bytes, most significant first. */
  lemma ByteSlice(x: nat, b: nat, lo: nat, hi: nat)
    requires lo <= hi <= b
    ensures Slice(x, 8 * (b - hi), 8 * (b - lo)) == BeValue(ToDigits(x, b, 256)[lo..hi], 256)
  {
    Pow2Bytes(b - hi);
    Pow2Bytes(hi - lo);
    assert 8 * (b - lo) - 8 * (b - hi) == 8 * (hi - lo);
    DigitRange(x, b, lo, hi, 256);
  }

  /** Byte j (from the most significant end) of a B-byte limb, as get_value reads it. */
  function ByteOfLimb(x: nat, j: nat, b: nat): Byte
    requires j < b
  {
    Pow2Bytes(1);
    assert 8 * (b - j) - 8 * (b - 1 - j) == 8;
    Slice(x, 8 * (b - 1 - j), 8 * (b - j))
  }

  lemma ByteOfLimbIsDigit(x: nat, j: nat, b: nat)
    requires j < b
    ensures ByteOfLimb(x, j, b) == ToDigits(x, b, 256)[j]
  {
    ByteSlice(x, b, j, j + 1);
    assert b - 1 - j == b - (j + 1);
    var ds := ToDigits(x, b, 256)[j..j + 1];
    assert ds == [] + [ds[0]];
    BeValueSnoc([], ds[0], 256);
  }

  /** Reading byte j of a left-aligned limb gives back the j-th packed byte. */
  lemma ByteOfLeftAligned(ds: seq<nat>, j: nat, b: nat)
    requires AllBelow(ds, 256) && j < |ds| <= b
    ensures ByteOfLimb(LeftAligned(ds, 256, b), j, b) == ds[j]
  {
    var padded := ds + Zeros(b - |ds|);
    LeftAlignedIsPadded(ds, 256, b);
    assert AllBelow(padded, 256);
    ToDigitsOfValue(padded, 256);
    ByteOfLimbIsDigit(LeftAligned(ds, 256, b), j, b);
  }

  function UnpackedByte(limbs: seq<nat>, numBytes: nat, b: nat, k: nat): Byte
    requires 0 < b && |limbs| == NumElements(numBytes, b) && k < numBytes
  {
    NumElementsIsCeiling(numBytes, b);
    QuotientBound(k, b, |limbs|);
    ByteOfLimb(limbs[k / b], k % b, b)
  }

  /** get_value: byte i * B + j of the result is byte j (from the top) of limb i. */
  function Unpack(limbs: seq<nat>, numBytes: nat, b: nat): (bytes: seq<Byte>)
    requires 0 < b && |limbs| == NumElements(numBytes, b)
  {
    seq(numBytes, k requires 0 <= k < numBytes => UnpackedByte(limbs, numBytes, b, k))
  }

  /** The i-th run of b items (the last one possibly shorter): what a constructor packs into limb i. */
  function Chunk<T>(input: seq<T>, i: nat, b: nat): (c: seq<T>)
    ensures |c| <= b
  {
    assert (i + 1) * b == i * b + b;
    input[Min(i * b, |input|)..Min((i + 1) * b, |input|)]
  }

  /** The byte constructor: limb i is the i-th run of B bytes, left-aligned. */
  function PackBytes(input: seq<Byte>, b: nat): (limbs: seq<nat>)
    requires b > 0
    ensures |limbs| == NumElements(|input|, b)
  {
    seq(NumElements(|input|, b), i requires 0 <= i => LeftAligned(Chunk(input, i, b), 256, b))
  }

  /** get_value after the byte constructor is the identity. */
  lemma {:induction false} UnpackPackBytes(input: seq<Byte>, b: nat)
    requires b > 0
    ensures Unpack(PackBytes(input, b), |input|, b) == input
  {
    var limbs := PackBytes(input, b);
    var out := Unpack(limbs, |input|, b);
    forall k | 0 <= k < |input|
      ensures out[k] == input[k]
    {
      UnpackedByteOfPack(input, b, k);
    }
  }

  /** Byte k of the packed bytes is byte k mod B, from the top, of limb k div B, the limb its run went into. */
  lemma UnpackedByteOfPack(input: seq<Byte>, b: nat, k: nat)
    requires b > 0 && k < |input|
    ensures UnpackedByte(PackBytes(input, b), |input|, b, k) == input[k]
  {
    assert 0 <= k / b < NumElements(|input|, b) && k % b < |Chunk(input, k / b, b)|
      && Chunk(input, k / b, b)[k % b] == input[k] by {
      ChunkOfIndex(input, b, k);
    }
    var i: nat, j: nat := k / b, k % b;
    var c := Chunk(input, i, b);
    assert UnpackedByte(PackBytes(input, b), |input|, b, k) == ByteOfLimb(PackBytes(input, b)[i], j, b) by {
      UnpackedByteAt(PackBytes(input, b), |input|, b, k);
    }
    assert PackBytes(input, b)[i] == LeftAligned(c, 256, b) by {
      PackBytesAt(input, b, i);
    }
    assert ByteOfLimb(LeftAligned(c, 256, b), j, b) == input[k] by {
      ByteOfLeftAligned(c, j, b);
    }
  }

  /** Byte k of the unpacked string is byte k mod B of limb k div B. */
  lemma UnpackedByteAt(limbs: seq<nat>, numBytes: nat, b: nat, k: nat)
    requires 0 < b && |limbs| == NumElements(numBytes, b) && k < numBytes
    ensures 0 <= k / b < |limbs| && k % b < b
    ensures UnpackedByte(limbs, numBytes, b, k) == ByteOfLimb(limbs[k / b], k % b, b)
  {
    NumElementsIsCeiling(numBytes, b);
    QuotientBound(k, b, |limbs|);
  }

  /** Item k of a sequence is item k mod B of its run k div B. */
  lemma ChunkOfIndex<T>(input: seq<T>, b: nat, k: nat)
    requires b > 0 && k < |input|
    ensures k / b < NumElements(|input|, b)
    ensures k % b < |Chunk(input, k / b, b)| && Chunk(input, k / b, b)[k % b] == input[k]
  {
    var i, j := k / b, k % b;
    assert k == i * b + j;
    assert (i + 1) * b == i * b + b;
    NumElementsIsCeiling(|input|, b);
    QuotientBound(k, b, NumElements(|input|, b));
  }

  /** The bytes among the first n that the byte constructor packs into limb l. */
  function PartialChunk(input: seq<Byte>, n: nat, l: nat, b: nat): (c: seq<Byte>)
    requires n <= |input|
    ensures |c| <= b
  {
    assert (l + 1) * b == l * b + b;
    input[Min(l * b, n)..Min((l + 1) * b, n)]
  }

  /** A byte shifted left by shift bits; a limb has room for it when the shift is below 8 times B. */
  function ShiftLeft(x: Byte, shift: nat): nat
  {
    MulMonotone(0, x, Pow(2, shift));
    x * Pow(2, shift)
  }

  /** The limbs after the byte constructor's loop has consumed the first n input bytes. */
  function PartialPack(input: seq<Byte>, n: nat, b: nat): (limbs: seq<nat>)
    requires b > 0 && n <= |input|
    ensures |limbs| == NumElements(|input|, b)
  {
    seq(NumElements(|input|, b), l requires 0 <= l => LeftAligned(PartialChunk(input, n, l, b), 256, b))
  }

  /** One step of the byte loop adds input[n] at byte n mod B of limb n div B. */
  lemma PartialPackStep(input: seq<Byte>, n: nat, b: nat)
    requires b > 0 && n < |input|
    ensures n / b < NumElements(|input|, b) && n % b < b
    ensures PartialPack(input, n + 1, b)
         == PartialPack(input, n, b)[n / b := PartialPack(input, n, b)[n / b] + ShiftLeft(input[n], (b - 1 - n % b) * 8)]
  {
    ByteLimbInRange(n, |input|, b);
    PartialPackChanged(input, n, b);
    PartialPackOthers(input, n, b);
    UpdatedAt(PartialPack(input, n, b), PartialPack(input, n + 1, b), n / b,
      PartialPack(input, n, b)[n / b] + ShiftLeft(input[n], (b - 1 - n % b) * 8));
  }

  /** Limb n div B of the loop's limbs gains input[n] at its byte n mod B. */
  lemma PartialPackChanged(input: seq<Byte>, n: nat, b: nat)
    requires b > 0 && n < |input|
    ensures n / b < NumElements(|input|, b) && n % b < b
    ensures PartialPack(input, n + 1, b)[n / b]
         == PartialPack(input, n, b)[n / b] + ShiftLeft(input[n], (b - 1 - n % b) * 8)
  {
    ByteLimbInRange(n, |input|, b);
    PartialPackAt(input, n, b, n / b);
    PartialPackAt(input, n + 1, b, n / b);
    PartialChunkStep(input, n, b);
  }

  /** Limb l of the loop's limbs is the left-aligned run of the bytes consumed so far that it takes. */
  lemma PartialPackAt(input: seq<Byte>, n: nat, b: nat, l: nat)
    requires b > 0 && n <= |input| && l < NumElements(|input|, b)
    ensures PartialPack(input, n, b)[l] == LeftAligned(PartialChunk(input, n, l, b), 256, b)
  {
  }

  /** Every other limb of the loop's limbs is left as it was. */
  lemma PartialPackOthers(input: seq<Byte>, n: nat, b: nat)
    requires b > 0 && n < |input|
    ensures forall l :: 0 <= l < NumElements(|input|, b) && l != n / b ==>
      PartialPack(input, n + 1, b)[l] == PartialPack(input, n, b)[l]
  {
    forall l | 0 <= l < NumElements(|input|, b) && l != n / b
      ensures PartialPack(input, n + 1, b)[l] == PartialPack(input, n, b)[l]
    {
      PartialChunkOther(input, n, l, b);
    }
  }

  /** A sequence that differs from another only at index i is the other updated at i. */
  lemma UpdatedAt(before: seq<nat>, after: seq<nat>, i: nat, v: nat)
    requires |after| == |before| && i < |before| && after[i] == v
    requires forall l :: 0 <= l < |before| && l != i ==> after[l] == before[l]
    ensures after == before[i := v]
  {
  }

  /** Byte n of len bytes goes into limb n div B, which exists. */
  lemma ByteLimbInRange(n: nat, len: nat, b: nat)
    requires b > 0 && n < len
    ensures 0 <= n / b < NumElements(len, b) && n % b < b
  {
    assert n == n / b * b + n % b;
    NumElementsIsCeiling(len, b);
    QuotientBound(n, b, NumElements(len, b));
  }

  /** Limb n div B takes input[n] as its byte n mod B, counted from the top. */
  lemma PartialChunkStep(input: seq<Byte>, n: nat, b: nat)
    requires b > 0 && n < |input|
    ensures LeftAligned(PartialChunk(input, n + 1, n / b, b), 256, b)
         == LeftAligned(PartialChunk(input, n, n / b, b), 256, b) + ShiftLeft(input[n], (b - 1 - n % b) * 8)
  {
    var l0, j := n / b, n % b;
    assert n == l0 * b + j;
    var c := PartialChunk(input, n, l0, b);
    assert (l0 + 1) * b == l0 * b + b;
    assert PartialChunk(input, n + 1, l0, b) == c + [input[n]];
    LeftAlignedSnoc(c, input[n], 256, b);
    Pow2Bytes(b - 1 - j);
    assert (b - 1 - j) * 8 == 8 * (b - 1 - j);
  }

  /** Byte n does not belong to any limb but limb n div B. */
  lemma PartialChunkOther(input: seq<Byte>, n: nat, l: nat, b: nat)
    requires b > 0 && n < |input| && l != n / b
    ensures PartialChunk(input, n + 1, l, b) == PartialChunk(input, n, l, b)
  {
    var l0 := n / b;
    assert n == l0 * b + n % b;
    assert (l + 1) * b == l * b + b;
    assert (l0 + 1) * b == l0 * b + b;
    if l < l0 {
      MulMonotone(l + 1, l0, b);
    } else {
      MulMonotone(l0 + 1, l, b);
    }
  }

  /** The limbs after the byte constructor's loop has added the first n input bytes, one step at a time. */
  function LoopLimbs(input: seq<Byte>, n: nat, b: nat): (limbs: seq<nat>)
    requires b > 0 && n <= |input|
    ensures |limbs| == NumElements(|input|, b)
  {
    if n == 0 then Zeros(NumElements(|input|, b))
    else
      var prev := LoopLimbs(input, n - 1, b);
      ByteLimbInRange(n - 1, |input|, b);
      prev[(n - 1) / b := prev[(n - 1) / b] + ShiftLeft(input[n - 1], (b - 1 - (n - 1) % b) * 8)]
  }

  /** Step by step, the loop builds the limbs of the bytes it has consumed so far. */
  lemma {:induction false} LoopLimbsArePartialPack(input: seq<Byte>, n: nat, b: nat)
    requires b > 0 && n <= |input|
    ensures LoopLimbs(input, n, b) == PartialPack(input, n, b)
    decreases n
  {
    if n == 0 {
      PartialPackEnds(input, b);
    } else {
      assert LoopLimbs(input, n - 1, b) == PartialPack(input, n - 1, b) by {
        LoopLimbsArePartialPack(input, n - 1, b);
      }
      LoopLimbsStep(input, n - 1, b);
    }
  }

  /** One more byte keeps the loop's limbs equal to the limbs of the bytes consumed so far. */
  lemma LoopLimbsStep(input: seq<Byte>, m: nat, b: nat)
    requires b > 0 && m < |input| && LoopLimbs(input, m, b) == PartialPack(input, m, b)
    ensures LoopLimbs(input, m + 1, b) == PartialPack(input, m + 1, b)
  {
    LoopLimbsUnfold(input, m, b);
    PartialPackStep(input, m, b);
  }

  /** The loop's limbs after byte m are those before it with input[m] added at byte m mod B of limb m div B. */
  lemma LoopLimbsUnfold(input: seq<Byte>, m: nat, b: nat)
    requires b > 0 && m < |input|
    ensures 0 <= m / b < NumElements(|input|, b) && m % b < b
    ensures LoopLimbs(input, m + 1, b)
         == LoopLimbs(input, m, b)[m / b := LoopLimbs(input, m, b)[m / b] + ShiftLeft(input[m], (b - 1 - m % b) * 8)]
  {
    ByteLimbInRange(m, |input|, b);
  }

  lemma PartialPackEnds(input: seq<Byte>, b: nat)
    requires b > 0
    ensures PartialPack(input, 0, b) == Zeros(NumElements(|input|, b))
    ensures PartialPack(input, |input|, b) == PackBytes(input, b)
  {
    forall l | 0 <= l < NumElements(|input|, b)
      ensures PartialChunk(input, 0, l, b) == []
      ensures PartialChunk(input, |input|, l, b) == Chunk(input, l, b)
    {
    }
  }

  // ----- the field-vector constructor -----

  /** num_inputs: the last limb takes the inputs that are left, every other limb inputs_per_limb. */
  function InputsInLimb(numInputs: nat, inputsPerLimb: nat, numLimbs: nat, i: nat): int
  {
    if i == numLimbs - 1 then numInputs - i * inputsPerLimb else inputsPerLimb
  }

  /** Quotient and remainder of k by d, as naturals. */
  lemma Split(k: nat, d: nat) returns (q: nat, r: nat)
    requires d > 0
    ensures k == q * d + r && r < d
  {
    q, r := k / d, k % d;
  }

  lemma MulCancel(a: nat, d: nat, c: nat)
    requires c > 0 && a * c <= d * c
    ensures a <= d
  {
    if a > d {
      MulGap(a, d, c);
    }
  }

  /**
   * With B a multiple of bytes_per_input, limb i takes between 1 and
   * inputs_per_limb inputs, all of them inside the input vector, and they
   * fill exactly bytes_in_limb bytes.
   */
  lemma FieldsLayout(n: nat, bpi: nat, b: nat, i: nat)
    requires 0 < bpi && 0 < b && b % bpi == 0 && i < NumElements(bpi * n, b)
    ensures var ipl := b / bpi;
      var ne := NumElements(bpi * n, b);
      var count := InputsInLimb(n, ipl, ne, i);
      && 0 < count <= ipl
      && i * ipl + count <= n
      && count * bpi == BytesInLimb(bpi * n, ne, i, b)
      && i * b == (i * ipl) * bpi
  {
    var ipl := b / bpi;
    var ne := NumElements(bpi * n, b);
    var start := i * ipl;
    assert b == ipl * bpi;
    assert i * b == start * bpi by {
      MulAssoc(i, ipl, bpi);
    }
    var w := BytesInLimb(bpi * n, ne, i, b);
    assert 0 < w <= b && i * b + w <= bpi * n && (i < ne - 1 ==> w == b) by {
      BytesInLimbRange(bpi * n, i, b);
    }
    if i == ne - 1 {
      LastLimbLayout(n, bpi, ipl, start, w);
    } else {
      FullLimbLayout(n, bpi, ipl, start, i * b);
    }
  }

  /** The last limb takes the inputs from start on, and they fill its w bytes. */
  lemma LastLimbLayout(n: nat, bpi: nat, ipl: nat, start: nat, w: int)
    requires 0 < bpi && 0 < w <= ipl * bpi && w == bpi * n - start * bpi
    ensures start < n && n - start <= ipl && (n - start) * bpi == w
  {
    MulComm(bpi, n);
    if n <= start {
      MulMonotone(n, start, bpi);
    }
    MulDistrib(n - start, start, bpi);
    MulCancel(n - start, ipl, bpi);
  }

  /** A limb before the last ends, ipl inputs after start, within the inputs. */
  lemma FullLimbLayout(n: nat, bpi: nat, ipl: nat, start: nat, at: nat)
    requires 0 < bpi && at == start * bpi && at + ipl * bpi <= bpi * n
    ensures start + ipl <= n
  {
    MulDistrib(start, ipl, bpi);
    MulComm(bpi, n);
    MulCancel(start + ipl, n, bpi);
  }

  /**
   * The num_elements limbs of the field-vector constructor, inputs_per_limb =
   * B / bytes_per_input inputs each, have room for all n inputs. When
   * bytes_per_input divides B this always holds (DivisibleFits); otherwise the
   * last limb can be handed more than inputs_per_limb inputs.
   */
  predicate FieldsFit(n: nat, bpi: nat, b: nat)
    requires 0 < bpi <= b
  {
    n <= NumElements(bpi * n, b) * (b / bpi)
  }

  /** inputs_per_limb is at least one, and that many inputs fit in a limb. */
  lemma InputsPerLimbRange(bpi: nat, b: nat)
    requires 0 < bpi <= b
    ensures 0 < b / bpi && (b / bpi) * bpi <= b
  {
    assert b == (b / bpi) * bpi + b % bpi;
  }

  /** m limbs of ipl inputs, the last taking what is left, hold all n inputs when m - 1 limbs are too few and m are enough. */
  lemma LimbsHoldInputs(n: nat, ipl: nat, m: nat, i: nat)
    requires 0 < ipl && i < m && (m - 1) * ipl < n <= m * ipl
    ensures var count := InputsInLimb(n, ipl, m, i);
      0 < count <= ipl && i * ipl + count <= n
  {
    assert m * ipl == (m - 1) * ipl + ipl;
    if i < m - 1 {
      MulMonotone(i + 1, m - 1, ipl);
      assert (i + 1) * ipl == i * ipl + ipl;
    }
  }

  /** k limbs of B bytes that hold fewer than bpi * n bytes hold fewer than n inputs of ipl per limb. */
  lemma PrefixLimbsShort(n: nat, bpi: nat, b: nat, ipl: nat, k: nat)
    requires 0 < bpi && ipl * bpi <= b && k * b < bpi * n
    ensures k * ipl < n
  {
    MulAssoc(k, ipl, bpi);
    MulMonotone(ipl * bpi, b, k);
    MulComm(k, b);
    MulComm(k, ipl * bpi);
    MulComm(bpi, n);
    if n <= k * ipl {
      MulMonotone(n, k * ipl, bpi);
    }
  }

  /**
   * When the limbs have room for every input, limb i takes between 1 and
   * inputs_per_limb inputs, all of them inside the input vector, and they fit in
   * its B bytes.
   */
  lemma FieldsLayoutFit(n: nat, bpi: nat, b: nat, i: nat)
    requires 0 < bpi <= b && FieldsFit(n, bpi, b) && i < NumElements(bpi * n, b)
    ensures var ipl := b / bpi;
      var count := InputsInLimb(n, ipl, NumElements(bpi * n, b), i);
      && 0 < ipl && 0 < count <= ipl && i * ipl + count <= n && count * bpi <= b
  {
    var ipl := b / bpi;
    var ne := NumElements(bpi * n, b);
    assert 0 < ipl && ipl * bpi <= b by {
      InputsPerLimbRange(bpi, b);
    }
    assert (ne - 1) * b < bpi * n by {
      NumElementsIsCeiling(bpi * n, b);
    }
    assert (ne - 1) * ipl < n by {
      PrefixLimbsShort(n, bpi, b, ipl, ne - 1);
    }
    LimbsHoldInputs(n, ipl, ne, i);
    var count := InputsInLimb(n, ipl, ne, i);
    MulMonotone(count, ipl, bpi);
  }

  /** When bytes_per_input divides B, the limbs always have room for every input. */
  lemma DivisibleFits(n: nat, bpi: nat, b: nat)
    requires 0 < bpi && 0 < b && b % bpi == 0
    ensures bpi <= b && FieldsFit(n, bpi, b)
  {
    var ipl := b / bpi;
    assert b == ipl * bpi && 0 < ipl;
    assert bpi <= b by {
      MulMonotone(1, ipl, bpi);
    }
    var ne := NumElements(bpi * n, b);
    assert bpi * n <= ne * b by {
      NumElementsIsCeiling(bpi * n, b);
    }
    FitFromCeiling(n, bpi, b, ipl, ne);
  }

  /** When B is ipl inputs of bpi bytes, ne limbs covering n * bpi bytes hold n inputs. */
  lemma FitFromCeiling(n: nat, bpi: nat, b: nat, ipl: nat, ne: nat)
    requires 0 < bpi && b == ipl * bpi && bpi * n <= ne * b
    ensures n <= ne * ipl
  {
    MulAssoc(ne, ipl, bpi);
    MulComm(bpi, n);
    MulCancel(n, ne * ipl, bpi);
  }

  /** The field-vector constructor's limb: `count` inputs from `start`, input j shifted to byte j * bpi. */
  function FieldsLimb(input: seq<nat>, start: nat, count: nat, bpi: nat, b: nat): nat
    requires start + count <= |input| && count * bpi <= b
    decreases count
  {
    if count == 0 then 0
    else
      assert (count - 1) * bpi == count * bpi - bpi;
      FieldsLimb(input, start, count - 1, bpi, b) + input[start + count - 1] * Pow(2, (b - count * bpi) * 8)
  }

  lemma FieldsLimbStep(input: seq<nat>, start: nat, j: nat, bpi: nat, b: nat)
    requires start + j + 1 <= |input| && (j + 1) * bpi <= b
    ensures j * bpi <= b
    ensures FieldsLimb(input, start, j + 1, bpi, b)
         == FieldsLimb(input, start, j, bpi, b) + input[start + j] * Pow(2, (b - (j + 1) * bpi) * 8)
  {
    assert j * bpi == (j + 1) * bpi - bpi;
  }

  /** The field-vector constructor: num_elements limbs, limb i holding inputs i * inputs_per_limb onwards. */
  function PackFields(input: seq<nat>, bpi: nat, b: nat): (limbs: seq<nat>)
    requires 0 < bpi <= b && FieldsFit(|input|, bpi, b)
    ensures |limbs| == NumElements(bpi * |input|, b)
  {
    var ipl := b / bpi;
    var ne := NumElements(bpi * |input|, b);
    seq(ne, i requires 0 <= i < ne =>
      FieldsLayoutFit(|input|, bpi, b, i);
      FieldsLimb(input, i * ipl, InputsInLimb(|input|, ipl, ne, i), bpi, b))
  }

  /** Each input as bytes_per_input big-endian bytes, concatenated in order. */
  function Encode(input: seq<nat>, bpi: nat): (bytes: seq<Byte>)
    ensures |bytes| == bpi * |input|
  {
    if |input| == 0 then []
    else
      assert bpi * |input| == bpi * (|input| - 1) + bpi;
      Encode(input[..|input| - 1], bpi) + ToDigits(input[|input| - 1], bpi, 256)
  }

  lemma {:induction false} EncodeConcat(s: seq<nat>, t: seq<nat>, bpi: nat)
    ensures Encode(s + t, bpi) == Encode(s, bpi) + Encode(t, bpi)
    decreases |t|
  {
    if |t| == 0 {
      assert s + t == s;
    } else {
      var t' := t[..|t| - 1];
      assert (s + t)[..|s + t| - 1] == s + t';
      EncodeConcat(s, t', bpi);
    }
  }

  /** The bytes of inputs lo .. hi - 1 are bytes lo * bpi .. hi * bpi of the encoding. */
  lemma EncodeSlice(input: seq<nat>, lo: nat, hi: nat, bpi: nat)
    requires lo <= hi <= |input|
    ensures bpi * lo <= bpi * hi <= bpi * |input|
    ensures Encode(input, bpi)[bpi * lo..bpi * hi] == Encode(input[lo..hi], bpi)
  {
    MulMonotone(lo, hi, bpi);
    MulMonotone(hi, |input|, bpi);
    assert input == input[..lo] + input[lo..hi] + input[hi..];
    EncodeConcat(input[..lo] + input[lo..hi], input[hi..], bpi);
    EncodeConcat(input[..lo], input[lo..hi], bpi);
  }

  /** With inputs below 2^(8 bpi), the limb sum is the left-aligned encoding of its inputs. */
  lemma {:induction false} FieldsLimbIsLeftAligned(input: seq<nat>, start: nat, count: nat, bpi: nat, b: nat)
    requires start + count <= |input| && count * bpi <= b
    requires forall k :: 0 <= k < |input| ==> input[k] < Pow(2, 8 * bpi)
    ensures FieldsLimb(input, start, count, bpi, b) == LeftAligned(Encode(input[start..start + count], bpi), 256, b)
    decreases count
  {
    if count == 0 {
      assert input[start..start + count] == [];
    } else {
      assert (count - 1) * bpi <= b && FieldsLimb(input, start, count - 1, bpi, b)
          == LeftAligned(Encode(input[start..start + (count - 1)], bpi), 256, b) by {
        MulMonotone(count - 1, count, bpi);
        FieldsLimbIsLeftAligned(input, start, count - 1, bpi, b);
      }
      assert bpi * count <= b by {
        MulComm(bpi, count);
      }
      FieldsLimbAlignedStep(input, start, count, bpi, b);
    }
  }

  /** c1 inputs then one more, bpi bytes each, leave b - (c1 + 1) * bpi bytes of a limb free. */
  lemma EncodedGap(c1: nat, bpi: nat, b: nat)
    requires (c1 + 1) * bpi <= b
    ensures bpi * c1 + bpi <= b && b - bpi * c1 - bpi == b - (c1 + 1) * bpi
  {
    MulDistrib(c1, 1, bpi);
    MulComm(bpi, c1);
  }

  /** One more input keeps the limb sum equal to the left-aligned encoding of the inputs taken. */
  lemma FieldsLimbAlignedStep(input: seq<nat>, start: nat, count: nat, bpi: nat, b: nat)
    requires 0 < count && start + count <= |input| && count * bpi <= b && input[start + count - 1] < Pow(2, 8 * bpi)
    requires bpi * count <= b && (count - 1) * bpi <= b && FieldsLimb(input, start, count - 1, bpi, b)
          == LeftAligned(Encode(input[start..start + (count - 1)], bpi), 256, b)
    ensures FieldsLimb(input, start, count, bpi, b) == LeftAligned(Encode(input[start..start + count], bpi), 256, b)
  {
    var c1 := count - 1;
    var prev := input[start..start + c1];
    var x := input[start + c1];
    var d := ToDigits(x, bpi, 256);
    var ep := Encode(prev, bpi);
    assert Encode(input[start..start + count], bpi) == ep + d by {
      var s := input[start..start + count];
      assert s[..|s| - 1] == prev;
    }
    var gap := b - count * bpi;
    assert |ep| + |d| <= b && b - |ep| - |d| == gap by {
      assert |ep| == bpi * c1 && |d| == bpi;
      EncodedGap(c1, bpi, b);
    }
    assert FieldsLimb(input, start, count, bpi, b) == LeftAligned(ep, 256, b) + x * Pow(2, gap * 8) by {
      FieldsLimbStep(input, start, c1, bpi, b);
    }
    assert LeftAligned(ep + d, 256, b) == LeftAligned(ep, 256, b) + x * Pow(2, gap * 8) by {
      LeftAlignedAppend(ep, x, bpi, b, gap);
    }
  }

  /** Appending the bpi bytes of x to a left-aligned string adds x shifted to the gap left after it. */
  lemma LeftAlignedAppend(ep: seq<nat>, x: nat, bpi: nat, b: nat, gap: nat)
    requires x < Pow(2, 8 * bpi) && |ep| + bpi <= b && gap == b - |ep| - bpi
    ensures LeftAligned(ep + ToDigits(x, bpi, 256), 256, b) == LeftAligned(ep, 256, b) + x * Pow(2, gap * 8)
  {
    var d := ToDigits(x, bpi, 256);
    assert BeValue(d, 256) == x by {
      Pow2Bytes(bpi);
      ToDigitsValue(x, bpi, 256);
    }
    LeftAlignedConcat(ep, d, 256, b);
    assert Pow(2, gap * 8) == Pow(256, gap) by {
      Pow2Bytes(gap);
      MulComm(gap, 8);
    }
  }

  /**
   * The field-vector constructor packs the same limbs as the byte constructor
   * on the inputs' bytes, given that every input fits in bytes_per_input bytes.
   */
  lemma {:induction false} PackFieldsIsPackBytes(input: seq<nat>, bpi: nat, b: nat)
    requires 0 < bpi && 0 < b && b % bpi == 0
    requires forall k :: 0 <= k < |input| ==> input[k] < Pow(2, 8 * bpi)
    ensures bpi <= b && FieldsFit(|input|, bpi, b)
    ensures PackFields(input, bpi, b) == PackBytes(Encode(input, bpi), b)
  {
    DivisibleFits(|input|, bpi, b);
    forall i | 0 <= i < NumElements(bpi * |input|, b)
      ensures PackFields(input, bpi, b)[i] == PackBytes(Encode(input, bpi), b)[i]
    {
      PackFieldsLimb(input, bpi, b, i);
    }
  }

  /** Limb i of both constructors, given the same bytes. */
  lemma PackFieldsLimb(input: seq<nat>, bpi: nat, b: nat, i: nat)
    requires 0 < bpi <= b && b % bpi == 0 && FieldsFit(|input|, bpi, b)
    requires forall k :: 0 <= k < |input| ==> input[k] < Pow(2, 8 * bpi)
    requires i < NumElements(bpi * |input|, b)
    ensures PackFields(input, bpi, b)[i] == PackBytes(Encode(input, bpi), b)[i]
  {
    FieldsLimbAt(input, bpi, b, i);
    ChunkOfEncode(input, bpi, b, i);
  }

  /** Limb i of the field-vector constructor is the left-aligned encoding of the inputs it takes. */
  lemma FieldsLimbAt(input: seq<nat>, bpi: nat, b: nat, i: nat)
    requires 0 < bpi <= b && FieldsFit(|input|, bpi, b)
    requires forall k :: 0 <= k < |input| ==> input[k] < Pow(2, 8 * bpi)
    requires i < NumElements(bpi * |input|, b)
    ensures var ipl := b / bpi;
      var count := InputsInLimb(|input|, ipl, NumElements(bpi * |input|, b), i);
      && 0 <= i * ipl <= i * ipl + count <= |input|
      && bpi * count <= b
      && PackFields(input, bpi, b)[i] == LeftAligned(Encode(input[i * ipl..i * ipl + count], bpi), 256, b)
  {
    var ipl := b / bpi;
    var ne := NumElements(bpi * |input|, b);
    var count := InputsInLimb(|input|, ipl, ne, i);
    var first: nat := i * ipl;
    assert 0 < count && first + count <= |input| && count * bpi <= b
      && PackFields(input, bpi, b)[i] == FieldsLimb(input, first, count, bpi, b) by {
      PackFieldsAt(input, bpi, b, i);
    }
    assert bpi * count <= b by {
      MulComm(bpi, count);
    }
    assert FieldsLimb(input, first, count, bpi, b) == LeftAligned(Encode(input[first..first + count], bpi), 256, b) by {
      FieldsLimbIsLeftAligned(input, first, count, bpi, b);
    }
  }

  /** Limb i of the field-vector constructor is the FieldsLimb of the inputs it takes. */
  lemma PackFieldsAt(input: seq<nat>, bpi: nat, b: nat, i: nat)
    requires 0 < bpi <= b && FieldsFit(|input|, bpi, b) && i < NumElements(bpi * |input|, b)
    ensures var ipl := b / bpi;
      var count := InputsInLimb(|input|, ipl, NumElements(bpi * |input|, b), i);
      && 0 < count && i * ipl + count <= |input| && count * bpi <= b
      && PackFields(input, bpi, b)[i] == FieldsLimb(input, i * ipl, count, bpi, b)
  {
    FieldsLayoutFit(|input|, bpi, b, i);
  }

  /** The B bytes of limb i are the big-endian bytes of the inputs it takes, then zeros for the bytes no input takes. */
  lemma FieldsLimbBytes(input: seq<nat>, bpi: nat, b: nat, i: nat)
    requires 0 < bpi <= b && FieldsFit(|input|, bpi, b)
    requires forall k :: 0 <= k < |input| ==> input[k] < Pow(2, 8 * bpi)
    requires i < NumElements(bpi * |input|, b)
    ensures var ipl := b / bpi;
      var count := InputsInLimb(|input|, ipl, NumElements(bpi * |input|, b), i);
      && 0 <= i * ipl <= i * ipl + count <= |input|
      && bpi * count <= b
      && ToDigits(PackFields(input, bpi, b)[i], b, 256)
         == Encode(input[i * ipl..i * ipl + count], bpi) + Zeros(b - bpi * count)
  {
    var ipl: nat := b / bpi;
    var first: nat := i * ipl;
    var count := InputsInLimb(|input|, ipl, NumElements(bpi * |input|, b), i);
    assert 0 <= count && first + count <= |input| && bpi * count <= b
      && PackFields(input, bpi, b)[i] == LeftAligned(Encode(input[first..first + count], bpi), 256, b) by {
      FieldsLimbAt(input, bpi, b, i);
    }
    var e := Encode(input[first..first + count], bpi);
    assert |e| == bpi * count by {
      EncodeSliceLength(input, first, count, bpi);
    }
    LimbBytes(PackFields(input, bpi, b), i, e, b, b - bpi * count);
  }

  /** count inputs encode to count * bpi bytes. */
  lemma EncodeSliceLength(input: seq<nat>, first: nat, count: nat, bpi: nat)
    requires first + count <= |input|
    ensures |Encode(input[first..first + count], bpi)| == bpi * count
  {
    assert |input[first..first + count]| == count;
  }

  /** The B bytes of a limb holding a left-aligned byte string are the string followed by zeros. */
  lemma LimbBytes(limbs: seq<nat>, i: nat, e: seq<Byte>, b: nat, gap: nat)
    requires i < |limbs| && |e| <= b && gap == b - |e| && limbs[i] == LeftAligned(e, 256, b)
    ensures ToDigits(limbs[i], b, 256) == e + Zeros(gap)
  {
    var padded: seq<nat> := e + Zeros(b - |e|);
    LeftAlignedIsPadded(e, 256, b);
    assert AllBelow(padded, 256);
    ToDigitsOfValue(padded, 256);
  }

  // ----- the field-vector constructor's limb count, as written and corrected -----

  /** size_t and uint64_t arithmetic is modulo 2^64. */
  const Word: nat := 0x1_0000_0000_0000_0000

  /** limb_shift as written: B - (j + 1) * bytes_per_input in size_t, shifted left by 3 in uint64_t. */
  function FieldsShiftAsWritten(j: nat, bpi: nat, b: nat): (s: nat)
    ensures s < Word
  {
    (((b - (j + 1) * bpi) % Word) * 8) % Word
  }

  /** While input j fits, the shift as written is the byte offset that FieldsLimb uses. */
  lemma FieldsShiftAsWrittenFits(j: nat, bpi: nat, b: nat)
    requires (j + 1) * bpi <= b <= 32
    ensures FieldsShiftAsWritten(j, bpi, b) == (b - (j + 1) * bpi) * 8
  {
  }

  /**
   * When the limbs lack room for every input, the last limb is handed more than
   * inputs_per_limb inputs, and the first extra one no longer fits in B bytes.
   */
  lemma LastLimbOverflows(n: nat, bpi: nat, b: nat)
    requires 0 < bpi <= b && !FieldsFit(n, bpi, b)
    ensures var ipl := b / bpi;
      var ne := NumElements(bpi * n, b);
      && 0 < ne && InputsInLimb(n, ipl, ne, ne - 1) > ipl && (ipl + 1) * bpi > b
  {
    var ipl := b / bpi;
    var ne := NumElements(bpi * n, b);
    assert b == ipl * bpi + b % bpi;
    assert (ipl + 1) * bpi == ipl * bpi + bpi;
    assert ne * ipl == (ne - 1) * ipl + ipl;
  }

  /**
   * With B = 32 and three-byte inputs, 21 inputs fill 63 bytes and so two limbs,
   * but inputs_per_limb is 10: the last limb is handed 11 inputs, and the shift
   * of its eleventh, B - 33 in size_t, wraps to 2^64 - 8, past every bit of a
   * uint256_t.
   */
  lemma FieldsShiftAsWrittenWraps()
    ensures NumElements(3 * 21, 32) == 2 && 32 / 3 == 10 && !FieldsFit(21, 3, 32)
    ensures InputsInLimb(21, 10, 2, 1) == 11
    ensures FieldsShiftAsWritten(10, 3, 32) == Word - 8
  {
  }

  /** The limbs the field-vector constructor evidently means: as many limbs of inputs_per_limb inputs as the inputs need. */
  function PackFieldsGrouped(input: seq<nat>, bpi: nat, b: nat): (limbs: seq<nat>)
    requires 0 < bpi <= b
  {
    InputsPerLimbRange(bpi, b);
    var ipl := b / bpi;
    var ng := NumElements(|input|, ipl);
    seq(ng, i requires 0 <= i < ng =>
      GroupedLayout(|input|, bpi, b, i);
      FieldsLimb(input, i * ipl, InputsInLimb(|input|, ipl, ng, i), bpi, b))
  }

  /** With the limbs counted from the inputs, every limb takes between 1 and inputs_per_limb inputs, and they fit. */
  lemma GroupedLayout(n: nat, bpi: nat, b: nat, i: nat)
    requires 0 < bpi <= b
    requires 0 < b / bpi && i < NumElements(n, b / bpi)
    ensures var ipl := b / bpi;
      var ng := NumElements(n, ipl);
      var count := InputsInLimb(n, ipl, ng, i);
      && 0 < count <= ipl && i * ipl + count <= n && count * bpi <= b
      && (i < ng - 1 ==> count == ipl) && (i == ng - 1 ==> i * ipl + count == n)
  {
    var ipl := b / bpi;
    var ng := NumElements(n, ipl);
    InputsPerLimbRange(bpi, b);
    NumElementsIsCeiling(n, ipl);
    LimbsHoldInputs(n, ipl, ng, i);
    MulMonotone(InputsInLimb(n, ipl, ng, i), ipl, bpi);
  }

  /**
   * Every limb of the corrected packing, for any bytes_per_input up to B, holds
   * the big-endian bytes of its inputs, inputs_per_limb of them to each limb
   * but the last, which takes the rest.
   */
  lemma GroupedLimbAt(input: seq<nat>, bpi: nat, b: nat, i: nat)
    requires 0 < bpi <= b
    requires forall k :: 0 <= k < |input| ==> input[k] < Pow(2, 8 * bpi)
    requires 0 < b / bpi && i < NumElements(|input|, b / bpi)
    ensures var ipl := b / bpi;
      var ng := NumElements(|input|, ipl);
      var count := InputsInLimb(|input|, ipl, ng, i);
      && 0 < count <= ipl && 0 <= i * ipl <= i * ipl + count <= |input| && bpi * count <= b
      && (i < ng - 1 ==> count == ipl) && (i == ng - 1 ==> i * ipl + count == |input|)
      && |PackFieldsGrouped(input, bpi, b)| == ng
      && PackFieldsGrouped(input, bpi, b)[i] == LeftAligned(Encode(input[i * ipl..i * ipl + count], bpi), 256, b)
  {
    var ipl := b / bpi;
    var ng := NumElements(|input|, ipl);
    var count := InputsInLimb(|input|, ipl, ng, i);
    var first: nat := i * ipl;
    assert 0 < count <= ipl && first + count <= |input| && count * bpi <= b && bpi * count <= b by {
      GroupedLayout(|input|, bpi, b, i);
      MulComm(bpi, count);
    }
    GroupedLayout(|input|, bpi, b, i);
    assert PackFieldsGrouped(input, bpi, b)[i] == FieldsLimb(input, first, count, bpi, b);
    FieldsLimbIsLeftAligned(input, first, count, bpi, b);
  }

  /** x bytes that fit in k limbs of d bytes need at most k limbs. */
  lemma NumElementsAtMost(x: nat, d: nat, k: nat)
    requires d > 0 && x <= k * d
    ensures NumElements(x, d) <= k
  {
    var ne := NumElements(x, d);
    NumElementsIsCeiling(x, d);
    if ne > k {
      MulMonotone(k, ne - 1, d);
    }
  }

  /** The limbs have room for every input exactly when counting limbs by bytes and by inputs agree. */
  lemma FieldsFitIff(n: nat, bpi: nat, b: nat)
    requires 0 < bpi <= b
    ensures 0 < b / bpi
    ensures FieldsFit(n, bpi, b) <==> NumElements(bpi * n, b) == NumElements(n, b / bpi)
  {
    var ipl := b / bpi;
    InputsPerLimbRange(bpi, b);
    var ne := NumElements(bpi * n, b);
    var ng := NumElements(n, ipl);
    assert ne <= ng by {
      NumElementsIsCeiling(n, ipl);
      MulMonotone(n, ng * ipl, bpi);
      MulAssoc(ng, ipl, bpi);
      MulMonotone(ipl * bpi, b, ng);
      MulComm(ng, ipl * bpi);
      MulComm(ng, b);
      MulComm(bpi, n);
      NumElementsAtMost(bpi * n, b, ng);
    }
    if FieldsFit(n, bpi, b) {
      NumElementsAtMost(n, ipl, ne);
      MulComm(ne, ipl);
    }
  }

  /** Wherever the limbs have room for every input, the source's packing is the corrected one. */
  lemma GroupedIsPackFields(input: seq<nat>, bpi: nat, b: nat)
    requires 0 < bpi <= b && FieldsFit(|input|, bpi, b)
    ensures PackFieldsGrouped(input, bpi, b) == PackFields(input, bpi, b)
  {
    FieldsFitIff(|input|, bpi, b);
  }

  /** The bytes limb i receives from the encoding are the encodings of the inputs limb i takes. */
  lemma ChunkOfEncode(input: seq<nat>, bpi: nat, b: nat, i: nat)
    requires 0 < bpi && 0 < b && b % bpi == 0
    requires i < NumElements(bpi * |input|, b)
    ensures var ipl := b / bpi;
      var count := InputsInLimb(|input|, ipl, NumElements(bpi * |input|, b), i);
      && 0 <= i * ipl <= i * ipl + count <= |input|
      && Chunk(Encode(input, bpi), i, b) == Encode(input[i * ipl..i * ipl + count], bpi)
  {
    var ipl := b / bpi;
    var ne := NumElements(bpi * |input|, b);
    var count := InputsInLimb(|input|, ipl, ne, i);
    var w := BytesInLimb(bpi * |input|, ne, i, b);
    LimbRun(|input|, bpi, b, i);
    ChunkOfRun(input, bpi, b, i * b, i, i * ipl, count, w);
  }

  /** The run of limb i, at bytes at .. at + w - 1, encodes inputs first .. first + count - 1. */
  lemma ChunkOfRun(input: seq<nat>, bpi: nat, b: nat, at: nat, i: nat, first: nat, count: nat, w: nat)
    requires at == i * b && first + count <= |input|
    requires bpi * first == at && bpi * (first + count) == at + w
    requires 0 < w <= b && at + w <= bpi * |input| && (w < b ==> at + w == bpi * |input|)
    ensures Chunk(Encode(input, bpi), i, b) == Encode(input[first..first + count], bpi)
  {
    var e := Encode(input, bpi);
    ChunkIsRun(e, i, b, w);
    EncodeRun(input, bpi, first, count, at, w);
  }

  /** Limb i of the field-vector constructor covers inputs and bytes that line up. */
  lemma LimbRun(n: nat, bpi: nat, b: nat, i: nat)
    requires 0 < bpi && 0 < b && b % bpi == 0
    requires i < NumElements(bpi * n, b)
    ensures var ipl := b / bpi;
      var ne := NumElements(bpi * n, b);
      var count := InputsInLimb(n, ipl, ne, i);
      var w := BytesInLimb(bpi * n, ne, i, b);
      && 0 <= count && i * ipl + count <= n
      && bpi * (i * ipl) == i * b
      && bpi * (i * ipl + count) == i * b + w
      && 0 < w <= b && i * b + w <= bpi * n && (w < b ==> i * b + w == bpi * n)
  {
    var ipl := b / bpi;
    var ne := NumElements(bpi * n, b);
    FieldsLayout(n, bpi, b, i);
    BytesInLimbRange(bpi * n, i, b);
    var count := InputsInLimb(n, ipl, ne, i);
    var first := i * ipl;
    MulComm(first, bpi);
    MulDistrib(first, count, bpi);
    MulComm(first + count, bpi);
  }

  /** A limb that holds w bytes takes bytes i * B .. i * B + w - 1. */
  lemma ChunkIsRun<T>(e: seq<T>, i: nat, b: nat, w: nat)
    requires 0 < w <= b && i * b + w <= |e| && (w < b ==> i * b + w == |e|)
    ensures Chunk(e, i, b) == e[i * b..i * b + w]
  {
    assert (i + 1) * b == i * b + b;
  }

  /** Bytes at .. at + w - 1 of the encoding, when they are the bytes of inputs first .. first + count - 1. */
  lemma EncodeRun(input: seq<nat>, bpi: nat, first: nat, count: nat, at: nat, w: nat)
    requires first + count <= |input|
    requires bpi * first == at && bpi * (first + count) == at + w
    ensures at + w <= |Encode(input, bpi)|
    ensures Encode(input, bpi)[at..at + w] == Encode(input[first..first + count], bpi)
  {
    EncodeSlice(input, first, first + count, bpi);
  }

  // ----- operator byte_array and the byte_array constructor -----

  /** Bit j (from the most significant end) of a B-byte limb: (limb >> (8B - 1 - j)) & 1. */
  function BitOfLimb(x: nat, j: nat, b: nat): Bit
    requires j < 8 * b
  {
    PowPositive(2, 8 * b - 1 - j);
    (x / Pow(2, 8 * b - 1 - j)) % 2
  }

  /** The n most significant bits of a B-byte limb. */
  function LimbBits(x: nat, n: nat, b: nat): (bits: seq<Bit>)
    requires n <= 8 * b
    ensures |bits| == n
  {
    seq(n, j requires 0 <= j < n => BitOfLimb(x, j, b))
  }

  /** The bits read from a limb are the leading binary digits of its 8B low bits. */
  lemma LimbBitsAreDigits(x: nat, n: nat, b: nat)
    requires n <= 8 * b
    ensures LimbBits(x, n, b) == ToDigits(x, 8 * b, 2)[..n]
  {
    forall j | 0 <= j < n
      ensures LimbBits(x, n, b)[j] == ToDigits(x, 8 * b, 2)[j]
    {
      ToDigitsAt(x, 8 * b, 2, j);
    }
  }

  /** operator byte_array's accumulator for a limb holding w bytes: the bits it read, each weighted back into place. */
  function BitsAccumulator(x: nat, w: nat, b: nat): nat
    requires w <= b
  {
    LeftAligned(LimbBits(x, 8 * w, b), 2, 8 * b)
  }

  lemma BitsAccumulatorStep(x: nat, j: nat, b: nat)
    requires j < 8 * b
    ensures LeftAligned(LimbBits(x, j + 1, b), 2, 8 * b)
         == LeftAligned(LimbBits(x, j, b), 2, 8 * b) + BitOfLimb(x, j, b) * Pow(2, 8 * b - 1 - j)
  {
    assert LimbBits(x, j + 1, b) == LimbBits(x, j, b) + [BitOfLimb(x, j, b)];
    LeftAlignedSnoc(LimbBits(x, j, b), BitOfLimb(x, j, b), 2, 8 * b);
  }

  /**
   * A limb holding w bytes is canonical when it has no bits above the B
   * bytes and its B - w low bytes are zero: the shape both constructors produce.
   */
  predicate Canonical(x: nat, w: nat, b: nat)
    requires w <= b
  {
    PowPositive(256, b - w);
    x < Pow(256, b) && x % Pow(256, b - w) == 0
  }

  /** The accumulator equals the limb exactly when the limb is canonical. */
  lemma AccumulatorIsCanonical(x: nat, w: nat, b: nat)
    requires w <= b
    ensures BitsAccumulator(x, w, b) == x <==> Canonical(x, w, b)
  {
    LimbBitsAreDigits(x, 8 * w, b);
    PrefixReconstructs(x, 8 * b, 8 * w, 2);
    Pow2Bytes(b);
    Pow2Bytes(b - w);
    assert 8 * b - 8 * w == 8 * (b - w);
  }

  predicate LimbCanonical(limbs: seq<nat>, numBytes: nat, b: nat, i: nat)
    requires 0 < b && |limbs| == NumElements(numBytes, b) && i < |limbs|
  {
    BytesInLimbRange(numBytes, i, b);
    Canonical(limbs[i], BytesInLimb(numBytes, |limbs|, i, b), b)
  }

  /** Every limb is canonical for the number of bytes it holds. */
  predicate CanonicalLimbs(limbs: seq<nat>, numBytes: nat, b: nat)
    requires 0 < b && |limbs| == NumElements(numBytes, b)
  {
    forall i :: 0 <= i < |limbs| ==> LimbCanonical(limbs, numBytes, b, i)
  }

  /** With 8B bits to a limb, limb i's bits lie inside the 8 num_bytes bits and tile them. */
  lemma BitsInLimbRange(numBytes: nat, i: nat, b: nat)
    requires b > 0 && i < NumElements(numBytes, b)
    ensures var w := BytesInLimb(numBytes, NumElements(numBytes, b), i, b);
      && 0 < 8 * w <= b * 8
      && i * (b * 8) + 8 * w <= 8 * numBytes
      && (8 * w < b * 8 ==> i * (b * 8) + 8 * w == 8 * numBytes)
      && (i == NumElements(numBytes, b) - 1 ==> 8 * w == numBytes * 8 - i * (b * 8))
  {
    BytesInLimbRange(numBytes, i, b);
    assert i * (b * 8) == 8 * (i * b);
  }

  function BitOfPacked(limbs: seq<nat>, numBytes: nat, b: nat, k: nat): Bit
    requires 0 < b && |limbs| == NumElements(numBytes, b) && k < 8 * numBytes
  {
    var i := k / (8 * b);
    assert 0 <= i < |limbs| by {
      DivNonNegative(k, 8 * b);
      NumElementsIsCeiling(numBytes, b);
      assert 8 * numBytes <= (8 * b) * |limbs|;
      QuotientBound(k, 8 * b, |limbs|);
    }
    BitOfLimb(limbs[i], k % (8 * b), b)
  }

  /** operator byte_array: bit i * 8B + j of the result is bit j of limb i, 8 num_bytes bits in all. */
  function ToBits(limbs: seq<nat>, numBytes: nat, b: nat): (bits: seq<Bit>)
    requires 0 < b && |limbs| == NumElements(numBytes, b)
    ensures |bits| == 8 * numBytes
  {
    seq(8 * numBytes, k requires 0 <= k < 8 * numBytes => BitOfPacked(limbs, numBytes, b, k))
  }

  lemma ToBitsAt(limbs: seq<nat>, numBytes: nat, b: nat, i: nat, j: nat)
    requires 0 < b && |limbs| == NumElements(numBytes, b) && i < |limbs|
    requires j < 8 * BytesInLimb(numBytes, |limbs|, i, b)
    ensures i * (b * 8) + j < 8 * numBytes && j < 8 * b
    ensures ToBits(limbs, numBytes, b)[i * (b * 8) + j] == BitOfLimb(limbs[i], j, b)
  {
    BitsInLimbRange(numBytes, i, b);
    BytesInLimbRange(numBytes, i, b);
    assert b * 8 == 8 * b;
    DivModUnique(i * (b * 8) + j, 8 * b, i, j);
  }

  /** The bits operator byte_array emits for limb i are that limb's leading 8 bytes_in_limb bits. */
  lemma ChunkOfToBits(limbs: seq<nat>, numBytes: nat, b: nat, i: nat)
    requires 0 < b && |limbs| == NumElements(numBytes, b) && i < |limbs|
    ensures var w := BytesInLimb(numBytes, |limbs|, i, b);
      0 <= w <= b && Chunk(ToBits(limbs, numBytes, b), i, 8 * b) == LimbBits(limbs[i], 8 * w, b)
  {
    var w := BytesInLimb(numBytes, |limbs|, i, b);
    BitsInLimbRange(numBytes, i, b);
    BytesInLimbRange(numBytes, i, b);
    var bits := ToBits(limbs, numBytes, b);
    assert i * (b * 8) == i * (8 * b);
    ChunkIsRun(bits, i, 8 * b, 8 * w);
    forall j | 0 <= j < 8 * w
      ensures bits[i * (8 * b) + j] == LimbBits(limbs[i], 8 * w, b)[j]
    {
      ToBitsAt(limbs, numBytes, b, i, j);
    }
  }

  /** One iteration of operator byte_array's outer loop: limb i's bits extend the output, and its check is canonicity. */
  lemma ToBitsStep(limbs: seq<nat>, numBytes: nat, b: nat, i: nat)
    requires 0 < b && |limbs| == NumElements(numBytes, b) && i < |limbs|
    ensures var w := BytesInLimb(numBytes, |limbs|, i, b);
      var bits := ToBits(limbs, numBytes, b);
      && 0 < w <= b
      && (i == |limbs| - 1 ==> 8 * w == numBytes * 8 - i * (b * 8))
      && (i != |limbs| - 1 ==> 8 * w == b * 8)
      && Min(i * (8 * b), 8 * numBytes) <= Min((i + 1) * (8 * b), 8 * numBytes)
      && bits[..Min((i + 1) * (8 * b), 8 * numBytes)] == bits[..Min(i * (8 * b), 8 * numBytes)] + LimbBits(limbs[i], 8 * w, b)
      && (LimbCanonical(limbs, numBytes, b, i) <==> LeftAligned(LimbBits(limbs[i], 8 * w, b), 2, 8 * b) == limbs[i])
  {
    var w := BytesInLimb(numBytes, |limbs|, i, b);
    BitsInLimbRange(numBytes, i, b);
    BytesInLimbRange(numBytes, i, b);
    ChunkOfToBits(limbs, numBytes, b, i);
    ChunkExtends(ToBits(limbs, numBytes, b), i, 8 * b);
    AccumulatorIsCanonical(limbs[i], w, b);
  }

  /** After the last limb, operator byte_array has emitted all 8 num_bytes bits. */
  lemma ToBitsEnd(numBytes: nat, b: nat)
    requires 0 < b
    ensures Min(NumElements(numBytes, b) * (8 * b), 8 * numBytes) == 8 * numBytes
  {
    NumElementsIsCeiling(numBytes, b);
    assert NumElements(numBytes, b) * (8 * b) == 8 * (NumElements(numBytes, b) * b);
  }

  /** The byte_array constructor: limb i is the i-th run of 8B bits, left-aligned. */
  function PackBits(bits: seq<Bit>, b: nat): (limbs: seq<nat>)
    requires b > 0
    ensures |limbs| == NumElements(|bits| / 8, b)
  {
    seq(NumElements(|bits| / 8, b), i requires 0 <= i => LeftAligned(Chunk(bits, i, 8 * b), 2, 8 * b))
  }

  /**
   * Converting to a byte_array and back gives the same limbs exactly when every
   * limb is canonical, which is also the condition operator byte_array checks.
   */
  lemma {:induction false} PackBitsToBits(limbs: seq<nat>, numBytes: nat, b: nat)
    requires 0 < b && |limbs| == NumElements(numBytes, b)
    ensures PackBits(ToBits(limbs, numBytes, b), b) == limbs <==> CanonicalLimbs(limbs, numBytes, b)
  {
    var bits := ToBits(limbs, numBytes, b);
    assert |bits| / 8 == numBytes;
    var back := PackBits(bits, b);
    forall i | 0 <= i < |limbs|
      ensures back[i] == limbs[i] <==> LimbCanonical(limbs, numBytes, b, i)
    {
      ChunkOfToBits(limbs, numBytes, b, i);
      BytesInLimbRange(numBytes, i, b);
      AccumulatorIsCanonical(limbs[i], BytesInLimb(numBytes, |limbs|, i, b), b);
    }
    if CanonicalLimbs(limbs, numBytes, b) {
      assert back == limbs;
    } else {
      var i :| 0 <= i < |limbs| && !LimbCanonical(limbs, numBytes, b, i);
      assert back[i] != limbs[i];
    }
  }

  /** Converting a byte_array to packed bytes and back gives the same bits. */
  lemma {:induction false} ToBitsPackBits(bits: seq<Bit>, b: nat)
    requires b > 0 && |bits| % 8 == 0
    ensures ToBits(PackBits(bits, b), |bits| / 8, b) == bits
  {
    var limbs := PackBits(bits, b);
    var out := ToBits(limbs, |bits| / 8, b);
    forall k | 0 <= k < |bits|
      ensures out[k] == bits[k]
    {
      PackedBitAt(bits, |bits| / 8, b, k);
    }
  }

  lemma PackedBitAt(bits: seq<Bit>, n: nat, b: nat, k: nat)
    requires b > 0 && |bits| == 8 * n && k < |bits|
    ensures BitOfPacked(PackBits(bits, b), n, b, k) == bits[k]
  {
    var i, j := BitIndex(n, b, k);
    ChunkAt(bits, i, 8 * b, j, k);
    var c := Chunk(bits, i, 8 * b);
    assert AllBelow(c, 2);
    LeftAlignedDigit(c, 2, 8 * b, j);
    var limbs := PackBits(bits, b);
    assert |bits| / 8 == n;
    assert limbs[i] == LeftAligned(c, 2, 8 * b);
  }

  /** Bit k of 8n bits is bit k mod 8B of limb k div 8B, one of num_elements limbs. */
  lemma BitIndex(n: nat, b: nat, k: nat) returns (i: nat, j: nat)
    requires b > 0 && k < 8 * n
    ensures k == i * (8 * b) + j && j < 8 * b
    ensures k / (8 * b) == i && k % (8 * b) == j
    ensures i < NumElements(n, b)
  {
    i, j := Split(k, 8 * b);
    DivModUnique(k, 8 * b, i, j);
    var ne := NumElements(n, b);
    NumElementsIsCeiling(n, b);
    MulMonotone(n, ne * b, 8);
    assert (8 * b) * ne == (ne * b) * 8;
    QuotientBound(k, 8 * b, ne);
  }

  /** The first i + 1 runs are the first i runs followed by run i. */
  lemma ChunkExtends<T>(s: seq<T>, i: nat, w: nat)
    ensures Min(i * w, |s|) <= Min((i + 1) * w, |s|)
    ensures s[..Min((i + 1) * w, |s|)] == s[..Min(i * w, |s|)] + Chunk(s, i, w)
  {
    assert (i + 1) * w == i * w + w;
  }

  /** Item j of run i is item i * w + j. */
  lemma ChunkAt<T>(s: seq<T>, i: nat, w: nat, j: nat, k: nat)
    requires k == i * w + j && j < w && k < |s|
    ensures j < |Chunk(s, i, w)| && Chunk(s, i, w)[j] == s[k]
  {
    assert (i + 1) * w == i * w + w;
  }

  /** The byte_array constructor's limbs are canonical. */
  lemma PackBitsCanonical(bits: seq<Bit>, b: nat)
    requires b > 0 && |bits| % 8 == 0
    ensures CanonicalLimbs(PackBits(bits, b), |bits| / 8, b)
  {
    ToBitsPackBits(bits, b);
    PackBitsToBits(PackBits(bits, b), |bits| / 8, b);
  }

  /** The byte constructors' limbs are canonical. */
  lemma PackBytesCanonical(input: seq<Byte>, b: nat)
    requires b > 0
    ensures CanonicalLimbs(PackBytes(input, b), |input|, b)
  {
    var limbs := PackBytes(input, b);
    forall i | 0 <= i < |limbs|
      ensures LimbCanonical(limbs, |input|, b, i)
    {
      var w := BytesInLimb(|input|, |limbs|, i, b);
      BytesInLimbRange(|input|, i, b);
      ChunkIsRun(input, i, b, w);
      var c := Chunk(input, i, b);
      assert AllBelow(c, 256);
      LeftAlignedBound(c, 256, b);
      PowPositive(256, b - w);
      MulDivCancel(BeValue(c, 256), Pow(256, b - w));
    }
  }

  // ----- append -----

  /** append's split of n new bytes: as many as fit into the last limb's free space, the rest into one new limb. */
  function ForCurrentLimb(space: nat, n: nat): nat
  {
    Min(space, n)
  }

  function ForNewLimb(space: nat, n: nat): nat
  {
    n - ForCurrentLimb(space, n)
  }

  /** append_current: the high bytes of the n appended, those that go into the last limb. */
  function AppendCurrent(v: nat, n: nat, space: nat): nat
  {
    Slice(v, 8 * ForNewLimb(space, n), 8 * n)
  }

  /** append_next: the low bytes of the n appended, those that go into the new limb. */
  function AppendNext(v: nat, n: nat, space: nat): nat
  {
    Slice(v, 0, 8 * ForNewLimb(space, n))
  }

  /**
   * append, corrected: append_current goes just below the last limb's bytes,
   * and append_next, when there is any, into a new limb left-aligned by
   * 2^next_padding.
   */
  function AppendLimbs(limbs: seq<nat>, numBytes: nat, v: nat, n: nat, b: nat): (r: seq<nat>)
    requires 0 < |limbs| && numBytes <= |limbs| * b && n <= |limbs| * b - numBytes + b
  {
    var space := |limbs| * b - numBytes;
    var nCur, nNew := ForCurrentLimb(space, n), ForNewLimb(space, n);
    var last := |limbs| - 1;
    limbs[last := limbs[last] + AppendCurrent(v, n, space) * Pow(2, 8 * (space - nCur))]
      + (if nNew > 0 then [AppendNext(v, n, space) * Pow(2, 8 * (b - nNew))] else [])
  }

  /** append as written: the new limb is append_next times next_padding itself, not 2^next_padding. */
  function AppendLimbsAsWritten(limbs: seq<nat>, numBytes: nat, v: nat, n: nat, b: nat): (r: seq<nat>)
    requires 0 < |limbs| && numBytes <= |limbs| * b && n <= |limbs| * b - numBytes + b
  {
    var space := |limbs| * b - numBytes;
    var nCur, nNew := ForCurrentLimb(space, n), ForNewLimb(space, n);
    var last := |limbs| - 1;
    limbs[last := limbs[last] + AppendCurrent(v, n, space) * Pow(2, 8 * (space - nCur))]
      + (if nNew > 0 then [AppendNext(v, n, space) * (8 * (b - nNew))] else [])
  }

  /** The value append checks against to_append, corrected: the high part shifted above the low part. */
  function Reconstructed(v: nat, n: nat, space: nat): nat
  {
    var nNew := ForNewLimb(space, n);
    if nNew > 0 then AppendCurrent(v, n, space) * Pow(2, 8 * nNew) + AppendNext(v, n, space)
    else AppendCurrent(v, n, space)
  }

  /** The value append checks as written: the low part shifted above the high part. */
  function ReconstructedAsWritten(v: nat, n: nat, space: nat): nat
  {
    var nCur, nNew := ForCurrentLimb(space, n), ForNewLimb(space, n);
    if nNew > 0 then AppendCurrent(v, n, space) + AppendNext(v, n, space) * Pow(2, 8 * nCur)
    else AppendCurrent(v, n, space)
  }

  /** The corrected reconstruction is the low n bytes of the value. */
  lemma ReconstructedIsLowBytes(v: nat, n: nat, space: nat)
    ensures Pow(2, 8 * n) > 0
    ensures Reconstructed(v, n, space) == v % Pow(2, 8 * n)
  {
    var nNew := ForNewLimb(space, n);
    SliceSplit(v, 8 * nNew, 8 * n);
    if nNew == 0 {
      assert Pow(2, 0) == 1;
    }
  }

  /** The low `total` bits of v are its bits lo .. total - 1 shifted up by lo, plus its low lo bits. */
  lemma SliceSplit(v: nat, lo: nat, total: nat)
    requires lo <= total
    ensures Pow(2, total) > 0
    ensures v % Pow(2, total) == Slice(v, lo, total) * Pow(2, lo) + Slice(v, 0, lo)
  {
    var hi := total - lo;
    PowPositive(2, lo);
    PowPositive(2, hi);
    PowPositive(2, total);
    PowAdd(2, lo, hi);
    ModMul(v, Pow(2, lo), Pow(2, hi));
    assert Pow(2, 0) == 1;
  }

  /** So the check append makes on a witness holds exactly when the value fits in n bytes. */
  lemma AppendCheck(v: nat, n: nat, space: nat)
    ensures Reconstructed(v, n, space) == v <==> v < Pow(2, 8 * n)
  {
    ReconstructedIsLowBytes(v, n, space);
    PowPositive(2, 8 * n);
    ModBelow(v, Pow(2, 8 * n));
    if v < Pow(2, 8 * n) {
      DivModUnique(v, Pow(2, 8 * n), 0, v);
    }
  }

  /**
   * With B = 4, one byte 0x01 packed and 0x02030405 appended as four bytes,
   * the as-written check compares 0x05020304 with 0x02030405.
   */
  lemma ReconstructedAsWrittenFails()
    ensures 0x02030405 < Pow(2, 8 * 4)
    ensures ReconstructedAsWritten(0x02030405, 4, 3) == 0x05020304
    ensures Reconstructed(0x02030405, 4, 3) == 0x02030405
  {
    AppendCheck(0x02030405, 4, 3);
    PowersOfTwo();
  }

  /**
   * The same append as written stores 5 * 24 = 120 as the new limb instead of
   * 0x05000000, so get_value reads the appended byte 0x05 back as 0x00.
   */
  lemma AppendLimbsAsWrittenFails()
    ensures AppendLimbs([0x01000000], 1, 0x02030405, 4, 4) == [0x01020304, 0x05000000]
    ensures AppendLimbsAsWritten([0x01000000], 1, 0x02030405, 4, 4) == [0x01020304, 120]
  {
    AppendExampleParts();
    var limbs: seq<nat> := [0x01000000];
    assert ForCurrentLimb(3, 4) == 3 && ForNewLimb(3, 4) == 1;
    var updated := limbs[0 := limbs[0] + AppendCurrent(0x02030405, 4, 3) * Pow(2, 8 * (3 - 3))];
    assert updated == [0x01020304];
    assert AppendLimbs(limbs, 1, 0x02030405, 4, 4) == updated + [AppendNext(0x02030405, 4, 3) * Pow(2, 8 * (4 - 1))];
    assert AppendLimbsAsWritten(limbs, 1, 0x02030405, 4, 4) == updated + [AppendNext(0x02030405, 4, 3) * (8 * (4 - 1))];
  }

  lemma AppendExampleParts()
    ensures AppendCurrent(0x02030405, 4, 3) == 0x020304
    ensures AppendNext(0x02030405, 4, 3) == 5
    ensures Pow(2, 0) == 1 && Pow(2, 24) == 0x1000000
  {
    PowersOfTwo();
  }

  /** get_value reads the as-written new limb's leading byte as 0 ... */
  lemma LeadingByteAsWritten()
    ensures ByteOfLimb(120, 0, 4) == 0
  {
    PowersOfTwo();
    LeadingByteOfLimb(120, 0, 4);
  }

  /** ... and the corrected one's as the appended byte 0x05. */
  lemma LeadingByteCorrected()
    ensures ByteOfLimb(0x05000000, 0, 4) == 5
  {
    PowersOfTwo();
    LeadingByteOfLimb(0x05000000, 5, 4);
  }

  /** The leading byte of a limb below 256^B is d when d * 256^(B - 1) <= x < (d + 1) * 256^(B - 1). */
  lemma LeadingByteOfLimb(x: nat, d: nat, b: nat)
    requires 0 < b && d < 256
    requires d * Pow(2, 8 * (b - 1)) <= x < (d + 1) * Pow(2, 8 * (b - 1))
    ensures ByteOfLimb(x, 0, b) == d
  {
    PowPositive(2, 8 * (b - 1));
    assert 8 * (b - 1 - 0) == 8 * (b - 1);
    DivModUnique(x, Pow(2, 8 * (b - 1)), d, x - d * Pow(2, 8 * (b - 1)));
    Pow2Bytes(1);
    assert 8 * (b - 0) - 8 * (b - 1 - 0) == 8;
    DivModUnique(d, Pow(2, 8), 0, d);
  }

  lemma PowersOfTwo()
    ensures Pow(2, 0) == 1 && Pow(2, 8) == 0x100 && Pow(2, 16) == 0x10000
    ensures Pow(2, 24) == 0x1000000 && Pow(2, 32) == 0x100000000
  {
    Pow2Bytes(1);
    Pow2Bytes(2);
    Pow2Bytes(3);
    Pow2Bytes(4);
    assert Pow(256, 1) == 0x100;
    assert Pow(256, 2) == 0x10000;
    assert Pow(256, 3) == 0x1000000;
    assert Pow(256, 4) == 0x100000000;
  }

  /** NumElements(m, b) is k when m lies in ((k - 1) * b, k * b]. */
  lemma NumElementsExact(m: nat, k: nat, b: nat)
    requires 0 < b && 0 < k && (k - 1) * b < m <= k * b
    ensures NumElements(m, b) == k
  {
    assert k * b == (k - 1) * b + b;
    if m == k * b {
      DivModUnique(m, b, k, 0);
    } else {
      DivModUnique(m, b, k - 1, m - (k - 1) * b);
    }
  }

  /** append adds a limb exactly when the bytes overflow the last one, leaving one limb per started B-byte run. */
  lemma AppendCount(limbs: seq<nat>, numBytes: nat, v: nat, n: nat, b: nat)
    requires 0 < b && 0 < numBytes && |limbs| == NumElements(numBytes, b)
    requires n <= |limbs| * b - numBytes + b
    ensures 0 < |limbs| && numBytes <= |limbs| * b
    ensures |AppendLimbs(limbs, numBytes, v, n, b)| == NumElements(numBytes + n, b)
  {
    AppendedCount(numBytes, n, b);
  }

  /** Appending n bytes that fit adds a limb exactly when some of them overflow the last one. */
  lemma AppendedCount(numBytes: nat, n: nat, b: nat)
    requires 0 < b && 0 < numBytes
    requires n <= NumElements(numBytes, b) * b - numBytes + b
    ensures 0 < NumElements(numBytes, b) && numBytes <= NumElements(numBytes, b) * b
    ensures NumElements(numBytes + n, b)
         == NumElements(numBytes, b) + if ForNewLimb(NumElements(numBytes, b) * b - numBytes, n) > 0 then 1 else 0
  {
    NumElementsIsCeiling(numBytes, b);
    var ne := NumElements(numBytes, b);
    var space := ne * b - numBytes;
    var nNew := ForNewLimb(space, n);
    if nNew > 0 {
      assert (ne + 1 - 1) * b == ne * b;
      assert (ne + 1) * b == ne * b + b;
      NumElementsExact(numBytes + n, ne + 1, b);
    } else {
      NumElementsExact(numBytes + n, ne, b);
    }
  }

  /** append_current spells the leading bytes of the n-byte encoding of v, those that fit. */
  lemma CurrentIsLeadingDigits(v: nat, n: nat, space: nat)
    ensures ForCurrentLimb(space, n) <= n
    ensures BeValue(ToDigits(v, n, 256)[..ForCurrentLimb(space, n)], 256) == AppendCurrent(v, n, space)
  {
    var nCur, nNew := ForCurrentLimb(space, n), ForNewLimb(space, n);
    DigitRange(v, n, 0, nCur, 256);
    assert ToDigits(v, n, 256)[0..nCur] == ToDigits(v, n, 256)[..nCur];
    Pow2Bytes(nNew);
    Pow2Bytes(nCur);
    assert n - nCur == nNew;
    assert 8 * n - 8 * nNew == 8 * nCur;
  }

  /** append_next spells the remaining, trailing bytes. */
  lemma NextIsTrailingDigits(v: nat, n: nat, space: nat)
    ensures ForCurrentLimb(space, n) <= n
    ensures BeValue(ToDigits(v, n, 256)[ForCurrentLimb(space, n)..], 256) == AppendNext(v, n, space)
  {
    var nCur, nNew := ForCurrentLimb(space, n), ForNewLimb(space, n);
    DigitRange(v, n, nCur, n, 256);
    assert ToDigits(v, n, 256)[nCur..n] == ToDigits(v, n, 256)[nCur..];
    Pow2Bytes(nNew);
    assert n - nCur == nNew;
    assert Pow(256, 0) == 1 && Pow(2, 0) == 1;
  }

  /** How the old and new bytes fall into the last old limb and the new one. */
  lemma AppendChunks(data: seq<Byte>, d: seq<Byte>, b: nat)
    requires 0 < b && 0 < |data|
    requires |d| <= NumElements(|data|, b) * b - |data| + b
    ensures var ne := NumElements(|data|, b);
      var space := ne * b - |data|;
      var nCur := ForCurrentLimb(space, |d|);
      && 0 < ne && |data| <= ne * b && space < b
      && Chunk(data, ne - 1, b) == data[(ne - 1) * b..]
      && Chunk(data + d, ne - 1, b) == data[(ne - 1) * b..] + d[..nCur]
      && |data[(ne - 1) * b..]| == b - space
  {
    var ne := NumElements(|data|, b);
    var lo := LastLimbStart(|data|, b);
    assert Chunk(data, ne - 1, b) == data[lo..] by {
      assert Min(ne * b, |data|) == |data| && Min(lo, |data|) == lo;
    }
    LastChunkOfAppended(data, d, b);
  }

  /** The last limb starts (ne - 1) * B bytes in, before the end of the bytes, and ends ne * B bytes in. */
  lemma LastLimbStart(numBytes: nat, b: nat) returns (lo: nat)
    requires 0 < b && 0 < numBytes
    ensures var ne := NumElements(numBytes, b);
      && 0 < ne && lo == (ne - 1) * b && lo + b == ne * b && lo < numBytes <= ne * b
  {
    var ne := NumElements(numBytes, b);
    NumElementsIsCeiling(numBytes, b);
    lo := (ne - 1) * b;
    assert lo + b == ne * b by {
      assert (ne - 1 + 1) * b == (ne - 1) * b + b;
    }
  }

  /** After the append, the old last limb's run is its bytes followed by the appended bytes that fit. */
  lemma LastChunkOfAppended(data: seq<Byte>, d: seq<Byte>, b: nat)
    requires 0 < b && 0 < |data|
    requires |d| <= NumElements(|data|, b) * b - |data| + b
    ensures var ne := NumElements(|data|, b);
      && 0 < ne
      && Chunk(data + d, ne - 1, b) == data[(ne - 1) * b..] + d[..ForCurrentLimb(ne * b - |data|, |d|)]
  {
    var ne := NumElements(|data|, b);
    var lo := LastLimbStart(|data|, b);
    var nCur := ForCurrentLimb(ne * b - |data|, |d|);
    var e := data + d;
    assert Min(ne * b, |e|) == |data| + nCur && Min(lo, |e|) == lo;
    assert e[lo..|data| + nCur] == data[lo..] + d[..nCur];
  }

  lemma AppendEarlierLimb(data: seq<Byte>, v: nat, n: nat, b: nat, i: nat)
    requires 0 < b && 0 < |data|
    requires n <= NumElements(|data|, b) * b - |data| + b
    requires i + 1 < NumElements(|data|, b)
    ensures |data| <= NumElements(|data|, b) * b
    ensures i < NumElements(|data| + n, b)
    ensures AppendLimbs(PackBytes(data, b), |data|, v, n, b)[i] == PackBytes(data + ToDigits(v, n, 256), b)[i]
  {
    var d := ToDigits(v, n, 256);
    var limbs := PackBytes(data, b);
    AppendedCount(|data|, n, b);
    assert AppendLimbs(limbs, |data|, v, n, b)[i] == limbs[i] by {
      AppendLimbsLast(limbs, |data|, v, n, b);
      assert AppendLimbs(limbs, |data|, v, n, b)[..|limbs| - 1][i] == limbs[..|limbs| - 1][i];
    }
    assert PackBytes(data + d, b)[i] == limbs[i] by {
      PackBytesAt(data, b, i);
      PackBytesAt(data + d, b, i);
      EarlierChunk(data, d, b, i);
    }
  }

  /** Limb i of the byte constructor is run i of the bytes, left-aligned. */
  lemma PackBytesAt(input: seq<Byte>, b: nat, i: nat)
    requires b > 0 && i < NumElements(|input|, b)
    ensures PackBytes(input, b)[i] == LeftAligned(Chunk(input, i, b), 256, b)
  {
  }

  /** A limb before the last holds the same bytes after append. */
  lemma EarlierChunk(data: seq<Byte>, d: seq<Byte>, b: nat, i: nat)
    requires 0 < b && i + 1 < NumElements(|data|, b)
    ensures Chunk(data + d, i, b) == Chunk(data, i, b)
  {
    var ne := NumElements(|data|, b);
    NumElementsIsCeiling(|data|, b);
    MulMonotone(i + 1, ne - 1, b);
    assert (i + 1) * b == i * b + b;
  }

  lemma AppendLastLimb(data: seq<Byte>, v: nat, n: nat, b: nat)
    requires 0 < b && 0 < |data|
    requires n <= NumElements(|data|, b) * b - |data| + b
    ensures 0 < NumElements(|data|, b) && |data| <= NumElements(|data|, b) * b
    ensures NumElements(|data|, b) - 1 < NumElements(|data| + n, b)
    ensures var last := NumElements(|data|, b) - 1;
      AppendLimbs(PackBytes(data, b), |data|, v, n, b)[last] == PackBytes(data + ToDigits(v, n, 256), b)[last]
  {
    var ne := NumElements(|data|, b);
    var d := ToDigits(v, n, 256);
    var space := ne * b - |data|;
    var limbs := PackBytes(data, b);
    var old_ := PackLastLimbs(data, d, b);
    AppendCount(limbs, |data|, v, n, b);
    AppendLimbsLast(limbs, |data|, v, n, b);
    CurrentJoinsLast(old_, v, n, space, b);
  }

  /** More bytes never need fewer limbs. */
  lemma NumElementsMonotone(x: nat, y: nat, b: nat)
    requires 0 < b && x <= y
    ensures NumElements(x, b) <= NumElements(y, b)
  {
    NumElementsIsCeiling(x, b);
    NumElementsIsCeiling(y, b);
    var nx, ny := NumElements(x, b), NumElements(y, b);
    if ny < nx {
      MulMonotone(ny, nx - 1, b);
    }
  }

  /** The bytes of the last limb, and that limb before and after the n bytes are appended to the bytes it packs. */
  lemma PackLastLimbs(data: seq<Byte>, d: seq<Byte>, b: nat) returns (old_: seq<Byte>)
    requires 0 < b && 0 < |data|
    requires |d| <= NumElements(|data|, b) * b - |data| + b
    ensures 0 < NumElements(|data|, b) && |data| <= NumElements(|data|, b) * b
    ensures NumElements(|data|, b) <= NumElements(|data + d|, b)
    ensures var ne := NumElements(|data|, b);
      var space := ne * b - |data|;
      var nCur := ForCurrentLimb(space, |d|);
      && |old_| + space == b
      && PackBytes(data, b)[ne - 1] == LeftAligned(old_, 256, b)
      && PackBytes(data + d, b)[ne - 1] == LeftAligned(old_ + d[..nCur], 256, b)
  {
    var ne := NumElements(|data|, b);
    NumElementsMonotone(|data|, |data + d|, b);
    AppendChunks(data, d, b);
    old_ := data[(ne - 1) * b..];
    var p, q := PackBytes(data, b), PackBytes(data + d, b);
    assert p[ne - 1] == LeftAligned(Chunk(data, ne - 1, b), 256, b);
    assert q[ne - 1] == LeftAligned(Chunk(data + d, ne - 1, b), 256, b);
  }

  /** append keeps every limb before the last, and adds the shifted append_current to the last one. */
  lemma AppendLimbsLast(limbs: seq<nat>, numBytes: nat, v: nat, n: nat, b: nat)
    requires 0 < |limbs| && numBytes <= |limbs| * b && n <= |limbs| * b - numBytes + b
    ensures var r := AppendLimbs(limbs, numBytes, v, n, b);
      var space := |limbs| * b - numBytes;
      var last := |limbs| - 1;
      && |limbs| <= |r|
      && r[..last] == limbs[..last]
      && r[last] == limbs[last] + AppendCurrent(v, n, space) * Pow(2, 8 * (space - ForCurrentLimb(space, n)))
  {
  }

  /** The last limb's bytes followed by the leading appended bytes: the limb plus append_current shifted into the free space. */
  lemma CurrentJoinsLast(old_: seq<nat>, v: nat, n: nat, space: nat, b: nat)
    requires |old_| + space == b
    ensures ForCurrentLimb(space, n) <= space && ForCurrentLimb(space, n) <= n
    ensures var nCur := ForCurrentLimb(space, n);
      LeftAligned(old_ + ToDigits(v, n, 256)[..nCur], 256, b)
        == LeftAligned(old_, 256, b) + AppendCurrent(v, n, space) * Pow(2, 8 * (space - nCur))
  {
    var nCur := ForCurrentLimb(space, n);
    var d := ToDigits(v, n, 256);
    assert BeValue(d[..nCur], 256) == AppendCurrent(v, n, space) by {
      CurrentIsLeadingDigits(v, n, space);
    }
    assert Pow(2, 8 * (space - nCur)) == Pow(256, b - |old_| - nCur) by {
      Pow2Bytes(space - nCur);
    }
    LeftAlignedConcat(old_, d[..nCur], 256, b);
  }

  lemma AppendNewLimb(data: seq<Byte>, v: nat, n: nat, b: nat)
    requires 0 < b && 0 < |data|
    requires n <= NumElements(|data|, b) * b - |data| + b
    requires ForNewLimb(NumElements(|data|, b) * b - |data|, n) > 0
    ensures |data| <= NumElements(|data|, b) * b
    ensures var ne := NumElements(|data|, b);
      var r := AppendLimbs(PackBytes(data, b), |data|, v, n, b);
      var packed := PackBytes(data + ToDigits(v, n, 256), b);
      ne < |r| && ne < |packed| && r[ne] == packed[ne]
  {
    var ne := NumElements(|data|, b);
    var space := ne * b - |data|;
    var limb := AppendNext(v, n, space) * Pow(2, 8 * (b - ForNewLimb(space, n)));
    var packed := PackBytes(data + ToDigits(v, n, 256), b);
    assert |data| <= ne * b && ne < |packed| && packed[ne] == limb by {
      NewLimbOfPackDigits(data, v, n, b);
    }
    var r := AppendLimbs(PackBytes(data, b), |data|, v, n, b);
    assert ne < |r| && r[ne] == limb by {
      NewLimbOfAppendPacked(data, v, n, b);
    }
  }

  /** NewLimbOfAppend on the byte constructor's limbs. */
  lemma NewLimbOfAppendPacked(data: seq<Byte>, v: nat, n: nat, b: nat)
    requires 0 < b && 0 < |data| && |data| <= NumElements(|data|, b) * b
    requires n <= NumElements(|data|, b) * b - |data| + b
    requires ForNewLimb(NumElements(|data|, b) * b - |data|, n) > 0
    ensures var ne := NumElements(|data|, b);
      var r := AppendLimbs(PackBytes(data, b), |data|, v, n, b);
      var space := ne * b - |data|;
      ne < |r| && r[ne] == AppendNext(v, n, space) * Pow(2, 8 * (b - ForNewLimb(space, n)))
  {
    NewLimbOfAppend(PackBytes(data, b), |data|, v, n, b);
  }

  /** The byte constructor's limb after the old ones, on the appended encoding, is append_next left-aligned. */
  lemma NewLimbOfPackDigits(data: seq<Byte>, v: nat, n: nat, b: nat)
    requires 0 < b && 0 < |data|
    requires n <= NumElements(|data|, b) * b - |data| + b
    requires ForNewLimb(NumElements(|data|, b) * b - |data|, n) > 0
    ensures |data| <= NumElements(|data|, b) * b
    ensures NumElements(|data|, b) < NumElements(|data| + n, b)
    ensures var space := NumElements(|data|, b) * b - |data|;
      PackBytes(data + ToDigits(v, n, 256), b)[NumElements(|data|, b)]
      == AppendNext(v, n, space) * Pow(2, 8 * (b - ForNewLimb(space, n)))
  {
    var ne := NumElements(|data|, b);
    AppendedCount(|data|, n, b);
    var d := ToDigits(v, n, 256);
    var space := ne * b - |data|;
    var left := LeftAligned(d[ForCurrentLimb(space, n)..], 256, b);
    assert PackBytes(data + d, b)[ne] == left by {
      NewLimbOfPack(data, d, b);
    }
    assert left == AppendNext(v, n, space) * Pow(2, 8 * (b - ForNewLimb(space, n))) by {
      NewLimbIsLeftAligned(v, n, space, b);
    }
  }

  /** When bytes overflow, append's limb after the old ones is append_next, left-aligned. */
  lemma NewLimbOfAppend(limbs: seq<nat>, numBytes: nat, v: nat, n: nat, b: nat)
    requires 0 < |limbs| && numBytes <= |limbs| * b && n <= |limbs| * b - numBytes + b
    requires ForNewLimb(|limbs| * b - numBytes, n) > 0
    ensures var r := AppendLimbs(limbs, numBytes, v, n, b);
      var space := |limbs| * b - numBytes;
      |r| == |limbs| + 1 && r[|limbs|] == AppendNext(v, n, space) * Pow(2, 8 * (b - ForNewLimb(space, n)))
  {
  }

  /** The byte constructor's limb after the old ones holds the overflowing bytes. */
  lemma NewLimbOfPack(data: seq<Byte>, d: seq<Byte>, b: nat)
    requires 0 < b && 0 < |data|
    requires |d| <= NumElements(|data|, b) * b - |data| + b
    requires ForNewLimb(NumElements(|data|, b) * b - |data|, |d|) > 0
    requires NumElements(|data|, b) < NumElements(|data| + |d|, b)
    ensures |data| <= NumElements(|data|, b) * b
    ensures PackBytes(data + d, b)[NumElements(|data|, b)]
         == LeftAligned(d[ForCurrentLimb(NumElements(|data|, b) * b - |data|, |d|)..], 256, b)
  {
    NewChunk(data, d, b);
  }

  /** The bytes that overflow the last limb are the new limb's. */
  lemma NewChunk(data: seq<Byte>, d: seq<Byte>, b: nat)
    requires 0 < b && 0 < |data|
    requires |d| <= NumElements(|data|, b) * b - |data| + b
    requires ForNewLimb(NumElements(|data|, b) * b - |data|, |d|) > 0
    ensures |data| <= NumElements(|data|, b) * b
    ensures Chunk(data + d, NumElements(|data|, b), b) == d[ForCurrentLimb(NumElements(|data|, b) * b - |data|, |d|)..]
  {
    var ne := NumElements(|data|, b);
    NumElementsIsCeiling(|data|, b);
    assert (ne + 1) * b == ne * b + b;
  }

  /** The corrected new limb is the trailing bytes of the encoding, left-aligned. */
  lemma NewLimbIsLeftAligned(v: nat, n: nat, space: nat, b: nat)
    requires ForNewLimb(space, n) <= b
    ensures ForCurrentLimb(space, n) <= n
    ensures AppendNext(v, n, space) * Pow(2, 8 * (b - ForNewLimb(space, n)))
         == LeftAligned(ToDigits(v, n, 256)[ForCurrentLimb(space, n)..], 256, b)
  {
    NextIsTrailingDigits(v, n, space);
    Pow2Bytes(b - ForNewLimb(space, n));
  }

  /**
   * append on packed bytes in the byte constructor's form, with the n-byte
   * big-endian encoding of v, gives the byte constructor's form of the longer string.
   */
  lemma {:induction false} AppendPacks(data: seq<Byte>, v: nat, n: nat, b: nat)
    requires 0 < b && 0 < |data|
    requires n <= NumElements(|data|, b) * b - |data| + b
    ensures 0 < NumElements(|data|, b) && |data| <= NumElements(|data|, b) * b
    ensures AppendLimbs(PackBytes(data, b), |data|, v, n, b) == PackBytes(data + ToDigits(v, n, 256), b)
  {
    var limbs := PackBytes(data, b);
    assert 0 < |limbs| && |data| <= |limbs| * b && |AppendLimbs(limbs, |data|, v, n, b)| == NumElements(|data| + n, b) by {
      AppendCount(limbs, |data|, v, n, b);
    }
    var r := AppendLimbs(limbs, |data|, v, n, b);
    var packed := PackBytes(data + ToDigits(v, n, 256), b);
    assert |packed| == |r|;
    forall i | 0 <= i < |r|
      ensures r[i] == packed[i]
    {
      AppendLimbAt(data, v, n, b, i);
    }
  }

  /** Limb i after append is limb i of the byte constructor on the longer string, whichever part of append made it. */
  lemma AppendLimbAt(data: seq<Byte>, v: nat, n: nat, b: nat, i: nat)
    requires 0 < b && 0 < |data|
    requires n <= NumElements(|data|, b) * b - |data| + b
    requires i < NumElements(|data| + n, b)
    ensures 0 < NumElements(|data|, b) && |data| <= NumElements(|data|, b) * b
    ensures |AppendLimbs(PackBytes(data, b), |data|, v, n, b)| == NumElements(|data| + n, b)
    ensures AppendLimbs(PackBytes(data, b), |data|, v, n, b)[i] == PackBytes(data + ToDigits(v, n, 256), b)[i]
  {
    var ne := NumElements(|data|, b);
    AppendCount(PackBytes(data, b), |data|, v, n, b);
    if i + 1 < ne {
      AppendEarlierLimb(data, v, n, b, i);
    } else if i + 1 == ne {
      AppendLastLimb(data, v, n, b);
    } else {
      assert ForNewLimb(ne * b - |data|, n) > 0 && i == ne;
      AppendNewLimb(data, v, n, b);
    }
  }

  /** get_value after the byte constructor and append reads back the bytes followed by the n-byte encoding of v. */
  lemma AppendThenGetValue(data: seq<Byte>, v: nat, n: nat, b: nat)
    requires 0 < b && 0 < |data|
    requires n <= NumElements(|data|, b) * b - |data| + b
    ensures 0 < NumElements(|data|, b) && |data| <= NumElements(|data|, b) * b
    ensures |AppendLimbs(PackBytes(data, b), |data|, v, n, b)| == NumElements(|data| + n, b)
    ensures Unpack(AppendLimbs(PackBytes(data, b), |data|, v, n, b), |data| + n, b) == data + ToDigits(v, n, 256)
  {
    AppendPacks(data, v, n, b);
    UnpackPackBytes(data + ToDigits(v, n, 256), b);
  }

  // ----- to_unverified_byte_slices -----

  /**
   * The slices of one limb holding w bytes: its w leading bytes, bytes_per_slice
   * at a time (the last run possibly shorter), each as the number it spells.
   */
  function LimbSlices(x: nat, w: nat, bps: nat, b: nat): (r: seq<nat>)
    requires 0 < bps && w <= b
    ensures |r| == NumElements(w, bps)
  {
    var ds := ToDigits(x, b, 256)[..w];
    seq(NumElements(w, bps), j requires 0 <= j => BeValue(Chunk(ds, j, bps), 256))
  }

  /** The slices of limbs 0 .. k - 1, in limb order. */
  function SlicesUpTo(limbs: seq<nat>, numBytes: nat, b: nat, bps: nat, k: nat): seq<nat>
    requires 0 < b && 0 < bps && |limbs| == NumElements(numBytes, b) && k <= |limbs|
  {
    if k == 0 then []
    else
      BytesInLimbRange(numBytes, k - 1, b);
      SlicesUpTo(limbs, numBytes, b, bps, k - 1)
        + LimbSlices(limbs[k - 1], BytesInLimb(numBytes, |limbs|, k - 1, b), bps, b)
  }

  /** What to_unverified_byte_slices returns: every limb's slices, limb after limb. */
  function ByteSlices(limbs: seq<nat>, numBytes: nat, b: nat, bps: nat): seq<nat>
    requires 0 < b && 0 < bps && |limbs| == NumElements(numBytes, b)
  {
    SlicesUpTo(limbs, numBytes, b, bps, |limbs|)
  }

  /**
   * Slice j of a limb, cut at the corrected offsets (end B - j * bytes_per_slice
   * bytes up, start bytes_in_slice below it), is the j-th run of its leading bytes.
   */
  lemma SliceIsRun(x: nat, w: nat, bps: nat, b: nat, j: nat)
    requires 0 < bps && w <= b && j < NumElements(w, bps)
    ensures var bis := BytesInLimb(w, NumElements(w, bps), j, bps);
      && 0 < bis <= bps && j * bps + bis <= w
      && Slice(x, 8 * (b - (j * bps + bis)), 8 * (b - j * bps)) == LimbSlices(x, w, bps, b)[j]
  {
    BytesInLimbRange(w, j, bps);
    var bis := BytesInLimb(w, NumElements(w, bps), j, bps);
    var ds := ToDigits(x, b, 256);
    ByteSlice(x, b, j * bps, j * bps + bis);
    ChunkIsRun(ds[..w], j, bps, bis);
    assert ds[..w][j * bps..j * bps + bis] == ds[j * bps..j * bps + bis];
  }

  /** Adding slice j, shifted to its start, extends the left-aligned leading bytes by one run. */
  lemma SliceAccumulatorStep(x: nat, w: nat, bps: nat, b: nat, j: nat)
    requires 0 < bps && w <= b && j < NumElements(w, bps)
    ensures var bis := BytesInLimb(w, NumElements(w, bps), j, bps);
      var ds := ToDigits(x, b, 256)[..w];
      && j * bps + bis <= w && Min(j * bps, w) == j * bps && Min((j + 1) * bps, w) == j * bps + bis
      && LeftAligned(ds[..j * bps + bis], 256, b)
         == LeftAligned(ds[..j * bps], 256, b) + LimbSlices(x, w, bps, b)[j] * Pow(2, 8 * (b - (j * bps + bis)))
  {
    var bis := BytesInLimb(w, NumElements(w, bps), j, bps);
    var ds := ToDigits(x, b, 256)[..w];
    SliceBounds(w, bps, j);
    ChunkIsRun(ds, j, bps, bis);
    assert LimbSlices(x, w, bps, b)[j] == BeValue(ds[j * bps..j * bps + bis], 256);
    LeftAlignedRun(ds, j * bps, j * bps + bis, b);
  }

  /** Slice j of a w-byte limb covers bytes j * bytes_per_slice onwards, bytes_in_slice of them, inside the limb. */
  lemma SliceBounds(w: nat, bps: nat, j: nat)
    requires 0 < bps && j < NumElements(w, bps)
    ensures var bis := BytesInLimb(w, NumElements(w, bps), j, bps);
      && 0 < bis <= bps && j * bps + bis <= w && (bis < bps ==> j * bps + bis == w)
      && Min(j * bps, w) == j * bps && Min((j + 1) * bps, w) == j * bps + bis
  {
    BytesInLimbRange(w, j, bps);
    assert (j + 1) * bps == j * bps + bps;
  }

  /** Extending a left-aligned prefix from at to end bytes adds bytes at .. end - 1 just below it. */
  lemma LeftAlignedRun(ds: seq<nat>, at: nat, end: nat, b: nat)
    requires at <= end <= |ds| <= b
    ensures LeftAligned(ds[..end], 256, b) == LeftAligned(ds[..at], 256, b) + BeValue(ds[at..end], 256) * Pow(2, 8 * (b - end))
  {
    assert ds[..end] == ds[..at] + ds[at..end];
    LeftAlignedConcat(ds[..at], ds[at..end], 256, b);
    Pow2Bytes(b - end);
  }

  /** One iteration of the slicing loop: the next slice and the accumulator it extends. */
  lemma SlicesStep(x: nat, w: nat, bps: nat, b: nat, j: nat)
    requires 0 < bps && w <= b && j < NumElements(w, bps)
    ensures var bis := BytesInLimb(w, NumElements(w, bps), j, bps);
      var start, end := (b - (j * bps + bis)) * 8, (b - j * bps) * 8;
      var ds := ToDigits(x, b, 256)[..w];
      var slices := LimbSlices(x, w, bps, b);
      && 0 < bis <= bps && j * bps + bis <= w && start <= end
      && slices[..j + 1] == slices[..j] + [Slice(x, start, end)]
      && LeftAligned(ds[..Min((j + 1) * bps, w)], 256, b)
         == LeftAligned(ds[..Min(j * bps, w)], 256, b) + Slice(x, start, end) * Pow(2, start)
  {
    SliceIsRun(x, w, bps, b, j);
    SliceAccumulatorStep(x, w, bps, b, j);
    var bis := BytesInLimb(w, NumElements(w, bps), j, bps);
    assert (b - (j * bps + bis)) * 8 == 8 * (b - (j * bps + bis));
    assert (b - j * bps) * 8 == 8 * (b - j * bps);
    var slices := LimbSlices(x, w, bps, b);
    assert slices[..j + 1] == slices[..j] + [slices[j]];
  }

  /** One iteration of the loop over limbs: limb i's slices follow the earlier ones. */
  lemma SlicesUpToStep(limbs: seq<nat>, numBytes: nat, b: nat, bps: nat, i: nat)
    requires 0 < b && 0 < bps && |limbs| == NumElements(numBytes, b) && i < |limbs|
    ensures var w := BytesInLimb(numBytes, |limbs|, i, b);
      && 0 < w <= b
      && SlicesUpTo(limbs, numBytes, b, bps, i + 1) == SlicesUpTo(limbs, numBytes, b, bps, i) + LimbSlices(limbs[i], w, bps, b)
      && (LimbCanonical(limbs, numBytes, b, i) <==> LeftAligned(ToDigits(limbs[i], b, 256)[..w], 256, b) == limbs[i])
  {
    BytesInLimbRange(numBytes, i, b);
    SliceAccumulatorIsCanonical(limbs[i], BytesInLimb(numBytes, |limbs|, i, b), b);
  }

  /** Once every slice is added the accumulator is the limb's w leading bytes, left-aligned. */
  lemma SliceAccumulatorEnd(w: nat, bps: nat)
    requires 0 < bps
    ensures Min(NumElements(w, bps) * bps, w) == w
  {
    NumElementsIsCeiling(w, bps);
  }

  /** So the equality the source asserts on each limb holds exactly when the limb is canonical. */
  lemma SliceAccumulatorIsCanonical(x: nat, w: nat, b: nat)
    requires w <= b
    ensures LeftAligned(ToDigits(x, b, 256)[..w], 256, b) == x <==> Canonical(x, w, b)
  {
    PrefixReconstructs(x, b, w, 256);
  }

  /** A left-aligned limb's leading digits are the digits it was built from. */
  lemma DigitsOfLeftAligned(c: seq<nat>, b: nat)
    requires AllBelow(c, 256) && |c| <= b
    ensures ToDigits(LeftAligned(c, 256, b), b, 256)[..|c|] == c
  {
    var padded := c + Zeros(b - |c|);
    LeftAlignedIsPadded(c, 256, b);
    assert AllBelow(padded, 256);
    ToDigitsOfValue(padded, 256);
    assert padded[..|c|] == c;
  }

  /** The slices of a limb of the byte constructor are the runs of the bytes packed into it. */
  lemma SlicesOfPackedLimb(data: seq<Byte>, b: nat, bps: nat, i: nat)
    requires 0 < b && 0 < bps && i < NumElements(|data|, b)
    ensures var w := BytesInLimb(|data|, NumElements(|data|, b), i, b);
      var c := Chunk(data, i, b);
      && |c| == w && w <= b
      && LimbSlices(PackBytes(data, b)[i], w, bps, b) == seq(NumElements(w, bps), j requires 0 <= j => BeValue(Chunk(c, j, bps), 256))
  {
    BytesInLimbRange(|data|, i, b);
    var w := BytesInLimb(|data|, NumElements(|data|, b), i, b);
    ChunkIsRun(data, i, b, w);
    var c := Chunk(data, i, b);
    assert AllBelow(c, 256);
    DigitsOfLeftAligned(c, b);
  }

  /** to_unverified_byte_slices as written: slice j's offsets step by bytes_in_slice, not by bytes_per_slice. */
  function LimbSlicesAsWritten(x: nat, w: nat, bps: nat, b: nat): (r: seq<nat>)
    requires 0 < bps && w <= b
    ensures |r| == NumElements(w, bps)
  {
    seq(NumElements(w, bps), j requires 0 <= j < NumElements(w, bps) =>
      AsWrittenOffsets(w, bps, b, j);
      var bis := BytesInLimb(w, NumElements(w, bps), j, bps);
      Slice(x, 8 * (b - (j + 1) * bis), 8 * (b - j * bis)))
  }

  /** The as-written offsets stay inside the limb. */
  lemma AsWrittenOffsets(w: nat, bps: nat, b: nat, j: nat)
    requires 0 < bps && w <= b && j < NumElements(w, bps)
    ensures var bis := BytesInLimb(w, NumElements(w, bps), j, bps);
      0 < bis && (j + 1) * bis <= b
  {
    BytesInLimbRange(w, j, bps);
    var bis := BytesInLimb(w, NumElements(w, bps), j, bps);
    MulMonotone(bis, bps, j);
    assert (j + 1) * bis == j * bis + bis;
  }

  /**
   * With B = 4, a limb holding the three bytes 01 02 03 and two-byte slices,
   * the second slice as written is bytes 16 .. 23 of the limb, 0x02 again,
   * where the corrected one is the third byte, 0x03.
   */
  lemma LimbSlicesAsWrittenFails()
    ensures LimbSlicesAsWritten(0x01020300, 3, 2, 4) == [0x0102, 0x02]
    ensures LimbSlices(0x01020300, 3, 2, 4) == [0x0102, 0x03]
  {
    PowersOfTwo();
    assert NumElements(3, 2) == 2;
    assert BytesInLimb(3, 2, 0, 2) == 2 && BytesInLimb(3, 2, 1, 2) == 1;
    SliceIsRun(0x01020300, 3, 2, 4, 0);
    SliceIsRun(0x01020300, 3, 2, 4, 1);
    assert Slice(0x01020300, 16, 32) == 0x0102;
    assert Slice(0x01020300, 16, 24) == 0x02;
    assert Slice(0x01020300, 8, 16) == 0x03;
  }

  /** When bytes_per_slice divides the bytes in the limb every slice is full, and the two agree. */
  lemma LimbSlicesAgree(x: nat, w: nat, bps: nat, b: nat)
    requires 0 < bps && w <= b && w % bps == 0
    ensures LimbSlicesAsWritten(x, w, bps, b) == LimbSlices(x, w, bps, b)
  {
    var ne := NumElements(w, bps);
    forall j | 0 <= j < ne
      ensures LimbSlicesAsWritten(x, w, bps, b)[j] == LimbSlices(x, w, bps, b)[j]
    {
      SliceIsRun(x, w, bps, b, j);
      var bis := BytesInLimb(w, ne, j, bps);
      assert bis == bps by {
        FullSlice(w, bps, j);
      }
      MulDistrib(j, 1, bps);
    }
  }

  /** When bytes_per_slice divides the limb's bytes, every slice, the last included, is bytes_per_slice long. */
  lemma FullSlice(w: nat, bps: nat, j: nat)
    requires 0 < bps && w % bps == 0 && j < NumElements(w, bps)
    ensures BytesInLimb(w, NumElements(w, bps), j, bps) == bps
  {
    var ne := NumElements(w, bps);
    if j == ne - 1 {
      assert w == (w / bps) * bps;
      MulDistrib(j, 1, bps);
    }
  }

  /** A std::string's chars taken as uint8_t. */
  function StringBytes(s: string): (bytes: seq<Byte>)
    ensures |bytes| == |s|
  {
    seq(|s|, i requires 0 <= i < |s| => (s[i] as int) % 256)
  }

  class PackedBytes {
    /** BYTES_PER_ELEMENT. */
    const bytesPerElement: nat
    var numBytes: nat
    var limbs: seq<nat>

    /** The shape every constructor establishes: one limb per started B-byte run. */
    ghost predicate Valid()
      reads this
    {
      0 < bytesPerElement <= 32 && |limbs| == NumElements(numBytes, bytesPerElement)
    }

    /** packed_bytes(ctx, n): n bytes' worth of zero limbs. */
    constructor Sized(b: nat, n: nat)
      requires 0 < b <= 32
      ensures Valid() && bytesPerElement == b && numBytes == n
      ensures limbs == Zeros(NumElements(n, b))
    {
      bytesPerElement := b;
      numBytes := n;
      limbs := Zeros(NumElements(n, b));
    }

    /** The field-vector constructor's outer loop: one limb per iteration. */
    static method LimbsFromFields(input: seq<nat>, bpi: nat, b: nat) returns (limbs: seq<nat>)
      requires 0 < b <= 32 && 0 < bpi <= b && FieldsFit(|input|, bpi, b)
      ensures limbs == PackFields(input, bpi, b)
    {
      var inputsPerLimb := b / bpi;
      var numBytes := bpi * |input|;
      var numElements := NumElements(numBytes, b);
      ghost var packed := PackFields(input, bpi, b);
      limbs := [];
      var i := 0;
      while i < numElements
        invariant 0 <= i <= numElements
        invariant limbs == packed[..i]
      {
        var numInputs := if i == numElements - 1 then |input| - i * inputsPerLimb else inputsPerLimb;
        assert i * inputsPerLimb + numInputs <= |input| && numInputs * bpi <= b
          && packed[i] == FieldsLimb(input, i * inputsPerLimb, numInputs, bpi, b) by {
          FieldsLayoutFit(|input|, bpi, b, i);
        }
        var limb := LimbFromFields(input, i * inputsPerLimb, numInputs, bpi, b);
        limbs := limbs + [limb];
        i := i + 1;
      }
    }

    /** The field-vector constructor's inner loop: the weighted sum of one limb's inputs. */
    static method LimbFromFields(input: seq<nat>, first: nat, numInputs: nat, bpi: nat, b: nat) returns (limb: nat)
      requires first + numInputs <= |input| && numInputs * bpi <= b
      ensures limb == FieldsLimb(input, first, numInputs, bpi, b)
    {
      limb := 0;
      var j := 0;
      while j < numInputs
        invariant 0 <= j <= numInputs && j * bpi <= b
        invariant limb == FieldsLimb(input, first, j, bpi, b)
      {
        MulMonotone(j + 1, numInputs, bpi);
        FieldsLimbStep(input, first, j, bpi, b);
        var limbShift := (b - (j + 1) * bpi) * 8;
        limb := limb + input[first + j] * Pow(2, limbShift);
        j := j + 1;
      }
    }

    /** packed_bytes(vector<field_t>, bytes_per_input): each input takes bytes_per_input bytes. */
    constructor FromFields(b: nat, input: seq<nat>, bytesPerInput: nat)
      requires 0 < b <= 32 && 0 < bytesPerInput <= b && FieldsFit(|input|, bytesPerInput, b)
      ensures Valid() && bytesPerElement == b && numBytes == bytesPerInput * |input|
      ensures limbs == PackFields(input, bytesPerInput, b)
    {
      bytesPerElement := b;
      numBytes := bytesPerInput * |input|;
      var data := LimbsFromFields(input, bytesPerInput, b);
      limbs := data;
    }

    /** The byte constructor's accumulation loop. */
    static method LimbsFromBytes(input: seq<Byte>, b: nat) returns (data: seq<nat>)
      requires 0 < b <= 32
      ensures data == PackBytes(input, b)
    {
      data := Zeros(NumElements(|input|, b));
      var i := 0;
      while i < |input|
        invariant 0 <= i <= |input|
        invariant data == LoopLimbs(input, i, b)
      {
        data := AddByte(input, b, i, data);
        i := i + 1;
      }
      LoopLimbsArePartialPack(input, |input|, b);
      PartialPackEnds(input, b);
    }

    /** One step of the accumulation loop: input byte i is added at byte i mod B of limb i div B. */
    static method AddByte(input: seq<Byte>, b: nat, i: nat, data: seq<nat>) returns (data': seq<nat>)
      requires 0 < b && i < |input| && data == LoopLimbs(input, i, b)
      ensures data' == LoopLimbs(input, i + 1, b)
    {
      LoopLimbsUnfold(input, i, b);
      var limb := i / b;
      var limbShift := (b - 1 - i % b) * 8;
      data' := data[limb := data[limb] + ShiftLeft(input[i], limbShift)];
    }

    /** packed_bytes(ctx, vector<uint8_t>). */
    constructor FromBytes(b: nat, input: seq<Byte>)
      requires 0 < b <= 32
      ensures Valid() && bytesPerElement == b && numBytes == |input|
      ensures limbs == PackBytes(input, b)
    {
      bytesPerElement := b;
      numBytes := |input|;
      var data := LimbsFromBytes(input, b);
      limbs := data;
    }

    /** packed_bytes(ctx, std::string): the byte constructor on the string's chars. */
    constructor FromString(b: nat, input: string)
      requires 0 < b <= 32
      ensures Valid() && bytesPerElement == b && numBytes == |input|
      ensures limbs == PackBytes(StringBytes(input), b)
    {
      bytesPerElement := b;
      numBytes := |input|;
      var data := LimbsFromBytes(StringBytes(input), b);
      limbs := data;
    }

    /** The byte_array constructor's loops: limb i sums its bits, each shifted to its place. */
    static method LimbsFromBits(bits: seq<Bit>, b: nat) returns (limbs: seq<nat>)
      requires 0 < b <= 32 && |bits| % 8 == 0
      ensures limbs == PackBits(bits, b)
    {
      var numBytes := |bits| / 8;
      var numElements := NumElements(numBytes, b);
      var bitsPerElement := b * 8;
      ghost var packed := PackBits(bits, b);
      limbs := [];
      var i := 0;
      while i < numElements
        invariant 0 <= i <= numElements
        invariant limbs == packed[..i]
      {
        var bytesInElement := if i == numElements - 1 then numBytes - i * b else b;
        var bitsInElement := bytesInElement * 8;
        var first := i * bitsPerElement;
        assert 0 < bitsInElement <= bitsPerElement && first + bitsInElement <= |bits|
          && packed[i] == LeftAligned(bits[first..first + bitsInElement], 2, 8 * b) by {
          BitsInLimbRange(numBytes, i, b);
          assert i * (8 * b) == first;
          ChunkIsRun(bits, i, 8 * b, bitsInElement);
        }
        var limb := LimbFromBits(bits, first, bitsInElement, bitsPerElement);
        limbs := limbs + [limb];
        i := i + 1;
      }
    }

    /** The byte_array constructor's inner loop: bit j of the run lands at bit width - 1 - j of the limb. */
    static method LimbFromBits(bits: seq<Bit>, first: nat, count: nat, width: nat) returns (limb: nat)
      requires first + count <= |bits| && count <= width
      ensures limb == LeftAligned(bits[first..first + count], 2, width)
    {
      ghost var run := bits[first..first + count];
      limb := 0;
      var j := 0;
      while j < count
        invariant 0 <= j <= count
        invariant limb == LeftAligned(run[..j], 2, width)
      {
        var shift := width - 1 - j;
        assert run[..j + 1] == run[..j] + [run[j]];
        assert run[j] == bits[first + j];
        LeftAlignedSnoc(run[..j], run[j], 2, width);
        limb := limb + bits[first + j] * Pow(2, shift);
        j := j + 1;
      }
      assert run[..count] == run;
    }

    /** packed_bytes(byte_array): the byte_array is given as its bits, most significant first. */
    constructor FromByteArray(b: nat, bits: seq<Bit>)
      requires 0 < b <= 32 && |bits| % 8 == 0
      ensures Valid() && bytesPerElement == b && numBytes == |bits| / 8
      ensures limbs == PackBits(bits, b)
    {
      bytesPerElement := b;
      numBytes := |bits| / 8;
      var data := LimbsFromBits(bits, b);
      limbs := data;
    }

    /** The copy and move constructors: the same size and limbs. */
    constructor Copy(other: PackedBytes)
      ensures bytesPerElement == other.bytesPerElement
      ensures numBytes == other.numBytes && limbs == other.limbs
      ensures other.Valid() ==> Valid()
    {
      bytesPerElement := other.bytesPerElement;
      numBytes := other.numBytes;
      limbs := other.limbs;
    }

    /** Copy and move assignment (the same BYTES_PER_ELEMENT on both sides). */
    method Assign(other: PackedBytes)
      requires other.bytesPerElement == bytesPerElement
      modifies this
      ensures numBytes == old(other.numBytes) && limbs == old(other.limbs)
      ensures old(other.Valid()) ==> Valid()
    {
      numBytes := other.numBytes;
      limbs := other.limbs;
    }

    /**
     * operator byte_array: the limbs' bits, most significant first; `consistent`
     * says whether every limb equals the accumulator rebuilt from its bits,
     * the equality the source asserts.
     */
    method ToByteArray() returns (bits: seq<Bit>, consistent: bool)
      requires Valid()
      ensures bits == ToBits(limbs, numBytes, bytesPerElement)
      ensures consistent <==> CanonicalLimbs(limbs, numBytes, bytesPerElement)
    {
      var b := bytesPerElement;
      var numBits := numBytes * 8;
      var bitsPerElement := b * 8;
      ghost var expected := ToBits(limbs, numBytes, b);
      bits := [];
      consistent := true;
      var i := 0;
      while i < |limbs|
        invariant 0 <= i <= |limbs|
        invariant bits == expected[..Min(i * (8 * b), numBits)]
        invariant consistent <==> forall l :: 0 <= l < i ==> LimbCanonical(limbs, numBytes, b, l)
      {
        ToBitsStep(limbs, numBytes, b, i);
        ghost var w := BytesInLimb(numBytes, |limbs|, i, b);
        var bitsInLimb := if i == |limbs| - 1 then numBits - i * bitsPerElement else bitsPerElement;
        var limbBits, accumulator := LimbToBits(limbs[i], bitsInLimb, b);
        bits := bits + limbBits;
        consistent := consistent && accumulator == limbs[i];
        i := i + 1;
      }
      ToBitsEnd(numBytes, b);
    }

    /** operator byte_array's inner loop: the n leading bits of one limb and their weighted sum. */
    static method LimbToBits(limbValue: nat, n: nat, b: nat) returns (limbBits: seq<Bit>, accumulator: nat)
      requires n <= 8 * b
      ensures limbBits == LimbBits(limbValue, n, b)
      ensures accumulator == LeftAligned(LimbBits(limbValue, n, b), 2, 8 * b)
    {
      var bitsPerElement := b * 8;
      limbBits := [];
      accumulator := 0;
      var j := 0;
      while j < n
        invariant 0 <= j <= n
        invariant limbBits == LimbBits(limbValue, j, b)
        invariant accumulator == LeftAligned(LimbBits(limbValue, j, b), 2, 8 * b)
      {
        var bitShift := bitsPerElement - 1 - j;
        PowPositive(2, bitShift);
        var bitVal := (limbValue / Pow(2, bitShift)) % 2;
        BitsAccumulatorStep(limbValue, j, b);
        accumulator := accumulator + bitVal * Pow(2, bitShift);
        limbBits := limbBits + [bitVal];
        j := j + 1;
      }
    }

    /**
     * append(to_append, bytes_to_append), corrected: the leading bytes of the
     * bytes_to_append-byte value fill the last limb, the rest start a new one.
     * `holds` is whether the equality the source asserts between the
     * reconstruction and to_append holds (it is not asserted for a constant).
     */
    method Append(toAppend: nat, bytesToAppend: nat, isConstant: bool) returns (holds: bool)
      requires Valid() && 0 < numBytes
      requires bytesToAppend <= |limbs| * bytesPerElement - numBytes + bytesPerElement
      modifies this`limbs, this`numBytes
      ensures Valid()
      ensures numBytes == old(numBytes) + bytesToAppend
      ensures limbs == AppendLimbs(old(limbs), old(numBytes), toAppend, bytesToAppend, bytesPerElement)
      ensures holds <==> isConstant || toAppend < Pow(2, 8 * bytesToAppend)
    {
      AppendCount(limbs, numBytes, toAppend, bytesToAppend, bytesPerElement);
      AppendCheck(toAppend, bytesToAppend, |limbs| * bytesPerElement - numBytes);
      var newLimbs, reconstructed := AppendToLimbs(limbs, numBytes, toAppend, bytesToAppend, bytesPerElement);
      holds := isConstant || reconstructed == toAppend;
      limbs := newLimbs;
      numBytes := numBytes + bytesToAppend;
    }

    /**
     * append's arithmetic: the high bytes go into the last limb's free space,
     * the rest into a new limb, and the check value is rebuilt from the two parts.
     */
    static method AppendToLimbs(limbs: seq<nat>, numBytes: nat, toAppend: nat, bytesToAppend: nat, b: nat)
      returns (newLimbs: seq<nat>, reconstructed: nat)
      requires 0 < |limbs| && numBytes <= |limbs| * b && bytesToAppend <= |limbs| * b - numBytes + b
      ensures newLimbs == AppendLimbs(limbs, numBytes, toAppend, bytesToAppend, b)
      ensures reconstructed == Reconstructed(toAppend, bytesToAppend, |limbs| * b - numBytes)
    {
      var currentCapacity := |limbs| * b;
      var currentSize := numBytes;
      var currentLimbSpace := currentCapacity - currentSize;
      var forCurrentLimb := Min(currentLimbSpace, bytesToAppend);
      var forNewLimb := bytesToAppend - forCurrentLimb;
      var start := (bytesToAppend - forCurrentLimb) * 8;
      var end := bytesToAppend * 8;
      var appendCurrent := Slice(toAppend, start, end);
      var appendNext := Slice(toAppend, 0, start);
      var currentPadding := (currentLimbSpace - forCurrentLimb) * 8;
      var nextPadding := (b - forNewLimb) * 8;
      newLimbs := limbs[|limbs| - 1 := limbs[|limbs| - 1] + appendCurrent * Pow(2, currentPadding)];
      reconstructed := appendCurrent;
      if forNewLimb > 0 {
        newLimbs := newLimbs + [appendNext * Pow(2, nextPadding)];
        reconstructed := reconstructed * Pow(2, forNewLimb * 8) + appendNext;
      }
    }

    /**
     * to_unverified_byte_slices(bytes_per_slice), with the corrected slice
     * offsets; `consistent` says whether every limb equals the accumulator
     * rebuilt from its slices, the equality the source asserts.
     */
    method ToUnverifiedByteSlices(bytesPerSlice: nat) returns (slices: seq<nat>, consistent: bool)
      requires Valid() && 0 < bytesPerSlice
      ensures slices == ByteSlices(limbs, numBytes, bytesPerElement, bytesPerSlice)
      ensures consistent <==> CanonicalLimbs(limbs, numBytes, bytesPerElement)
    {
      var b := bytesPerElement;
      slices := [];
      consistent := true;
      var i := 0;
      while i < |limbs|
        invariant 0 <= i <= |limbs|
        invariant slices == SlicesUpTo(limbs, numBytes, b, bytesPerSlice, i)
        invariant consistent <==> forall l :: 0 <= l < i ==> LimbCanonical(limbs, numBytes, b, l)
      {
        SlicesUpToStep(limbs, numBytes, b, bytesPerSlice, i);
        var bytesInLimb := if i == |limbs| - 1 then numBytes - i * b else b;
        var limbSlices, accumulator := SlicesOfLimb(limbs[i], bytesInLimb, bytesPerSlice, b);
        slices := slices + limbSlices;
        consistent := consistent && accumulator == limbs[i];
        i := i + 1;
      }
    }

    /** to_unverified_byte_slices' inner loop: one limb's slices and their weighted sum. */
    static method SlicesOfLimb(limbValue: nat, bytesInLimb: nat, bytesPerSlice: nat, b: nat)
      returns (limbSlices: seq<nat>, accumulator: nat)
      requires 0 < bytesPerSlice && bytesInLimb <= b
      ensures limbSlices == LimbSlices(limbValue, bytesInLimb, bytesPerSlice, b)
      ensures accumulator == LeftAligned(ToDigits(limbValue, b, 256)[..bytesInLimb], 256, b)
    {
      var numSlices := bytesInLimb / bytesPerSlice + (if bytesInLimb % bytesPerSlice != 0 then 1 else 0);
      assert numSlices == NumElements(bytesInLimb, bytesPerSlice);
      ghost var ds := ToDigits(limbValue, b, 256)[..bytesInLimb];
      ghost var expected := LimbSlices(limbValue, bytesInLimb, bytesPerSlice, b);
      limbSlices := [];
      accumulator := 0;
      var j := 0;
      while j < numSlices
        invariant 0 <= j <= numSlices
        invariant limbSlices == expected[..j]
        invariant accumulator == LeftAligned(ds[..Min(j * bytesPerSlice, bytesInLimb)], 256, b)
      {
        SlicesStep(limbValue, bytesInLimb, bytesPerSlice, b, j);
        var bytesInSlice := if j == numSlices - 1 then bytesInLimb - j * bytesPerSlice else bytesPerSlice;
        assert bytesInSlice == BytesInLimb(bytesInLimb, numSlices, j, bytesPerSlice);
        var end := (b - j * bytesPerSlice) * 8;
        var start := (b - (j * bytesPerSlice + bytesInSlice)) * 8;
        var slice := Slice(limbValue, start, end);
        limbSlices := limbSlices + [slice];
        accumulator := accumulator + slice * Pow(2, start);
        j := j + 1;
      }
      SliceAccumulatorEnd(bytesInLimb, bytesPerSlice);
      assert ds[..bytesInLimb] == ds;
    }

    /** get_value: the packed bytes read back out of the limbs. */
    method GetValue() returns (bytes: seq<Byte>)
      requires Valid()
      ensures bytes == Unpack(limbs, numBytes, bytesPerElement)
    {
      var b := bytesPerElement;
      ghost var expected := Unpack(limbs, numBytes, b);
      NumElementsIsCeiling(numBytes, b);
      bytes := seq(numBytes, _ => 0);
      var i := 0;
      while i < |limbs|
        invariant 0 <= i <= |limbs| && |bytes| == numBytes
        invariant forall k :: 0 <= k < Min(i * b, numBytes) ==> bytes[k] == expected[k]
      {
        bytes := UnpackLimb(limbs, numBytes, b, i, bytes);
        i := i + 1;
      }
    }

    /** get_value's inner loop: the bytes of limb i go to positions i * B onwards. */
    static method UnpackLimb(limbs: seq<nat>, numBytes: nat, b: nat, i: nat, bytes: seq<Byte>) returns (bytes': seq<Byte>)
      requires 0 < b && |limbs| == NumElements(numBytes, b) && i < |limbs| && |bytes| == numBytes
      requires forall k :: 0 <= k < Min(i * b, numBytes) ==> bytes[k] == Unpack(limbs, numBytes, b)[k]
      ensures |bytes'| == numBytes
      ensures forall k :: 0 <= k < Min((i + 1) * b, numBytes) ==> bytes'[k] == Unpack(limbs, numBytes, b)[k]
    {
      ghost var expected := Unpack(limbs, numBytes, b);
      BytesInLimbRange(numBytes, i, b);
      var bytesInLimb := if i == |limbs| - 1 then numBytes - i * b else b;
      var limbValue := limbs[i];
      bytes' := bytes;
      var j := 0;
      while j < bytesInLimb
        invariant 0 <= j <= bytesInLimb && |bytes'| == numBytes
        invariant forall k :: 0 <= k < i * b + j ==> bytes'[k] == expected[k]
      {
        DivModUnique(i * b + j, b, i, j);
        bytes' := bytes'[i * b + j := ByteOfLimb(limbValue, j, b)];
        j := j + 1;
      }
      assert i * b + bytesInLimb == Min((i + 1) * b, numBytes) by {
        assert (i + 1) * b == i * b + b;
      }
    }
  }
}
