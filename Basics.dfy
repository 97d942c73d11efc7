/** Types shared by every part of the LifeHash model: bytes, errors,
    points, versions and the MSB-first bit addressing of a byte buffer. */
module Basics {

  /** An unsigned byte, 0..255. Java's signed `byte` carries the same bit
      pattern, which is all the bit stream and the image buffer look at. */
  type Byte = bv8

  /** The exceptions the library throws, as values. */
  datatype Error =
    | InvalidDigestLength                       // "Digest must be 32 bytes."
    | InvalidModuleSize                         // "Invalid module size."
    | Underflow                                 // "BitEnumerator underflow."
    | OddNumberOfCharacters                     // decodeHex on an odd-length input
    | IllegalHexCharacter(ch: char, index: nat) // decodeHex on a non-hex character

  datatype Result<+T> = Success(value: T) | Failure(error: Error) {
    predicate IsFailure() { Failure? }
    function PropagateFailure<U>(): Result<U> requires Failure? { Failure(error) }
    function Extract(): T requires Success? { value }
  }

  /** Integer grid coordinates (the record `Point`). */
  datatype Point = Point(x: int, y: int)

  /** `Point.ZERO`. */
  const Zero: Point := Point(0, 0)

  /** A neighbourhood entry: the offset `o` in {-1,0,1}^2 and the wrapped position `p`. */
  datatype PointPair = PointPair(o: Point, p: Point)

  /** An RGB colour with components in [0, 1] (`Color`). The colour
      arithmetic itself is not modelled: operations on colours are passed in. */
  datatype Color = Color(r: real, g: real, b: real)

  const Black: Color := Color(0.0, 0.0, 0.0)
  const White: Color := Color(1.0, 1.0, 1.0)

  /** The five LifeHash versions, in declaration order. */
  datatype Version = Version1 | Version2 | Detailed | Fiducial | GrayscaleFiducial

  /** The single-bit masks 0x80 >> k for k = 0..8 (the last is the exhausted mask 0). */
  const Masks: seq<Byte> := [0x80, 0x40, 0x20, 0x10, 0x08, 0x04, 0x02, 0x01, 0x00]

  /** The mask 0x80 >> j, computed one shift at a time. */
  function Mask(j: nat): (m: Byte)
    requires j <= 8
  {
    if j == 0 then 0x80 else Mask(j - 1) >> 1
  }

  /** `Mask` agrees with the table. */
  lemma {:induction false} MaskIsMasks(j: nat)
    requires j <= 8
    ensures Mask(j) == Masks[j]
  {
    if j > 0 {
      MaskIsMasks(j - 1);
    }
  }

  /** Only the last mask is empty. */
  lemma MaskIsZero(j: nat)
    requires j <= 8
    ensures Mask(j) == 0 <==> j == 8
  {
    MaskIsMasks(j);
  }

  /** The k-th bit of a buffer read most significant bit first, byte by byte:
      bit 7 - (k mod 8) of byte k / 8. */
  predicate BitAt(data: seq<Byte>, k: nat)
    requires k < 8 * |data|
  {
    BitFrom(data, 0, k)
  }

  /** Bit k of the buffer counted from byte i on, found by stepping over
      whole bytes. */
  predicate BitFrom(data: seq<Byte>, i: nat, k: nat)
    requires 8 * i + k < 8 * |data|
    decreases k
  {
    if k < 8 then BitOfByte(data[i], k) else BitFrom(data, i + 1, k - 8)
  }

  /** Bit 8i + j counted from byte i0 is bit j of byte i0 + i. */
  lemma {:induction false} BitFromBit(data: seq<Byte>, i0: nat, i: nat, j: nat)
    requires i0 + i < |data| && j < 8
    decreases i
    ensures BitFrom(data, i0, 8 * i + j) == BitOfByte(data[i0 + i], j)
  {
    if i > 0 {
      BitFromBit(data, i0 + 1, i - 1, j);
    }
  }

  /** Bit k is bit k mod 8 of byte k / 8. */
  lemma BitAtIs(data: seq<Byte>, k: nat)
    requires k < 8 * |data|
    ensures BitAt(data, k) == BitOfByte(data[k / 8], k % 8)
  {
    BitAtByte(data, k / 8, k % 8);
  }

  /** Bit j of a byte counted from the most significant end. */
  predicate BitOfByte(v: Byte, j: nat)
    requires j < 8
  {
    v & Masks[j] != 0
  }

  /** Bit j of byte i is bit 8i + j of the buffer. */
  lemma BitAtByte(data: seq<Byte>, i: nat, j: nat)
    requires i < |data| && j < 8
    ensures BitAt(data, 8 * i + j) <==> data[i] & Masks[j] != 0
  {
    BitFromBit(data, 0, i, j);
  }

  /** Testing byte i against `Mask(j)` reads bit 8i + j of the buffer. */
  lemma MaskedBit(data: seq<Byte>, i: nat, j: nat, k: nat)
    requires i < |data| && j < 8 && k == 8 * i + j
    ensures data[i] & Mask(j) != 0 <==> BitAt(data, k)
  {
    BitAtByte(data, i, j);
    MaskIsMasks(j);
  }

  /** Setting the mask bit j of a byte sets exactly that bit. */
  lemma SetBitOfByte(v: Byte, j: nat, i: nat)
    requires j < 8 && i < 8
    ensures (v | Masks[j]) & Masks[i] != 0 <==> i == j || v & Masks[i] != 0
  {
  }

  /** A byte is determined by its eight mask bits. */
  lemma ByteFromBits(a: Byte, b: Byte)
    requires forall j | 0 <= j < 8 :: (a & Masks[j] != 0) == (b & Masks[j] != 0)
    ensures a == b
  {
    assert (a & Masks[0] != 0) == (b & Masks[0] != 0);
    assert (a & Masks[1] != 0) == (b & Masks[1] != 0);
    assert (a & Masks[2] != 0) == (b & Masks[2] != 0);
    assert (a & Masks[3] != 0) == (b & Masks[3] != 0);
    assert (a & Masks[4] != 0) == (b & Masks[4] != 0);
    assert (a & Masks[5] != 0) == (b & Masks[5] != 0);
    assert (a & Masks[6] != 0) == (b & Masks[6] != 0);
    assert (a & Masks[7] != 0) == (b & Masks[7] != 0);
  }

  /** Two buffers of the same length with the same bits are equal. */
  lemma {:induction false} BuffersFromBits(a: seq<Byte>, b: seq<Byte>)
    requires |a| == |b|
    requires forall k | 0 <= k < 8 * |a| :: BitAt(a, k) == BitAt(b, k)
    ensures a == b
  {
    forall i | 0 <= i < |a| ensures a[i] == b[i] {
      forall j | 0 <= j < 8 ensures (a[i] & Masks[j] != 0) == (b[i] & Masks[j] != 0) {
        BitAtByte(a, i, j);
        BitAtByte(b, i, j);
        assert BitAt(a, 8 * i + j) == BitAt(b, 8 * i + j);
      }
      ByteFromBits(a[i], b[i]);
    }
  }
}
