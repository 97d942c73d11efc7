/** The bit stream layer: `BitEnumerator` reads a byte buffer most
    significant bit first, `BitAggregator` packs bits most significant bit
    first into a growing byte list. */
module BitStream {
  import opened Basics

  /** The masks a cursor can hold: 0x80 >> k for k = 0..8. */
  predicate IsMask(m: Byte) {
    m == 0x80 || m == 0x40 || m == 0x20 || m == 0x10 ||
    m == 0x08 || m == 0x04 || m == 0x02 || m == 0x01 || m == 0x00
  }

  /** How many bits of the current byte a mask says are used up. */
  function MaskIndex(m: Byte): (k: nat)
    requires IsMask(m)
    ensures k <= 8 && Masks[k] == m
  {
    if m == 0x80 then 0 else if m == 0x40 then 1 else if m == 0x20 then 2
    else if m == 0x10 then 3 else if m == 0x08 then 4 else if m == 0x04 then 5
    else if m == 0x02 then 6 else if m == 0x01 then 7 else 8
  }

  /** Powers of two, the only start masks the library passes to `nextConfigurable`. */
  predicate IsPowerOfTwo(m: int)
    decreases if m < 0 then 0 else m
  {
    m == 1 || (m > 1 && m % 2 == 0 && IsPowerOfTwo(m / 2))
  }

  /** The value `nextConfigurable(mask, n)` assembles from bits pos.. of data:
      each set bit contributes the current mask, and the mask is halved after
      it. The source ORs the mask in; for a power-of-two start mask the
      contributed masks are distinct powers of two, so the sum is the OR. */
  function ReadBits(data: seq<Byte>, pos: nat, mask: nat, n: nat): nat
    requires pos + n <= 8 * |data|
    decreases n
  {
    if n == 0 then 0
    else (if BitAt(data, pos) then mask else 0) + ReadBits(data, pos + 1, mask / 2, n - 1)
  }

  /** One step of `ReadBits`: the first bit, then the rest with half the mask. */
  lemma ReadBitsStep(data: seq<Byte>, pos: nat, mask: nat, n: nat)
    requires 0 < n
    ensures pos + n <= 8 * |data| ==>
      ReadBits(data, pos, mask, n) ==
        (if BitAt(data, pos) then mask else 0) + ReadBits(data, pos + 1, mask / 2, n - 1)
  {
  }

  /** Reading with a power-of-two start mask m yields a value below 2m: the bits
      land on distinct powers of two, high bit first. */
  lemma {:induction false} ReadBitsBound(data: seq<Byte>, pos: nat, mask: nat, n: nat)
    requires pos + n <= 8 * |data|
    requires mask == 0 || IsPowerOfTwo(mask)
    decreases n
    ensures mask == 0 ==> ReadBits(data, pos, mask, n) == 0
    ensures mask > 0 ==> ReadBits(data, pos, mask, n) < 2 * mask
  {
    if n > 0 {
      ReadBitsBound(data, pos + 1, mask / 2, n - 1);
    }
  }

  /** Reads a byte buffer one bit at a time, most significant bit first.
      `index` is the current byte and `mask` the next bit of it (0 when the
      byte is used up; the next read then moves to the following byte). */
  class BitEnumerator {
    const data: seq<Byte>
    var index: int
    var mask: Byte
    /** How many bits of the current byte are used up: `mask` is 0x80 >> bit. */
    ghost var bit: nat

    ghost predicate Valid()
      reads this
    {
      0 < |data| && 0 <= index < |data| && bit <= 8 && mask == Mask(bit)
    }

    /** The number of bits read so far. */
    ghost function Consumed(): (c: nat)
      reads this
      requires Valid()
      ensures c <= 8 * |data|
    {
      8 * index + bit
    }

    /** The cursor starts on the high bit of byte 0. An empty buffer is a
        misuse of the class: `hasNext` would answer true and `next` would
        index past the end. */
    constructor (data: seq<Byte>)
      requires |data| > 0
      ensures Valid() && this.data == data && Consumed() == 0
    {
      this.data := data;
      index := 0;
      mask := 0x80;
      bit := 0;
    }

    /** True exactly while unread bits remain: all 8 * |data| bits, the last bit
        of the last byte included, can be read. */
    function HasNext(): (r: bool)
      reads this
      requires Valid()
      ensures r <==> Consumed() < 8 * |data|
    {
      MaskIsZero(bit);
      mask != 0 || index != |data| - 1
    }

    /** Reads the next bit; on an exhausted buffer reports underflow and leaves
        the cursor where it is. */
    method Next() returns (r: Result<bool>)
      requires Valid()
      modifies this
      ensures Valid()
      ensures old(Consumed()) < 8 * |data| ==>
        r == Success(BitAt(data, old(Consumed()))) && Consumed() == old(Consumed()) + 1
      ensures old(Consumed()) == 8 * |data| ==>
        r == Failure(Underflow) && Consumed() == old(Consumed())
    {
      if !HasNext() {
        return Failure(Underflow);
      }
      if mask == 0 {
        NextByte();
      }
      var b := TakeBit();
      return Success(b);
    }

    /** Moves an exhausted cursor onto the high bit of the following byte. */
    method NextByte()
      requires Valid() && mask == 0 && Consumed() < 8 * |data|
      modifies this
      ensures Valid() && mask != 0 && bit < 8 && Consumed() == old(Consumed())
    {
      MaskIsZero(bit);
      mask := 0x80;
      index := index + 1;
      bit := 0;
    }

    /** Reads the bit under a live mask and moves the mask on. */
    method TakeBit() returns (b: bool)
      requires Valid() && mask != 0
      modifies this
      ensures Valid() && Consumed() == old(Consumed()) + 1
      ensures b == BitAt(data, old(Consumed()))
    {
      MaskIsZero(bit);
      MaskedBit(data, index, bit, Consumed());
      b := data[index] & mask != 0;
      mask := mask >> 1;
      bit := bit + 1;
    }

    /** Reads `bits` bits, ORing `bitMask` into the result for each set bit and
        halving `bitMask` after every bit. */
    method NextConfigurable(bitMask: int, bits: nat) returns (r: Result<int>)
      requires Valid() && IsPowerOfTwo(bitMask)
      modifies this
      ensures Valid()
      ensures old(Consumed()) + bits <= 8 * |data| ==>
        r == Success(ReadBits(data, old(Consumed()), bitMask, bits)) &&
        Consumed() == old(Consumed()) + bits
      ensures old(Consumed()) + bits > 8 * |data| ==>
        r == Failure(Underflow) && Consumed() == 8 * |data|
    {
      var value := 0;
      var m := bitMask;
      ghost var start := Consumed();
      for i := 0 to bits
        invariant Valid() && Consumed() == start + i && m >= 0
        invariant start + bits <= 8 * |data| ==>
          value + ReadBits(data, start + i, m, bits - i) == ReadBits(data, start, bitMask, bits)
      {
        var b :- Next();
        ReadBitsStep(data, start + i, m, bits - i);
        if b {
          value := value + m;
        }
        m := m / 2;
      }
      return Success(value);
    }

    /** Two bits, big-endian: a value in [0, 4). */
    method NextUint2() returns (r: Result<int>)
      requires Valid()
      modifies this
      ensures Valid()
      ensures old(Consumed()) + 2 <= 8 * |data| ==>
        r == Success(ReadBits(data, old(Consumed()), 2, 2)) && 0 <= r.value < 4 &&
        Consumed() == old(Consumed()) + 2
      ensures old(Consumed()) + 2 > 8 * |data| ==> r.Failure?
    {
      assert IsPowerOfTwo(2) by { assert IsPowerOfTwo(1); }
      r := NextConfigurable(2, 2);
      if r.Success? {
        ReadBitsBound(data, old(Consumed()), 2, 2);
      }
    }

    /** Eight bits, big-endian: a value in [0, 256). */
    method NextUint8() returns (r: Result<int>)
      requires Valid()
      modifies this
      ensures Valid()
      ensures old(Consumed()) + 8 <= 8 * |data| ==>
        r == Success(ReadBits(data, old(Consumed()), 0x80, 8)) && 0 <= r.value < 256 &&
        Consumed() == old(Consumed()) + 8
      ensures old(Consumed()) + 8 > 8 * |data| ==> r.Failure?
    {
      PowerOfTwo128();
      r := NextConfigurable(0x80, 8);
      if r.Success? {
        ReadBitsBound(data, old(Consumed()), 0x80, 8);
      }
    }

    /** Sixteen bits, big-endian: a value in [0, 65536). */
    method NextUint16() returns (r: Result<int>)
      requires Valid()
      modifies this
      ensures Valid()
      ensures old(Consumed()) + 16 <= 8 * |data| ==>
        r == Success(ReadBits(data, old(Consumed()), 0x8000, 16)) && 0 <= r.value < 65536 &&
        Consumed() == old(Consumed()) + 16
      ensures old(Consumed()) + 16 > 8 * |data| ==> r.Failure?
    {
      PowerOfTwo32768();
      r := NextConfigurable(0x8000, 16);
      if r.Success? {
        ReadBitsBound(data, old(Consumed()), 0x8000, 16);
      }
    }

    /** Sixteen bits scaled to [0, 1]: `nextUint16() / 65535`. */
    method NextFrac() returns (r: Result<real>)
      requires Valid()
      modifies this
      ensures Valid()
      ensures old(Consumed()) + 16 <= 8 * |data| ==>
        r == Success(FracAt(data, old(Consumed()))) && Consumed() == old(Consumed()) + 16
      ensures old(Consumed()) + 16 > 8 * |data| ==> r.Failure?
    {
      var v :- NextUint16();
      return Success(v as real / 65535.0);
    }
  }

  /** The fraction `nextFrac` reads at bit position pos. */
  function FracAt(data: seq<Byte>, pos: nat): (f: real)
    requires pos + 16 <= 8 * |data|
    ensures 0.0 <= f <= 1.0
  {
    PowerOfTwo32768();
    ReadBitsBound(data, pos, 0x8000, 16);
    ReadBits(data, pos, 0x8000, 16) as real / 65535.0
  }

  lemma PowerOfTwo128()
    ensures IsPowerOfTwo(0x80)
  {
    assert IsPowerOfTwo(1) && IsPowerOfTwo(2) && IsPowerOfTwo(4) && IsPowerOfTwo(8);
    assert IsPowerOfTwo(16) && IsPowerOfTwo(32) && IsPowerOfTwo(64);
  }

  lemma PowerOfTwo32768()
    ensures IsPowerOfTwo(0x8000)
  {
    PowerOfTwo128();
    assert IsPowerOfTwo(0x100) && IsPowerOfTwo(0x200) && IsPowerOfTwo(0x400) && IsPowerOfTwo(0x800);
    assert IsPowerOfTwo(0x1000) && IsPowerOfTwo(0x2000) && IsPowerOfTwo(0x4000);
  }

  /** Packs bits most significant bit first into a growing byte list; a new
      zero byte is started only when `bitMask` is used up. */
  class BitAggregator {
    var data: seq<Byte>
    var bitMask: Byte

    ghost predicate Valid()
      reads this
    {
      IsMask(bitMask) && bitMask != 0x80 &&
      (|data| == 0 ==> bitMask == 0) &&
      (forall k | Count() <= k < 8 * |data| :: !BitAt(data, k))
    }

    /** How many bits have been appended. */
    function Count(): (n: nat)
      reads this
      requires IsMask(bitMask)
      ensures n <= 8 * |data|
    {
      if |data| == 0 then 0 else 8 * (|data| - 1) + MaskIndex(bitMask)
    }

    /** The bits appended so far, in order. */
    ghost function Contents(): seq<bool>
      reads this
      requires Valid()
    {
      BitsOf(data, Count())
    }

    constructor ()
      ensures Valid() && data == [] && bitMask == 0 && Contents() == []
    {
      data := [];
      bitMask := 0;
    }

    method Append(bit: bool)
      requires Valid()
      modifies this
      ensures Valid()
      ensures Contents() == old(Contents()) + [bit]
      ensures |data| == (Count() + 7) / 8
      ensures old(bitMask) == 0 ==> |data| == old(|data|) + 1 && data[..old(|data|)] == old(data)
      ensures old(bitMask) != 0 ==> |data| == old(|data|) && data[..|data| - 1] == old(data)[..|data| - 1]
    {
      ghost var c := Count();
      ghost var before := data;
      if bitMask == 0 {
        bitMask := 0x80;
        data := data + [0];
      }
      var last := |data| - 1;
      assert c / 8 == last && c % 8 == MaskIndex(bitMask);
      ghost var padded := data;
      if bit {
        data := data[last := data[last] | bitMask];
      }
      AppendedBits(before, padded, data, c, bit);
      bitMask := bitMask >> 1;
      assert Count() == c + 1;
    }

    /** A copy of the bytes, in order; the aggregator is left unchanged. */
    method GetData() returns (r: seq<Byte>)
      ensures r == data
    {
      r := [];
      for i := 0 to |data|
        invariant r == data[..i]
      {
        r := r + [data[i]];
      }
    }
  }

  /** The first n bits of a buffer, in order. */
  ghost function BitsOf(d: seq<Byte>, n: nat): (bits: seq<bool>)
    requires n <= 8 * |d|
    ensures |bits| == n && forall k | 0 <= k < n :: bits[k] == BitAt(d, k)
  {
    seq(n, k requires 0 <= k < n && n <= 8 * |d| => BitAt(d, k))
  }

  /** Extending a buffer with a zero byte keeps the earlier bits and adds eight clear ones. */
  lemma BitsOfExtended(data: seq<Byte>)
    ensures forall k | 0 <= k < 8 * |data| :: BitAt(data + [0], k) == BitAt(data, k)
    ensures forall k | 8 * |data| <= k < 8 * |data| + 8 :: !BitAt(data + [0], k)
  {
    forall k | 0 <= k < 8 * |data| ensures BitAt(data + [0], k) == BitAt(data, k) {
      BitAtIs(data + [0], k);
      BitAtIs(data, k);
      assert (data + [0])[k / 8] == data[k / 8];
    }
    forall k | 8 * |data| <= k < 8 * |data| + 8
      ensures !BitAt(data + [0], k)
    {
      var j := k - 8 * |data|;
      assert k == 8 * |data| + j;
      BitAtByte(data + [0], |data|, j);
    }
  }

  /** Appending bit c: the bits before c stay, bit c is the new bit, the rest stay clear. */
  lemma AppendedBits(before: seq<Byte>, padded: seq<Byte>, after: seq<Byte>, c: nat, bit: bool)
    requires c <= 8 * |before|
    requires padded == if c == 8 * |before| then before + [0] else before
    requires after == if bit then padded[c / 8 := padded[c / 8] | Masks[c % 8]] else padded
    requires forall k | c <= k < 8 * |before| :: !BitAt(before, k)
    ensures |after| == |padded| && c < 8 * |after| && BitAt(after, c) == bit
    ensures forall k | 0 <= k < c :: BitAt(after, k) == BitAt(before, k)
    ensures forall k | c < k < 8 * |after| :: !BitAt(after, k)
    ensures BitsOf(after, c + 1) == BitsOf(before, c) + [bit]
  {
    if c == 8 * |before| {
      BitsOfExtended(before);
    }
    BitsOfAppended(padded, after, c, bit);
    assert BitsOf(after, c + 1) == BitsOf(before, c) + [bit];
  }

  /** Setting bit jc of byte i sets that bit and leaves the other bits of the byte alone. */
  lemma SetBitInByte(before: seq<Byte>, after: seq<Byte>, i: nat, jc: nat, j: nat)
    requires i < |before| && jc < 8 && j < 8
    requires after == before[i := before[i] | Masks[jc]]
    ensures BitAt(after, 8 * i + j) == (j == jc || BitAt(before, 8 * i + j))
  {
    BitAtByte(after, i, j);
    BitAtByte(before, i, j);
    SetBitOfByte(before[i], jc, j);
  }

  /** Appending bit c to a buffer whose bits from c on are clear sets bit c to
      the appended bit and changes nothing else. */
  lemma BitsOfAppended(before: seq<Byte>, after: seq<Byte>, c: nat, bit: bool)
    requires c < 8 * |before|
    requires after == if bit then before[c / 8 := before[c / 8] | Masks[c % 8]] else before
    ensures |after| == |before|
    ensures forall k | 0 <= k < 8 * |after| ::
      BitAt(after, k) == if k == c then bit || BitAt(before, k) else BitAt(before, k)
  {
    forall k | 0 <= k < 8 * |after|
      ensures BitAt(after, k) == if k == c then bit || BitAt(before, k) else BitAt(before, k)
    {
      if bit {
        var i, j := k / 8, k % 8;
        if i == c / 8 {
          assert k == 8 * i + j && c == 8 * i + c % 8;
          SetBitInByte(before, after, i, c % 8, j);
        } else {
          BitAtIs(after, k);
          BitAtIs(before, k);
        }
      }
    }
  }
}
