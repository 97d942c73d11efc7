/** `Utils`: clamping and inverse interpolation on reals, the hex codec and
    byte reversal. */
module Utils {
  import opened Basics

  /** `clamped`: n limited to [0, 1]. */
  function Clamped(n: real): (r: real)
    ensures 0.0 <= r <= 1.0
    ensures 0.0 <= n <= 1.0 ==> r == n
    ensures n < 0.0 ==> r == 0.0
    ensures n > 1.0 ==> r == 1.0
  {
    var m := if n < 1.0 then n else 1.0;
    if m > 0.0 then m else 0.0
  }

  /** `lerpFrom`: where t lies between fromA and fromB, as a fraction. The
      source divides by fromA - fromB with no check; equal ends have no
      real-valued answer. */
  function LerpFrom(fromA: real, fromB: real, t: real): real
    requires fromA != fromB
  {
    (fromA - t) / (fromA - fromB)
  }

  /** Inverse interpolation maps fromA to 0 and fromB to 1, and is increasing
      when fromA < fromB. */
  lemma LerpFromEnds(fromA: real, fromB: real, s: real, t: real)
    requires fromA < fromB
    ensures LerpFrom(fromA, fromB, fromA) == 0.0 && LerpFrom(fromA, fromB, fromB) == 1.0
    ensures s < t ==> LerpFrom(fromA, fromB, s) < LerpFrom(fromA, fromB, t)
  {
    var d := fromA - fromB;
    assert d / d == 1.0;
    if s < t {
      assert (fromA - t) - (fromA - s) == s - t;
      assert (fromA - t) / d - (fromA - s) / d == (s - t) / d;
      assert (s - t) / d > 0.0;
    }
  }

  /** A byte's unsigned value. */
  function ByteValue(b: Byte): (n: int)
    ensures 0 <= n < 256
  {
    b as int
  }

  /** The lower-case hex digits `bytesToHex` writes. */
  const HexDigits: seq<char> := "0123456789abcdef"

  /** The hex encoding: two characters per byte, high nibble first. */
  function HexEncoding(bytes: seq<Byte>): (s: seq<char>)
    ensures |s| == 2 * |bytes|
  {
    seq(2 * |bytes|, k requires 0 <= k < 2 * |bytes| =>
      var v := ByteValue(bytes[k / 2]);
      if k % 2 == 0 then HexDigits[v / 16] else HexDigits[v % 16])
  }

  /** `bytesToHex`: fills a character array two digits per byte. */
  method BytesToHex(bytes: seq<Byte>) returns (s: seq<char>)
    ensures s == HexEncoding(bytes)
  {
    var hexChars := new char[|bytes| * 2];
    for j := 0 to |bytes|
      invariant forall k | 0 <= k < 2 * j :: hexChars[k] == HexEncoding(bytes)[k]
    {
      HexEncodingAt(bytes, j);
      var v := ByteValue(bytes[j]);
      hexChars[j * 2] := HexDigits[v / 16];
      hexChars[j * 2 + 1] := HexDigits[v % 16];
    }
    s := hexChars[..];
  }

  /** The characters `Character.digit(ch, 16)` accepts, restricted to ASCII. */
  predicate IsHexDigit(ch: char)
  {
    '0' <= ch <= '9' || 'a' <= ch <= 'f' || 'A' <= ch <= 'F'
  }

  /** The value of a hex digit. */
  function DigitValue(ch: char): (d: int)
    requires IsHexDigit(ch)
    ensures 0 <= d < 16
  {
    if '0' <= ch <= '9' then ch as int - '0' as int
    else if 'a' <= ch <= 'f' then ch as int - 'a' as int + 10
    else ch as int - 'A' as int + 10
  }

  /** `toDigit`: the digit's value, or the illegal character and its index. */
  function ToDigit(ch: char, index: nat): (r: Result<int>)
    ensures r.Success? <==> IsHexDigit(ch)
    ensures r.Success? ==> 0 <= r.value < 16
    ensures r.Failure? ==> r.error == IllegalHexCharacter(ch, index)
  {
    if IsHexDigit(ch) then Success(DigitValue(ch)) else Failure(IllegalHexCharacter(ch, index))
  }

  /** The bytes an even-length string of hex digits denotes. */
  function HexDecoding(data: seq<char>): (r: seq<Byte>)
    requires |data| % 2 == 0 && forall k | 0 <= k < |data| :: IsHexDigit(data[k])
    ensures |r| == |data| / 2
  {
    seq(|data| / 2, i requires 0 <= i < |data| / 2 =>
      (16 * DigitValue(data[2 * i]) + DigitValue(data[2 * i + 1])) as Byte)
  }

  /** `decodeHex` (and `hexToBytes`, which passes the string's characters):
      an odd length is rejected, then the pairs are decoded left to right and
      the first character that is not a hex digit is reported with its index. */
  method DecodeHex(data: seq<char>) returns (r: Result<seq<Byte>>)
    ensures |data| % 2 == 1 <==> r == Failure(OddNumberOfCharacters)
    ensures |data| % 2 == 0 && (forall k | 0 <= k < |data| :: IsHexDigit(data[k])) ==>
      r == Success(HexDecoding(data))
    ensures |data| % 2 == 0 && r.Failure? ==>
      exists k | 0 <= k < |data| ::
        r.error == IllegalHexCharacter(data[k], k) && !IsHexDigit(data[k]) &&
        forall k' | 0 <= k' < k :: IsHexDigit(data[k'])
  {
    var len := |data|;
    if len % 2 != 0 {
      return Failure(OddNumberOfCharacters);
    }
    var out := new Byte[len / 2];
    var i, j := 0, 0;
    while j < len
      invariant j == 2 * i && j <= len
      invariant forall k | 0 <= k < j :: IsHexDigit(data[k])
      invariant forall k | 0 <= k < i :: out[k] == (16 * DigitValue(data[2 * k]) + DigitValue(data[2 * k + 1])) as Byte
    {
      var hi :- ToDigit(data[j], j);
      var f := hi * 16;
      j := j + 1;
      var lo :- ToDigit(data[j], j);
      f := f + lo;
      j := j + 1;
      out[i] := f as Byte;
      i := i + 1;
    }
    assert i == len / 2;
    assert out[..] == HexDecoding(data);
    return Success(out[..]);
  }

  /** Each of the sixteen digits decodes to its position. */
  lemma HexDigitDecodes(k: int)
    requires 0 <= k < 16
    ensures IsHexDigit(HexDigits[k]) && DigitValue(HexDigits[k]) == k
  {
    assert HexDigits == ['0', '1', '2', '3', '4', '5', '6', '7', '8', '9', 'a', 'b', 'c', 'd', 'e', 'f'];
  }

  /** A byte read as an integer converts back to the same byte. */
  lemma ByteAsInt(b: Byte)
    ensures ByteValue(b) as Byte == b
  {
  }

  /** The two characters that encode byte i. */
  lemma HexEncodingAt(bytes: seq<Byte>, i: int)
    requires 0 <= i < |bytes|
    ensures HexEncoding(bytes)[2 * i] == HexDigits[ByteValue(bytes[i]) / 16]
    ensures HexEncoding(bytes)[2 * i + 1] == HexDigits[ByteValue(bytes[i]) % 16]
  {
    assert (2 * i) / 2 == i && (2 * i + 1) / 2 == i;
  }

  /** Byte i's two characters are hex digits that decode back to it. */
  lemma HexPairDecodes(bytes: seq<Byte>, i: int)
    requires 0 <= i < |bytes|
    ensures IsHexDigit(HexEncoding(bytes)[2 * i]) && IsHexDigit(HexEncoding(bytes)[2 * i + 1])
    ensures 16 * DigitValue(HexEncoding(bytes)[2 * i]) + DigitValue(HexEncoding(bytes)[2 * i + 1]) == ByteValue(bytes[i])
  {
    var v := ByteValue(bytes[i]);
    HexEncodingAt(bytes, i);
    HexDigitDecodes(v / 16);
    HexDigitDecodes(v % 16);
  }

  /** The encoding uses hex digits only. */
  lemma HexEncodingDigits(bytes: seq<Byte>)
    ensures forall k | 0 <= k < |HexEncoding(bytes)| :: IsHexDigit(HexEncoding(bytes)[k])
  {
    forall k | 0 <= k < |HexEncoding(bytes)| ensures IsHexDigit(HexEncoding(bytes)[k]) {
      HexPairDecodes(bytes, k / 2);
      assert k == 2 * (k / 2) || k == 2 * (k / 2) + 1;
    }
  }

  /** Decoding the encoding of a byte string gives it back. */
  lemma HexRoundTrip(bytes: seq<Byte>)
    ensures |HexEncoding(bytes)| % 2 == 0
    ensures forall k | 0 <= k < |HexEncoding(bytes)| :: IsHexDigit(HexEncoding(bytes)[k])
    ensures HexDecoding(HexEncoding(bytes)) == bytes
  {
    HexEncodingDigits(bytes);
    var d := HexDecoding(HexEncoding(bytes));
    forall i | 0 <= i < |bytes| ensures d[i] == bytes[i] {
      HexByteDecodes(bytes, i);
    }
  }

  /** Byte i of the decoded encoding is byte i. */
  lemma HexByteDecodes(bytes: seq<Byte>, i: int)
    requires 0 <= i < |bytes|
    requires forall k | 0 <= k < |HexEncoding(bytes)| :: IsHexDigit(HexEncoding(bytes)[k])
    ensures HexDecoding(HexEncoding(bytes))[i] == bytes[i]
  {
    var s := HexEncoding(bytes);
    HexPairDecodes(bytes, i);
    var n := 16 * DigitValue(s[2 * i]) + DigitValue(s[2 * i + 1]);
    assert HexDecoding(s)[i] == n as Byte;
    ByteAsInt(bytes[i]);
  }

  /** The bytes in reverse order. */
  function Reversed(bytes: seq<Byte>): (r: seq<Byte>)
    ensures |r| == |bytes|
  {
    seq(|bytes|, i requires 0 <= i < |bytes| => bytes[|bytes| - 1 - i])
  }

  /** `reverseBytes`: a new array filled from the far end. */
  method ReverseBytes(bytes: seq<Byte>) returns (r: seq<Byte>)
    ensures r == Reversed(bytes)
  {
    var buf := new Byte[|bytes|];
    for i := 0 to |bytes|
      invariant forall k | 0 <= k < i :: buf[k] == bytes[|bytes| - 1 - k]
    {
      buf[i] := bytes[|bytes| - 1 - i];
    }
    r := buf[..];
  }

  /** Reversing twice gives the original, and reversal maps concatenation to
      concatenation in the opposite order. */
  lemma ReversedInvolution(a: seq<Byte>, b: seq<Byte>)
    ensures Reversed(Reversed(a)) == a
    ensures Reversed(a + b) == Reversed(b) + Reversed(a)
  {
  }
}
