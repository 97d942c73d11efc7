/** `LifeHash.makeImage`: scales a grid of colour components up by the module
    size (nearest neighbour) and quantises every component to a byte, with an
    optional opaque alpha byte per pixel. */
module Images {
  import opened Basics
  import opened Utils
  import opened Grids

  /** `LifeHash.Image`: pixel dimensions, the bytes row by row, and whether
      each pixel carries an alpha byte. */
  datatype Image = Image(width: int, height: int, colors: seq<Byte>, hasAlpha: bool)

  /** `(byte)(clamped(x) * 255)`: the clamped value scaled to [0, 255] and
      truncated toward zero. */
  function Quantize(x: real): (b: Byte)
    ensures x <= 0.0 ==> b == 0
    ensures x >= 1.0 ==> b == 255
    ensures 0.0 <= x <= 1.0 ==> ByteValue(b) == (x * 255.0).Floor
  {
    var v := (Clamped(x) * 255.0).Floor;
    assert 0 <= v <= 255;
    SmallByte(v);
    v as Byte
  }

  /** A value in [0, 256) survives the round trip through a byte. */
  lemma SmallByte(v: int)
    requires 0 <= v < 256
    ensures ByteValue(v as Byte) == v
  {
  }

  /** Bytes per pixel. */
  function ComponentCount(hasAlpha: bool): nat
  {
    if hasAlpha then 4 else 3
  }

  /** `scaledCapacity`: the number of bytes of the image. */
  function Capacity(width: nat, height: nat, moduleSize: int, hasAlpha: bool): nat
  {
    NonNegativeArea(width, height, moduleSize);
    (width * moduleSize) * (height * moduleSize) * ComponentCount(hasAlpha)
  }

  lemma NonNegativeArea(width: nat, height: nat, moduleSize: int)
    ensures (width * moduleSize) * (height * moduleSize) >= 0
  {
    assert (width * moduleSize) * (height * moduleSize) == (width * height) * (moduleSize * moduleSize);
  }

  /** `sourceOffset`: the first component of the source cell (tx / m, ty / m). */
  function SourceOffset(width: nat, moduleSize: int, tx: int, ty: int): int
    requires moduleSize > 0
  {
    ((ty / moduleSize) * width + tx / moduleSize) * 3
  }

  /** Every scaled pixel comes from a cell inside the source grid. */
  lemma SourceOffsetInRange(width: nat, height: nat, moduleSize: int, tx: int, ty: int)
    requires moduleSize > 0 && 0 <= tx < width * moduleSize && 0 <= ty < height * moduleSize
    ensures 0 <= SourceOffset(width, moduleSize, tx, ty) && SourceOffset(width, moduleSize, tx, ty) + 2 < 3 * (width * height)
  {
    var sx, sy := tx / moduleSize, ty / moduleSize;
    QuotientBelow(tx, width, moduleSize);
    QuotientBelow(ty, height, moduleSize);
    MulMono(sy, height - 1, width);
    MulPred(height, width);
    assert sy * width + sx <= width * height - 1;
  }

  /** t < n * m gives t / m < n. */
  lemma QuotientBelow(t: int, n: nat, m: int)
    requires m > 0 && 0 <= t < n * m
    ensures 0 <= t / m < n
  {
  }

  lemma MulPred(a: int, b: int)
    ensures (a - 1) * b == a * b - b
  {
  }

  lemma MulMono(a: int, b: int, m: int)
    requires 0 <= a <= b && m >= 0
    ensures a * m <= b * m
  {
  }

  /** Where byte k of a scaled image sits: pixel (tx, ty), component c. */
  lemma ByteCoordinates(width: nat, height: nat, moduleSize: int, hasAlpha: bool, k: int)
    requires moduleSize > 0 && 0 <= k < Capacity(width, height, moduleSize, hasAlpha)
    ensures var comps, sw := ComponentCount(hasAlpha), width * moduleSize;
      sw > 0 &&
      var tx, ty, c := (k / comps) % sw, (k / comps) / sw, k % comps;
      0 <= tx < sw && 0 <= ty < height * moduleSize && 0 <= c < comps &&
      k == (ty * sw + tx) * comps + c
  {
    var comps := ComponentCount(hasAlpha);
    var sw, sh := width * moduleSize, height * moduleSize;
    var pixel := k / comps;
    var c := k % comps;
    assert k == pixel * comps + c;
    QuotientBelow(k, sw * sh, comps);
    var tx, ty := pixel % sw, pixel / sw;
    assert pixel == ty * sw + tx;
    QuotientBelow(pixel, sh, sw);
  }

  /** Byte k of the image `makeImage` builds for a positive module size: the
      colour components of the source cell under pixel k / comps, quantised,
      and 255 in the alpha position. */
  function ImageByte(floatColors: seq<real>, width: nat, height: nat, moduleSize: int, hasAlpha: bool, k: int): Byte
    requires moduleSize > 0 && |floatColors| == 3 * (width * height)
    requires 0 <= k < Capacity(width, height, moduleSize, hasAlpha)
  {
    ByteCoordinates(width, height, moduleSize, hasAlpha, k);
    var comps, sw := ComponentCount(hasAlpha), width * moduleSize;
    var tx, ty, c := (k / comps) % sw, (k / comps) / sw, k % comps;
    if c == 3 then 255
    else
      SourceOffsetInRange(width, height, moduleSize, tx, ty);
      Quantize(floatColors[SourceOffset(width, moduleSize, tx, ty) + c])
  }

  /** All the bytes of the image. A negative module size makes the loops
      run zero times, leaving every byte 0. */
  function ImageBytes(floatColors: seq<real>, width: nat, height: nat, moduleSize: int, hasAlpha: bool): (r: seq<Byte>)
    requires |floatColors| == 3 * (width * height)
    ensures |r| == Capacity(width, height, moduleSize, hasAlpha)
  {
    var n := Capacity(width, height, moduleSize, hasAlpha);
    if moduleSize <= 0 then seq(n, _ => 0)
    else seq(n, k requires 0 <= k < n => ImageByte(floatColors, width, height, moduleSize, hasAlpha, k))
  }

  /** Nearest-neighbour scaling: component c of pixel (tx, ty) is component c
      of cell (tx / m, ty / m), quantised; with alpha, the fourth byte is 255. */
  lemma PixelCopiesCell(floatColors: seq<real>, width: nat, height: nat, moduleSize: int, hasAlpha: bool,
                        tx: int, ty: int, c: int)
    requires moduleSize > 0 && |floatColors| == 3 * (width * height)
    requires 0 <= tx < width * moduleSize && 0 <= ty < height * moduleSize && 0 <= c < ComponentCount(hasAlpha)
    ensures var k := (ty * (width * moduleSize) + tx) * ComponentCount(hasAlpha) + c;
      0 <= k < Capacity(width, height, moduleSize, hasAlpha) &&
      0 <= SourceOffset(width, moduleSize, tx, ty) && SourceOffset(width, moduleSize, tx, ty) + 2 < |floatColors| &&
      ImageBytes(floatColors, width, height, moduleSize, hasAlpha)[k] ==
        if c == 3 then 255 else Quantize(floatColors[SourceOffset(width, moduleSize, tx, ty) + c])
  {
    var comps := ComponentCount(hasAlpha);
    var sw, sh := width * moduleSize, height * moduleSize;
    var pixel := ty * sw + tx;
    var k := pixel * comps + c;
    MulMono(ty, sh - 1, sw);
    MulPred(sh, sw);
    assert pixel <= sw * sh - 1;
    MulMono(pixel, sw * sh - 1, comps);
    MulPred(sw * sh, comps);
    assert k < (sw * sh) * comps;
    SourceOffsetInRange(width, height, moduleSize, tx, ty);
    ByteCoordinates(width, height, moduleSize, hasAlpha, k);
    DivModUnique(k, pixel, c, comps);
    DivModUnique(pixel, ty, tx, sw);
  }

  /** The bytes of pixel (tx, ty), as `makeImage` writes them. */
  lemma WritePixel(floatColors: seq<real>, width: nat, height: nat, moduleSize: int, hasAlpha: bool,
                   tx: int, ty: int, o: int, s: int)
    requires moduleSize > 0 && |floatColors| == 3 * (width * height)
    requires 0 <= tx < width * moduleSize && 0 <= ty < height * moduleSize
    requires o == (ty * (width * moduleSize) + tx) * ComponentCount(hasAlpha)
    requires s == SourceOffset(width, moduleSize, tx, ty)
    ensures 0 <= s && s + 2 < |floatColors|
    ensures 0 <= o && o + ComponentCount(hasAlpha) <= Capacity(width, height, moduleSize, hasAlpha)
    ensures (ty * (width * moduleSize) + tx + 1) * ComponentCount(hasAlpha) == o + ComponentCount(hasAlpha)
    ensures ImageBytes(floatColors, width, height, moduleSize, hasAlpha)[o] == Quantize(floatColors[s])
    ensures ImageBytes(floatColors, width, height, moduleSize, hasAlpha)[o + 1] == Quantize(floatColors[s + 1])
    ensures ImageBytes(floatColors, width, height, moduleSize, hasAlpha)[o + 2] == Quantize(floatColors[s + 2])
    ensures hasAlpha ==> ImageBytes(floatColors, width, height, moduleSize, hasAlpha)[o + 3] == 255
  {
    PixelCopiesCell(floatColors, width, height, moduleSize, hasAlpha, tx, ty, 0);
    PixelCopiesCell(floatColors, width, height, moduleSize, hasAlpha, tx, ty, 1);
    PixelCopiesCell(floatColors, width, height, moduleSize, hasAlpha, tx, ty, 2);
    if hasAlpha {
      PixelCopiesCell(floatColors, width, height, moduleSize, hasAlpha, tx, ty, 3);
    }
  }

  /** A finished row moves the written prefix to the start of the next row,
      and the last row ends the image. */
  lemma RowWritten(width: nat, height: nat, moduleSize: int, hasAlpha: bool, ty: int)
    ensures var sw, comps := width * moduleSize, ComponentCount(hasAlpha);
      (ty * sw + sw) * comps == (ty + 1) * sw * comps &&
      (ty + 1 == height * moduleSize ==> (ty + 1) * sw * comps == Capacity(width, height, moduleSize, hasAlpha))
  {
  }

  /** With alpha, every fourth byte is 255 and the colour bytes are those of
      the image without alpha. */
  lemma AlphaAddsOpaqueByte(floatColors: seq<real>, width: nat, height: nat, moduleSize: int, q: int, c: int)
    requires moduleSize > 0 && |floatColors| == 3 * (width * height)
    requires 0 <= q < (width * moduleSize) * (height * moduleSize) && 0 <= c < 3
    ensures 4 * q + 3 < Capacity(width, height, moduleSize, true)
    ensures ImageBytes(floatColors, width, height, moduleSize, true)[4 * q + 3] == 255
    ensures ImageBytes(floatColors, width, height, moduleSize, true)[4 * q + c] ==
      ImageBytes(floatColors, width, height, moduleSize, false)[3 * q + c]
  {
    var sw := width * moduleSize;
    var tx, ty := SplitPixel(q, sw, height * moduleSize);
    assert 4 * q + 3 == (ty * sw + tx) * 4 + 3;
    assert 4 * q + c == (ty * sw + tx) * 4 + c;
    assert 3 * q + c == (ty * sw + tx) * 3 + c;
    PixelCopiesCell(floatColors, width, height, moduleSize, true, tx, ty, 3);
    PixelCopiesCell(floatColors, width, height, moduleSize, true, tx, ty, c);
    PixelCopiesCell(floatColors, width, height, moduleSize, false, tx, ty, c);
  }

  /** At module size 1 without alpha the image is the components, quantised. */
  lemma UnscaledImage(floatColors: seq<real>, width: nat, height: nat, k: int)
    requires |floatColors| == 3 * (width * height) && 0 <= k < |floatColors|
    ensures Capacity(width, height, 1, false) == |floatColors|
    ensures ImageBytes(floatColors, width, height, 1, false)[k] == Quantize(floatColors[k])
  {
    ByteCoordinates(width, height, 1, false, k);
    var tx, ty := (k / 3) % width, (k / 3) / width;
    assert SourceOffset(width, 1, tx, ty) == (ty * width + tx) * 3;
  }

  /** `makeImage`, with the loops running targetY over the scaled height and
      targetX over the scaled width (see `VisitedAsWritten`). A zero module
      size is rejected. */
  method MakeImage(width: nat, height: nat, floatColors: seq<real>, moduleSize: int, hasAlpha: bool) returns (r: Result<Image>)
    requires |floatColors| == 3 * (width * height)
    ensures moduleSize == 0 ==> r == Failure(InvalidModuleSize)
    ensures moduleSize != 0 ==>
      r == Success(Image(width * moduleSize, height * moduleSize,
                         ImageBytes(floatColors, width, height, moduleSize, hasAlpha), hasAlpha))
  {
    if moduleSize == 0 {
      return Failure(InvalidModuleSize);
    }
    var scaledWidth := width * moduleSize;
    var scaledHeight := height * moduleSize;
    var resultComponents := if hasAlpha then 4 else 3;
    var scaledCapacity := Capacity(width, height, moduleSize, hasAlpha);
    var resultColors: seq<Byte> := [];
    for i := 0 to scaledCapacity
      invariant resultColors == seq(i, _ => 0)
    {
      resultColors := resultColors + [0];
    }
    ghost var expected := ImageBytes(floatColors, width, height, moduleSize, hasAlpha);
    ghost var written := 0;
    var targetY := 0;
    while targetY < scaledHeight
      invariant |resultColors| == scaledCapacity
      invariant moduleSize < 0 ==> targetY == 0
      invariant 0 <= targetY && (moduleSize > 0 ==> targetY <= scaledHeight)
      invariant written == targetY * scaledWidth * resultComponents
      invariant forall k | 0 <= k < scaledCapacity :: resultColors[k] == if k < written then expected[k] else 0
    {
      PositiveFactor(height, moduleSize);
      resultColors := ScaleRow(resultColors, floatColors, width, height, moduleSize, hasAlpha, targetY, written);
      RowWritten(width, height, moduleSize, hasAlpha, targetY);
      written := (targetY + 1) * scaledWidth * resultComponents;
      targetY := targetY + 1;
    }
    if moduleSize > 0 {
      RowWritten(width, height, moduleSize, hasAlpha, targetY - 1);
      AllWritten(resultColors, expected, written);
    } else {
      AllWritten(resultColors, expected, 0);
    }
    return Success(Image(scaledWidth, scaledHeight, resultColors, hasAlpha));
  }

  /** Once the written prefix covers the buffer, it is the whole image. */
  lemma AllWritten(colors: seq<Byte>, expected: seq<Byte>, written: int)
    requires |colors| == |expected|
    requires forall k | 0 <= k < |colors| :: colors[k] == if k < written then expected[k] else 0
    requires written >= |colors| || forall k | 0 <= k < |expected| :: expected[k] == 0
    ensures colors == expected
  {
  }

  /** Pixel q of a row-major image of the given width is (q % sw, q / sw). */
  lemma SplitPixel(q: int, sw: int, sh: int) returns (tx: int, ty: int)
    requires 0 <= q < sw * sh && sh >= 0
    ensures 0 <= tx < sw && 0 <= ty < sh && q == ty * sw + tx
  {
    PositiveFactor(sh, sw);
    tx, ty := q % sw, q / sw;
    QuotientBelow(q, sh, sw);
  }

  lemma PositiveFactor(n: int, m: int)
    requires n >= 0 && n * m > 0
    ensures m > 0
  {
  }

  /** One pass of the inner loop of `makeImage`: writes the pixels of row
      `targetY`, extending the written prefix of the image by one row. */
  method ScaleRow(resultColors: seq<Byte>, floatColors: seq<real>, width: nat, height: nat, moduleSize: int,
                  hasAlpha: bool, targetY: int, ghost written: int) returns (rowColors: seq<Byte>)
    requires moduleSize > 0 && |floatColors| == 3 * (width * height)
    requires 0 <= targetY < height * moduleSize
    requires |resultColors| == Capacity(width, height, moduleSize, hasAlpha)
    requires written == targetY * (width * moduleSize) * ComponentCount(hasAlpha)
    requires forall k | 0 <= k < |resultColors| ::
      resultColors[k] == if k < written then ImageBytes(floatColors, width, height, moduleSize, hasAlpha)[k] else 0
    ensures |rowColors| == |resultColors|
    ensures forall k | 0 <= k < |rowColors| ::
      rowColors[k] == if k < (targetY * (width * moduleSize) + width * moduleSize) * ComponentCount(hasAlpha)
                      then ImageBytes(floatColors, width, height, moduleSize, hasAlpha)[k] else 0
  {
    ghost var expected := ImageBytes(floatColors, width, height, moduleSize, hasAlpha);
    var scaledWidth := width * moduleSize;
    var resultComponents := if hasAlpha then 4 else 3;
    ghost var done := written;
    rowColors := resultColors;
    var targetX := 0;
    while targetX < scaledWidth
      invariant |rowColors| == |resultColors|
      invariant 0 <= targetX <= scaledWidth
      invariant done == (targetY * scaledWidth + targetX) * resultComponents
      invariant forall k | 0 <= k < |rowColors| :: rowColors[k] == if k < done then expected[k] else 0
    {
      var sourceX := targetX / moduleSize;
      var sourceY := targetY / moduleSize;
      var sourceOffset := (sourceY * width + sourceX) * 3;
      var targetOffset := (targetY * scaledWidth + targetX) * resultComponents;
      WritePixel(floatColors, width, height, moduleSize, hasAlpha, targetX, targetY, targetOffset, sourceOffset);
      assert targetOffset == done;
      ghost var before := rowColors;
      rowColors := rowColors[targetOffset := Quantize(floatColors[sourceOffset])];
      rowColors := rowColors[targetOffset + 1 := Quantize(floatColors[sourceOffset + 1])];
      rowColors := rowColors[targetOffset + 2 := Quantize(floatColors[sourceOffset + 2])];
      if hasAlpha {
        rowColors := rowColors[targetOffset + 3 := 255];
      }
      PixelWritten(before, rowColors, expected, done, resultComponents);
      done := done + resultComponents;
      targetX := targetX + 1;
    }
  }

  /** Writing the bytes of one more pixel extends the written prefix. */
  lemma PixelWritten(before: seq<Byte>, after: seq<Byte>, expected: seq<Byte>, written: int, comps: int)
    requires |before| == |after| == |expected| && 0 <= written && written + comps <= |after|
    requires forall k | 0 <= k < |before| :: before[k] == if k < written then expected[k] else 0
    requires forall k | 0 <= k < |after| && !(written <= k < written + comps) :: after[k] == before[k]
    requires comps == 3 || comps == 4
    requires after[written] == expected[written] && after[written + 1] == expected[written + 1]
    requires after[written + 2] == expected[written + 2]
    requires comps == 4 ==> after[written + 3] == expected[written + 3]
    ensures forall k | 0 <= k < |after| :: after[k] == if k < written + comps then expected[k] else 0
  {
  }

  /** The pixels the loops of `makeImage` visit as written: targetY runs up to
      the scaled width and targetX up to the scaled height. */
  predicate VisitedAsWritten(width: nat, height: nat, moduleSize: int, tx: int, ty: int)
  {
    0 <= ty < width * moduleSize && 0 <= tx < height * moduleSize
  }

  /** The swapped bounds read past the colour list of a 2 x 1 grid: pixel
      (0, 1) is visited, and its source offset 6 is the list's length. */
  lemma SwappedBoundsOverrun()
    ensures VisitedAsWritten(2, 1, 1, 0, 1)
    ensures SourceOffset(2, 1, 0, 1) == 3 * (2 * 1)
  {
  }

  /** On the square grids LifeHash renders, the swapped bounds visit exactly
      the image's pixels. */
  lemma SwappedBoundsHarmlessOnSquares(side: nat, moduleSize: int, tx: int, ty: int)
    ensures VisitedAsWritten(side, side, moduleSize, tx, ty) <==>
      0 <= tx < side * moduleSize && 0 <= ty < side * moduleSize
  {
  }
}
