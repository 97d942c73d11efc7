/** `Gradients`: choosing a gradient from the entropy stream. Each family
    reads its parameters in a fixed order; the `...At` functions say which
    bits each parameter comes from, relative to where the family starts
    reading. Colour arithmetic beyond `Color.lerpTo` is in `ColorOps`. */
module Gradients {
  import opened Basics
  import opened BitStream
  import opened ColorFuncs

  /** `grayscale`: black to white. */
  const Grayscale: ColorFunc := Blend(Black, White)

  /** `spectrum`: a hue circle through seven stops (given as 0..255 values,
      as `Color.fromUint8Values` scales them), first and last the same cyan. */
  const Spectrum: ColorFunc := Stops([
    Color(0.0 / 255.0, 168.0 / 255.0, 222.0 / 255.0),
    Color(51.0 / 255.0, 51.0 / 255.0, 145.0 / 255.0),
    Color(233.0 / 255.0, 19.0 / 255.0, 136.0 / 255.0),
    Color(235.0 / 255.0, 45.0 / 255.0, 46.0 / 255.0),
    Color(253.0 / 255.0, 233.0 / 255.0, 43.0 / 255.0),
    Color(0.0 / 255.0, 158.0 / 255.0, 84.0 / 255.0),
    Color(0.0 / 255.0, 168.0 / 255.0, 222.0 / 255.0)])

  /** `spectrumCmykSafe`: the same circle through colours that print in CMYK. */
  const SpectrumCmykSafe: ColorFunc := Stops([
    Color(0.0 / 255.0, 168.0 / 255.0, 222.0 / 255.0),
    Color(41.0 / 255.0, 60.0 / 255.0, 130.0 / 255.0),
    Color(210.0 / 255.0, 59.0 / 255.0, 130.0 / 255.0),
    Color(217.0 / 255.0, 63.0 / 255.0, 53.0 / 255.0),
    Color(244.0 / 255.0, 228.0 / 255.0, 81.0 / 255.0),
    Color(0.0 / 255.0, 158.0 / 255.0, 84.0 / 255.0),
    Color(0.0 / 255.0, 168.0 / 255.0, 222.0 / 255.0)])

  /** A gradient as a hue generator: the colour it gives each value. */
  function HueOf(f: ColorFunc, ops: ColorOps): real -> Color
    requires WellFormed(f)
  {
    v => Apply(f, v, ops)
  }

  /** The family's gradient, wrapped in `reverse` when the reversal bit is set. */
  function Wrap(gradient: ColorFunc, isReversed: bool): (f: ColorFunc)
    ensures f.Reverse? <==> isReversed || gradient.Reverse?
    ensures WellFormed(f) <==> WellFormed(gradient)
  {
    if isReversed then Reverse(gradient) else gradient
  }

  /** Java's `x % 1` on a non-negative double: the fractional part. */
  function FracPart(x: real): (r: real)
    requires x >= 0.0
    ensures 0.0 <= r < 1.0
  {
    x - x.Floor as real
  }

  /** The value `nextUint8` reads at pos. */
  function Uint8At(data: seq<Byte>, pos: nat): (v: nat)
    requires pos + 8 <= 8 * |data|
    ensures v < 256
  {
    PowerOfTwo128();
    ReadBitsBound(data, pos, 0x80, 8);
    ReadBits(data, pos, 0x80, 8)
  }

  /** The colour a stop list takes for the neutral end: white for a tint, black for a shade. */
  function Neutral(isTint: bool): Color
  {
    if isTint then White else Black
  }

  // ---------------------------------------------------------------------
  // Stable sort by luminance (the `colors.sort` of `triadic`).

  /** Inserts x after every element whose luminance is at most x's. */
  function InsertByLuminance(sorted: seq<Color>, x: Color, luminance: Color -> real): (r: seq<Color>)
    ensures |r| == |sorted| + 1
  {
    if |sorted| == 0 || luminance(sorted[|sorted| - 1]) <= luminance(x) then sorted + [x]
    else InsertByLuminance(sorted[..|sorted| - 1], x, luminance) + [sorted[|sorted| - 1]]
  }

  /** Insertion sort by luminance; equal luminances keep their order. */
  function SortByLuminance(colors: seq<Color>, luminance: Color -> real): (r: seq<Color>)
    ensures |r| == |colors|
  {
    if |colors| == 0 then []
    else InsertByLuminance(SortByLuminance(colors[..|colors| - 1], luminance), colors[|colors| - 1], luminance)
  }

  predicate SortedByLuminance(s: seq<Color>, luminance: Color -> real)
  {
    forall i, j | 0 <= i < j < |s| :: luminance(s[i]) <= luminance(s[j])
  }

  /** Inserting keeps the colours: the result is the old list plus x. */
  lemma {:induction false} InsertPermutes(sorted: seq<Color>, x: Color, luminance: Color -> real)
    ensures multiset(InsertByLuminance(sorted, x, luminance)) == multiset(sorted) + multiset{x}
  {
    var n := |sorted|;
    if n > 0 && luminance(sorted[n - 1]) > luminance(x) {
      assert sorted == sorted[..n - 1] + [sorted[n - 1]];
      InsertPermutes(sorted[..n - 1], x, luminance);
    }
  }

  /** A colour no darker than every colour of a sorted list extends it sorted. */
  lemma AppendSorted(s: seq<Color>, last: Color, luminance: Color -> real)
    requires SortedByLuminance(s, luminance)
    requires forall i | 0 <= i < |s| :: luminance(s[i]) <= luminance(last)
    ensures SortedByLuminance(s + [last], luminance)
  {
  }

  lemma {:induction false} InsertKeepsSorted(sorted: seq<Color>, x: Color, luminance: Color -> real)
    requires SortedByLuminance(sorted, luminance)
    ensures SortedByLuminance(InsertByLuminance(sorted, x, luminance), luminance)
    ensures multiset(InsertByLuminance(sorted, x, luminance)) == multiset(sorted) + multiset{x}
  {
    InsertPermutes(sorted, x, luminance);
    var n := |sorted|;
    if n > 0 && luminance(sorted[n - 1]) > luminance(x) {
      var front, last := sorted[..n - 1], sorted[n - 1];
      assert SortedByLuminance(front, luminance);
      InsertKeepsSorted(front, x, luminance);
      var r := InsertByLuminance(front, x, luminance);
      forall i | 0 <= i < |r| ensures luminance(r[i]) <= luminance(last) {
        assert r[i] in multiset(r);
        if r[i] != x {
          assert r[i] in multiset(front);
          var k :| 0 <= k < |front| && front[k] == r[i];
          assert sorted[k] == r[i];
        }
      }
      AppendSorted(r, last, luminance);
    } else if n > 0 {
      forall i | 0 <= i < n ensures luminance(sorted[i]) <= luminance(x) {
        if i < n - 1 {
          assert luminance(sorted[i]) <= luminance(sorted[n - 1]);
        }
      }
      AppendSorted(sorted, x, luminance);
    }
  }

  /** The sort returns the same colours, in non-decreasing luminance. */
  lemma {:induction false} SortByLuminanceSorts(colors: seq<Color>, luminance: Color -> real)
    ensures SortedByLuminance(SortByLuminance(colors, luminance), luminance)
    ensures multiset(SortByLuminance(colors, luminance)) == multiset(colors)
  {
    if |colors| > 0 {
      var n := |colors| - 1;
      var front, x := colors[..n], colors[n];
      SortByLuminanceSorts(front, luminance);
      var sorted := SortByLuminance(front, luminance);
      InsertKeepsSorted(sorted, x, luminance);
      assert SortByLuminance(colors, luminance) == InsertByLuminance(sorted, x, luminance);
      assert colors == front + [x];
      assert multiset(colors) == multiset(front) + multiset{x};
    }
  }

  // ---------------------------------------------------------------------
  // The fiducial stop lists of `triadicFiducial` and `analogousFiducial`.

  /** The three hue colours adjusted for luminance, then the neutral colour
      inserted at index 1 or 2. */
  function FiducialStops(colors: seq<Color>, neutral: Color, index: int, ops: ColorOps): (stops: seq<Color>)
    requires |colors| == 3 && (index == 1 || index == 2)
    ensures |stops| == 4 && stops[index] == neutral
  {
    var adjusted :=
      if index == 1 then
        var c1 := ops.adjustForLuminance(colors[1], neutral);
        [ops.adjustForLuminance(colors[0], neutral), c1, ops.adjustForLuminance(colors[2], c1)]
      else
        var c1 := ops.adjustForLuminance(colors[1], neutral);
        [ops.adjustForLuminance(colors[0], c1), c1, ops.adjustForLuminance(colors[2], neutral)];
    adjusted[..index] + [neutral] + adjusted[index..]
  }

  /** The other three stops are the adjusted colours in their original order. */
  lemma FiducialStopsOrder(colors: seq<Color>, neutral: Color, index: int, ops: ColorOps)
    requires |colors| == 3 && (index == 1 || index == 2)
    ensures var s := FiducialStops(colors, neutral, index, ops);
      s[0] == ops.adjustForLuminance(colors[0], if index == 1 then neutral else s[1]) &&
      (index == 1 ==> s[2] == ops.adjustForLuminance(colors[1], neutral) &&
                      s[3] == ops.adjustForLuminance(colors[2], s[2])) &&
      (index == 2 ==> s[1] == ops.adjustForLuminance(colors[1], neutral) &&
                      s[3] == ops.adjustForLuminance(colors[2], neutral))
  {
  }

  /** `nextUint8() % 2 + 1` is 1 or 2, so the "Internal error" arms never run. */
  lemma NeutralIndexInRange(v: int)
    requires 0 <= v < 256
    ensures v % 2 + 1 == 1 || v % 2 + 1 == 2
  {
  }

  /** The `set` calls and the `add(neutralInsertIndex, neutralColor)` of the fiducial families. */
  method PlaceNeutral(colors: seq<Color>, neutralColor: Color, neutralInsertIndex: int, ops: ColorOps) returns (stops: seq<Color>)
    requires |colors| == 3 && (neutralInsertIndex == 1 || neutralInsertIndex == 2)
    ensures stops == FiducialStops(colors, neutralColor, neutralInsertIndex, ops)
  {
    stops := colors;
    if neutralInsertIndex == 1 {
      stops := stops[0 := ops.adjustForLuminance(stops[0], neutralColor)];
      stops := stops[1 := ops.adjustForLuminance(stops[1], neutralColor)];
      stops := stops[2 := ops.adjustForLuminance(stops[2], stops[1])];
    } else {
      stops := stops[1 := ops.adjustForLuminance(stops[1], neutralColor)];
      stops := stops[2 := ops.adjustForLuminance(stops[2], neutralColor)];
      stops := stops[0 := ops.adjustForLuminance(stops[0], stops[1])];
    }
    stops := stops[..neutralInsertIndex] + [neutralColor] + stops[neutralInsertIndex..];
  }

  /** The gradient a fiducial family makes of its three hues and the tint,
      neutral-index and reversal values it read. */
  function FiducialFrom(colors: seq<Color>, isTint: bool, v: int, isReversed: bool, ops: ColorOps): (f: ColorFunc)
    requires |colors| == 3 && 0 <= v < 256
  {
    Wrap(BlendList(FiducialStops(colors, Neutral(isTint), v % 2 + 1, ops)), isReversed)
  }

  /** The shared tail of `triadicFiducial` and `analogousFiducial`: the neutral
      index from the byte read, the neutral placed, the stops blended. */
  method FiducialGradient(colors: seq<Color>, isTint: bool, v: int, isReversed: bool, ops: ColorOps) returns (f: ColorFunc)
    requires |colors| == 3 && 0 <= v < 256
    ensures f == FiducialFrom(colors, isTint, v, isReversed, ops)
  {
    var neutralInsertIndex := v % 2 + 1;
    NeutralIndexInRange(v);
    var stops := PlaceNeutral(colors, Neutral(isTint), neutralInsertIndex, ops);
    f := Wrap(BlendList(stops), isReversed);
  }

  // ---------------------------------------------------------------------
  // The families. Each `...At` function gives the gradient a family builds
  // from the bits starting at pos; each method reads them in source order.

  /** `selectGrayscale`: one bit; set keeps black-to-white, clear reverses it. */
  function GrayscaleAt(data: seq<Byte>, pos: nat): ColorFunc
    requires pos + 1 <= 8 * |data|
  {
    if BitAt(data, pos) then Grayscale else Reverse(Grayscale)
  }

  method SelectGrayscale(entropy: BitEnumerator) returns (r: Result<ColorFunc>)
    requires entropy.Valid()
    modifies entropy
    ensures entropy.Valid()
    ensures old(entropy.Consumed()) + 1 <= 8 * |entropy.data| ==>
      r == Success(GrayscaleAt(entropy.data, old(entropy.Consumed()))) && entropy.Consumed() == old(entropy.Consumed()) + 1
    ensures old(entropy.Consumed()) + 1 > 8 * |entropy.data| ==> r.Failure?
  {
    var bit :- entropy.Next();
    return Success(if bit then Grayscale else Reverse(Grayscale));
  }

  /** `monochromatic`'s colours, from the values it reads. */
  function MonochromaticFrom(hue: real -> Color, hueValue: real, isTint: bool, isReversed: bool,
                             keyFrac: real, neutralFrac: real, ops: ColorOps): ColorFunc
  {
    var keyAdvance := keyFrac * 0.3 + 0.05;
    var neutralAdvance := neutralFrac * 0.3 + 0.05;
    var keyColor := if isTint then Darken(hue(hueValue), 0.5, ops) else hue(hueValue);
    var neutralColor := Apply(Grayscale, if isTint then 1.0 else 0.0, ops);
    Wrap(Blend(ops.lerpTo(keyColor, neutralColor, keyAdvance), ops.lerpTo(neutralColor, keyColor, neutralAdvance)), isReversed)
  }

  /** `monochromatic`: hue (16 bits), tint (1), reversed (1), key advance (16),
      neutral advance (16): 50 bits. */
  function MonochromaticAt(data: seq<Byte>, pos: nat, hue: real -> Color, ops: ColorOps): ColorFunc
    requires pos + 50 <= 8 * |data|
  {
    MonochromaticFrom(hue, FracAt(data, pos), BitAt(data, pos + 16), BitAt(data, pos + 17),
                      FracAt(data, pos + 18), FracAt(data, pos + 34), ops)
  }

  method Monochromatic(entropy: BitEnumerator, hueGenerator: real -> Color, ops: ColorOps) returns (r: Result<ColorFunc>)
    requires entropy.Valid()
    modifies entropy
    ensures entropy.Valid()
    ensures old(entropy.Consumed()) + 50 <= 8 * |entropy.data| ==>
      r == Success(MonochromaticAt(entropy.data, old(entropy.Consumed()), hueGenerator, ops)) &&
      entropy.Consumed() == old(entropy.Consumed()) + 50
    ensures old(entropy.Consumed()) + 50 > 8 * |entropy.data| ==> r.Failure?
  {
    var hue :- entropy.NextFrac();
    var isTint :- entropy.Next();
    var isReversed :- entropy.Next();
    var keyFrac :- entropy.NextFrac();
    var neutralFrac :- entropy.NextFrac();
    return Success(MonochromaticFrom(hueGenerator, hue, isTint, isReversed, keyFrac, neutralFrac, ops));
  }

  function MonochromaticFiducialFrom(hue: real -> Color, hueValue: real, isReversed: bool, isTint: bool, ops: ColorOps): ColorFunc
  {
    var contrastColor := Neutral(isTint);
    var keyColor := ops.adjustForLuminance(hue(hueValue), contrastColor);
    Wrap(BlendList([keyColor, contrastColor, keyColor]), isReversed)
  }

  /** `monochromaticFiducial`: hue (16), reversed (1), tint (1): 18 bits. */
  function MonochromaticFiducialAt(data: seq<Byte>, pos: nat, ops: ColorOps): ColorFunc
    requires pos + 18 <= 8 * |data|
  {
    MonochromaticFiducialFrom(HueOf(SpectrumCmykSafe, ops), FracAt(data, pos), BitAt(data, pos + 16), BitAt(data, pos + 17), ops)
  }

  method MonochromaticFiducial(entropy: BitEnumerator, ops: ColorOps) returns (r: Result<ColorFunc>)
    requires entropy.Valid()
    modifies entropy
    ensures entropy.Valid()
    ensures old(entropy.Consumed()) + 18 <= 8 * |entropy.data| ==>
      r == Success(MonochromaticFiducialAt(entropy.data, old(entropy.Consumed()), ops)) &&
      entropy.Consumed() == old(entropy.Consumed()) + 18
    ensures old(entropy.Consumed()) + 18 > 8 * |entropy.data| ==> r.Failure?
  {
    var hue :- entropy.NextFrac();
    var isReversed :- entropy.Next();
    var isTint :- entropy.Next();
    return Success(MonochromaticFiducialFrom(HueOf(SpectrumCmykSafe, ops), hue, isReversed, isTint, ops));
  }

  /** `complementary`'s colours: the second hue is half a turn from the first;
      the darker is darkened, the lighter lightened. */
  function ComplementaryFrom(hue: real -> Color, spectrum1: real, lighterFrac: real, darkerFrac: real,
                             isReversed: bool, ops: ColorOps): ColorFunc
    requires 0.0 <= spectrum1
  {
    var lighterAdvance := lighterFrac * 0.3;
    var darkerAdvance := darkerFrac * 0.3;
    var color1 := hue(spectrum1);
    var color2 := hue(FracPart(spectrum1 + 0.5));
    var darker := if ops.luminance(color1) > ops.luminance(color2) then color2 else color1;
    var lighter := if ops.luminance(color1) > ops.luminance(color2) then color1 else color2;
    Wrap(Blend(Darken(darker, darkerAdvance, ops), Lighten(lighter, lighterAdvance, ops)), isReversed)
  }

  /** `complementary`: hue (16), lighter advance (16), darker advance (16),
      reversed (1): 49 bits. */
  function ComplementaryAt(data: seq<Byte>, pos: nat, hue: real -> Color, ops: ColorOps): ColorFunc
    requires pos + 49 <= 8 * |data|
  {
    ComplementaryFrom(hue, FracAt(data, pos), FracAt(data, pos + 16), FracAt(data, pos + 32),
                      BitAt(data, pos + 48), ops)
  }

  method Complementary(entropy: BitEnumerator, hueGenerator: real -> Color, ops: ColorOps) returns (r: Result<ColorFunc>)
    requires entropy.Valid()
    modifies entropy
    ensures entropy.Valid()
    ensures old(entropy.Consumed()) + 49 <= 8 * |entropy.data| ==>
      r == Success(ComplementaryAt(entropy.data, old(entropy.Consumed()), hueGenerator, ops)) &&
      entropy.Consumed() == old(entropy.Consumed()) + 49
    ensures old(entropy.Consumed()) + 49 > 8 * |entropy.data| ==> r.Failure?
  {
    var spectrum1 :- entropy.NextFrac();
    var lighterFrac :- entropy.NextFrac();
    var darkerFrac :- entropy.NextFrac();
    var isReversed :- entropy.Next();
    return Success(ComplementaryFrom(hueGenerator, spectrum1, lighterFrac, darkerFrac, isReversed, ops));
  }

  /** `complementaryFiducial`'s colours: the neutral colour biased towards one
      of the two hues, between the two adjusted hues. */
  function ComplementaryFiducialFrom(hue: real -> Color, spectrum1: real, isTint: bool, isReversed: bool, bias: bool, ops: ColorOps): ColorFunc
    requires 0.0 <= spectrum1
  {
    var color1 := hue(spectrum1);
    var color2 := hue(FracPart(spectrum1 + 0.5));
    var biased := ops.burn(ops.lerpTo(Neutral(isTint), if bias then color1 else color2, 0.2), 0.1);
    Wrap(BlendList([ops.adjustForLuminance(color1, biased), biased, ops.adjustForLuminance(color2, biased)]), isReversed)
  }

  /** `complementaryFiducial`: hue (16), tint (1), reversed (1), neutral bias
      (1): 19 bits. */
  function ComplementaryFiducialAt(data: seq<Byte>, pos: nat, ops: ColorOps): ColorFunc
    requires pos + 19 <= 8 * |data|
  {
    ComplementaryFiducialFrom(HueOf(SpectrumCmykSafe, ops), FracAt(data, pos), BitAt(data, pos + 16), BitAt(data, pos + 17), BitAt(data, pos + 18), ops)
  }

  method ComplementaryFiducial(entropy: BitEnumerator, ops: ColorOps) returns (r: Result<ColorFunc>)
    requires entropy.Valid()
    modifies entropy
    ensures entropy.Valid()
    ensures old(entropy.Consumed()) + 19 <= 8 * |entropy.data| ==>
      r == Success(ComplementaryFiducialAt(entropy.data, old(entropy.Consumed()), ops)) &&
      entropy.Consumed() == old(entropy.Consumed()) + 19
    ensures old(entropy.Consumed()) + 19 > 8 * |entropy.data| ==> r.Failure?
  {
    var spectrum1 :- entropy.NextFrac();
    var isTint :- entropy.Next();
    var isReversed :- entropy.Next();
    var neutralColorBias :- entropy.Next();
    return Success(ComplementaryFiducialFrom(HueOf(SpectrumCmykSafe, ops), spectrum1, isTint, isReversed, neutralColorBias, ops));
  }

  /** `triadic`'s colours: three hues a third of a turn apart, sorted by
      luminance; the lightest lightened first, the darkest darkened last. */
  function TriadicFrom(hue: real -> Color, spectrum1: real, lighterFrac: real, darkerFrac: real,
                       isReversed: bool, ops: ColorOps): ColorFunc
    requires 0.0 <= spectrum1
  {
    var lighterAdvance := lighterFrac * 0.3;
    var darkerAdvance := darkerFrac * 0.3;
    var colors := SortByLuminance([hue(spectrum1), hue(FracPart(spectrum1 + 1.0 / 3.0)),
                                   hue(FracPart(spectrum1 + 2.0 / 3.0))], ops.luminance);
    Wrap(BlendList([Lighten(colors[2], lighterAdvance, ops), colors[1], Darken(colors[0], darkerAdvance, ops)]), isReversed)
  }

  /** `triadic`: hue (16), lighter advance (16), darker advance (16), reversed
      (1): 49 bits. */
  function TriadicAt(data: seq<Byte>, pos: nat, hue: real -> Color, ops: ColorOps): ColorFunc
    requires pos + 49 <= 8 * |data|
  {
    TriadicFrom(hue, FracAt(data, pos), FracAt(data, pos + 16), FracAt(data, pos + 32),
                BitAt(data, pos + 48), ops)
  }

  method Triadic(entropy: BitEnumerator, hueGenerator: real -> Color, ops: ColorOps) returns (r: Result<ColorFunc>)
    requires entropy.Valid()
    modifies entropy
    ensures entropy.Valid()
    ensures old(entropy.Consumed()) + 49 <= 8 * |entropy.data| ==>
      r == Success(TriadicAt(entropy.data, old(entropy.Consumed()), hueGenerator, ops)) &&
      entropy.Consumed() == old(entropy.Consumed()) + 49
    ensures old(entropy.Consumed()) + 49 > 8 * |entropy.data| ==> r.Failure?
  {
    var spectrum1 :- entropy.NextFrac();
    var lighterFrac :- entropy.NextFrac();
    var darkerFrac :- entropy.NextFrac();
    var isReversed :- entropy.Next();
    return Success(TriadicFrom(hueGenerator, spectrum1, lighterFrac, darkerFrac, isReversed, ops));
  }

  /** The three spectrum colours of a fiducial family, `step` of a turn apart. */
  function FiducialHues(hue: real -> Color, spectrum1: real, step: real, ops: ColorOps): (colors: seq<Color>)
    requires 0.0 <= spectrum1 && 0.0 <= step
    ensures |colors| == 3
  {
    [hue(spectrum1), hue(FracPart(spectrum1 + step)),
     hue(FracPart(spectrum1 + 2.0 * step))]
  }

  /** `triadicFiducial`: hue (16), tint (1), neutral index (8), reversed (1): 26 bits. */
  function TriadicFiducialAt(data: seq<Byte>, pos: nat, ops: ColorOps): ColorFunc
    requires pos + 26 <= 8 * |data|
  {
    FiducialFrom(FiducialHues(HueOf(SpectrumCmykSafe, ops), FracAt(data, pos), 1.0 / 3.0, ops),
                 BitAt(data, pos + 16), Uint8At(data, pos + 17), BitAt(data, pos + 25), ops)
  }

  method TriadicFiducial(entropy: BitEnumerator, ops: ColorOps) returns (r: Result<ColorFunc>)
    requires entropy.Valid()
    modifies entropy
    ensures entropy.Valid()
    ensures old(entropy.Consumed()) + 26 <= 8 * |entropy.data| ==>
      r == Success(TriadicFiducialAt(entropy.data, old(entropy.Consumed()), ops)) &&
      entropy.Consumed() == old(entropy.Consumed()) + 26
    ensures old(entropy.Consumed()) + 26 > 8 * |entropy.data| ==> r.Failure?
  {
    var spectrum1 :- entropy.NextFrac();
    var isTint :- entropy.Next();
    var v :- entropy.NextUint8();
    var isReversed :- entropy.Next();
    var f := FiducialGradient(FiducialHues(HueOf(SpectrumCmykSafe, ops), spectrum1, 1.0 / 3.0, ops), isTint, v, isReversed, ops);
    return Success(f);
  }

  /** `analogous`'s colours: four hues a twelfth of a turn apart, ordered
      darkest first by comparing the ends, darkened and lightened by the advance. */
  function AnalogousFrom(hue: real -> Color, spectrum1: real, advanceFrac: real, isReversed: bool, ops: ColorOps): ColorFunc
    requires 0.0 <= spectrum1
  {
    var advance := advanceFrac * 0.5 + 0.2;
    var color1 := hue(spectrum1);
    var color2 := hue(FracPart(spectrum1 + 1.0 / 12.0));
    var color3 := hue(FracPart(spectrum1 + 2.0 / 12.0));
    var color4 := hue(FracPart(spectrum1 + 3.0 / 12.0));
    var ordered := if ops.luminance(color1) < ops.luminance(color4) then [color1, color2, color3, color4]
                   else [color4, color3, color2, color1];
    Wrap(BlendList([Darken(ordered[0], advance, ops), Darken(ordered[1], advance / 2.0, ops),
                    Lighten(ordered[2], advance / 2.0, ops), Lighten(ordered[3], advance, ops)]), isReversed)
  }

  /** `analogous`: hue (16), advance (16), reversed (1): 33 bits. */
  function AnalogousAt(data: seq<Byte>, pos: nat, hue: real -> Color, ops: ColorOps): ColorFunc
    requires pos + 33 <= 8 * |data|
  {
    AnalogousFrom(hue, FracAt(data, pos), FracAt(data, pos + 16), BitAt(data, pos + 32), ops)
  }

  method Analogous(entropy: BitEnumerator, hueGenerator: real -> Color, ops: ColorOps) returns (r: Result<ColorFunc>)
    requires entropy.Valid()
    modifies entropy
    ensures entropy.Valid()
    ensures old(entropy.Consumed()) + 33 <= 8 * |entropy.data| ==>
      r == Success(AnalogousAt(entropy.data, old(entropy.Consumed()), hueGenerator, ops)) &&
      entropy.Consumed() == old(entropy.Consumed()) + 33
    ensures old(entropy.Consumed()) + 33 > 8 * |entropy.data| ==> r.Failure?
  {
    var spectrum1 :- entropy.NextFrac();
    var advanceFrac :- entropy.NextFrac();
    var isReversed :- entropy.Next();
    return Success(AnalogousFrom(hueGenerator, spectrum1, advanceFrac, isReversed, ops));
  }

  /** `analogousFiducial`: hue (16), tint (1), neutral index (8), reversed (1): 26 bits. */
  function AnalogousFiducialAt(data: seq<Byte>, pos: nat, ops: ColorOps): ColorFunc
    requires pos + 26 <= 8 * |data|
  {
    FiducialFrom(FiducialHues(HueOf(SpectrumCmykSafe, ops), FracAt(data, pos), 1.0 / 10.0, ops),
                 BitAt(data, pos + 16), Uint8At(data, pos + 17), BitAt(data, pos + 25), ops)
  }

  method AnalogousFiducial(entropy: BitEnumerator, ops: ColorOps) returns (r: Result<ColorFunc>)
    requires entropy.Valid()
    modifies entropy
    ensures entropy.Valid()
    ensures old(entropy.Consumed()) + 26 <= 8 * |entropy.data| ==>
      r == Success(AnalogousFiducialAt(entropy.data, old(entropy.Consumed()), ops)) &&
      entropy.Consumed() == old(entropy.Consumed()) + 26
    ensures old(entropy.Consumed()) + 26 > 8 * |entropy.data| ==> r.Failure?
  {
    var spectrum1 :- entropy.NextFrac();
    var isTint :- entropy.Next();
    var v :- entropy.NextUint8();
    var isReversed :- entropy.Next();
    var f := FiducialGradient(FiducialHues(HueOf(SpectrumCmykSafe, ops), spectrum1, 1.0 / 10.0, ops), isTint, v, isReversed, ops);
    return Success(f);
  }

  // ---------------------------------------------------------------------
  // `selectGradient`.

  /** The two-bit family selector `nextUint2` reads at pos. */
  function Uint2At(data: seq<Byte>, pos: nat): (v: nat)
    requires pos + 2 <= 8 * |data|
    ensures v < 4
  {
    assert IsPowerOfTwo(2) by { assert IsPowerOfTwo(1); }
    ReadBitsBound(data, pos, 2, 2);
    ReadBits(data, pos, 2, 2)
  }

  /** The bits a family reads after the selector: family 0 is monochromatic,
      1 complementary, 2 triadic, 3 analogous. */
  function FamilyBits(version: Version, family: nat): nat
    requires family < 4
  {
    if version == Fiducial then
      (if family == 0 then 18 else if family == 1 then 19 else 26)
    else
      (if family == 0 then 50 else if family == 3 then 33 else 49)
  }

  /** How many bits `selectGradient` reads from pos: one for the grayscale
      fiducial version, otherwise the selector and the selected family's bits. */
  function GradientBits(data: seq<Byte>, pos: nat, version: Version): nat
  {
    if version == GrayscaleFiducial then 1
    else if pos + 2 <= 8 * |data| then 2 + FamilyBits(version, Uint2At(data, pos))
    else 2
  }

  /** The gradient family `family` builds from the bits at pos. Version 1 draws
      monochromatic hues from the HSB circle and the other families from the
      spectrum; versions 2 and detailed use the CMYK-safe spectrum throughout;
      the fiducial version uses the fiducial families. */
  function FamilyAt(data: seq<Byte>, pos: nat, version: Version, family: nat, ops: ColorOps): (f: ColorFunc)
    requires version != GrayscaleFiducial && family < 4
    requires pos + FamilyBits(version, family) <= 8 * |data|
    ensures WellFormed(f)
  {
    var hue := if version == Version1 then HueOf(Spectrum, ops) else HueOf(SpectrumCmykSafe, ops);
    if family == 0 then
      if version == Fiducial then MonochromaticFiducialAt(data, pos, ops)
      else MonochromaticAt(data, pos, if version == Version1 then HueOf(MakeHue, ops) else HueOf(SpectrumCmykSafe, ops), ops)
    else if family == 1 then
      if version == Fiducial then ComplementaryFiducialAt(data, pos, ops) else ComplementaryAt(data, pos, hue, ops)
    else if family == 2 then
      if version == Fiducial then TriadicFiducialAt(data, pos, ops) else TriadicAt(data, pos, hue, ops)
    else
      if version == Fiducial then AnalogousFiducialAt(data, pos, ops) else AnalogousAt(data, pos, hue, ops)
  }

  /** The gradient `selectGradient` builds from the bits at pos. */
  function GradientAt(data: seq<Byte>, pos: nat, version: Version, ops: ColorOps): (f: ColorFunc)
    requires pos + GradientBits(data, pos, version) <= 8 * |data|
    ensures WellFormed(f)
  {
    if version == GrayscaleFiducial then GrayscaleAt(data, pos)
    else FamilyAt(data, pos + 2, version, Uint2At(data, pos), ops)
  }

  /** `selectGradient`: the grayscale fiducial version reads one bit; the others
      read a two-bit family selector and then the family's bits. */
  method SelectGradient(entropy: BitEnumerator, version: Version, ops: ColorOps) returns (r: Result<ColorFunc>)
    requires entropy.Valid()
    modifies entropy
    ensures entropy.Valid()
    ensures old(entropy.Consumed()) + GradientBits(entropy.data, old(entropy.Consumed()), version) <= 8 * |entropy.data| ==>
      r == Success(GradientAt(entropy.data, old(entropy.Consumed()), version, ops)) &&
      entropy.Consumed() == old(entropy.Consumed()) + GradientBits(entropy.data, old(entropy.Consumed()), version)
    ensures old(entropy.Consumed()) + GradientBits(entropy.data, old(entropy.Consumed()), version) > 8 * |entropy.data| ==>
      r.Failure?
  {
    if version == GrayscaleFiducial {
      r := SelectGrayscale(entropy);
      return;
    }
    var value :- entropy.NextUint2();
    r := SelectFamily(entropy, version, value, ops);
  }

  /** The `switch (value)` of `selectGradient`, and in each arm the `switch (version)`. */
  method SelectFamily(entropy: BitEnumerator, version: Version, value: int, ops: ColorOps) returns (r: Result<ColorFunc>)
    requires entropy.Valid() && version != GrayscaleFiducial && 0 <= value < 4
    modifies entropy
    ensures entropy.Valid()
    ensures old(entropy.Consumed()) + FamilyBits(version, value) <= 8 * |entropy.data| ==>
      r == Success(FamilyAt(entropy.data, old(entropy.Consumed()), version, value, ops)) &&
      entropy.Consumed() == old(entropy.Consumed()) + FamilyBits(version, value)
    ensures old(entropy.Consumed()) + FamilyBits(version, value) > 8 * |entropy.data| ==> r.Failure?
  {
    if value == 0 {
      match version {
        case Version1 => r := Monochromatic(entropy, HueOf(MakeHue, ops), ops);
        case Version2 | Detailed => r := Monochromatic(entropy, HueOf(SpectrumCmykSafe, ops), ops);
        case Fiducial => r := MonochromaticFiducial(entropy, ops);
      }
    } else if value == 1 {
      match version {
        case Version1 => r := Complementary(entropy, HueOf(Spectrum, ops), ops);
        case Version2 | Detailed => r := Complementary(entropy, HueOf(SpectrumCmykSafe, ops), ops);
        case Fiducial => r := ComplementaryFiducial(entropy, ops);
      }
    } else if value == 2 {
      match version {
        case Version1 => r := Triadic(entropy, HueOf(Spectrum, ops), ops);
        case Version2 | Detailed => r := Triadic(entropy, HueOf(SpectrumCmykSafe, ops), ops);
        case Fiducial => r := TriadicFiducial(entropy, ops);
      }
    } else {
      match version {
        case Version1 => r := Analogous(entropy, HueOf(Spectrum, ops), ops);
        case Version2 | Detailed => r := Analogous(entropy, HueOf(SpectrumCmykSafe, ops), ops);
        case Fiducial => r := AnalogousFiducial(entropy, ops);
      }
    }
  }

  /** `selectGradient` reads at most 52 bits: fewer than a 32-byte digest holds
      after the version's skipped bits. */
  lemma GradientBitsBound(data: seq<Byte>, pos: nat, version: Version)
    ensures 1 <= GradientBits(data, pos, version) <= 52
    ensures version == GrayscaleFiducial <==> GradientBits(data, pos, version) == 1
  {
  }
}
