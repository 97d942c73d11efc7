/** `ColorFunc`: gradients, maps from a value in [0, 1] to a colour. The
    source builds them as closures; here they are a datatype with an `Apply`
    interpreter. The colour operations (`Color.lerpTo`, `makeHue`,
    luminance, `burn`, `adjustForLuminance`) are floating-point colour
    arithmetic and are passed in as `ColorOps`; `ColorLerp` is the reference
    definition of `Color.lerpTo` on reals, used where a property depends on it. */
module ColorFuncs {
  import opened Basics
  import opened Utils

  /** The colour operations the model leaves uninterpreted. */
  datatype ColorOps = ColorOps(
    lerpTo: (Color, Color, real) -> Color,
    makeHue: real -> Color,
    luminance: Color -> real,
    burn: (Color, real) -> Color,
    adjustForLuminance: (Color, Color) -> Color)

  datatype ColorFunc =
    | Blend(from: Color, to: Color)   // blend(color1, color2)
    | Stops(colors: seq<Color>)       // blend(list) with three or more colours
    | Reverse(inner: ColorFunc)       // reverse(c)
    | MakeHue                         // makeHue: the HSB hue circle

  /** Every colour component in [0, 1]. */
  predicate InGamut(c: Color)
  {
    0.0 <= c.r <= 1.0 && 0.0 <= c.g <= 1.0 && 0.0 <= c.b <= 1.0
  }

  /** `Color.lerpTo`: componentwise interpolation with t and the result clamped. */
  function ColorLerp(c: Color, other: Color, t: real): (r: Color)
    ensures InGamut(r)
  {
    var f := Clamped(t);
    Color(Clamped(c.r * (1.0 - f) + other.r * f),
          Clamped(c.g * (1.0 - f) + other.g * f),
          Clamped(c.b * (1.0 - f) + other.b * f))
  }

  /** Interpolation starts at c, ends at other, and from c to c stays at c. */
  lemma ColorLerpEnds(c: Color, other: Color, t: real)
    requires InGamut(c) && InGamut(other)
    ensures ColorLerp(c, other, 0.0) == c && ColorLerp(c, other, 1.0) == other
    ensures t <= 0.0 ==> ColorLerp(c, other, t) == c
    ensures t >= 1.0 ==> ColorLerp(c, other, t) == other
    ensures ColorLerp(c, c, t) == c
  {
    var f := Clamped(t);
    assert c.r * (1.0 - f) + c.r * f == c.r;
    assert c.g * (1.0 - f) + c.g * f == c.g;
    assert c.b * (1.0 - f) + c.b * f == c.b;
  }

  /** The operations interpolate as `Color.lerpTo` does. */
  ghost predicate ExactLerp(ops: ColorOps)
  {
    forall c, other, t :: ops.lerpTo(c, other, t) == ColorLerp(c, other, t)
  }

  /** `Color.lighten` and `Color.darken`: interpolate towards white or black. */
  function Lighten(c: Color, t: real, ops: ColorOps): Color { ops.lerpTo(c, White, t) }
  function Darken(c: Color, t: real, ops: ColorOps): Color { ops.lerpTo(c, Black, t) }

  /** `blend(list)`: the stop list with special cases for fewer than three colours. */
  function BlendList(colors: seq<Color>): (f: ColorFunc)
    ensures |colors| == 0 ==> f == Blend(Black, Black)
    ensures |colors| == 1 ==> f == Blend(colors[0], colors[0])
    ensures |colors| == 2 ==> f == Blend(colors[0], colors[1])
    ensures |colors| >= 3 ==> f == Stops(colors)
    ensures WellFormed(f)
  {
    if |colors| == 0 then Blend(Black, Black)
    else if |colors| == 1 then Blend(colors[0], colors[0])
    else if |colors| == 2 then Blend(colors[0], colors[1])
    else Stops(colors)
  }

  /** The functions the source can build: stop lists have three or more colours. */
  predicate WellFormed(f: ColorFunc)
  {
    match f
    case Blend(_, _) => true
    case Stops(colors) => |colors| >= 3
    case Reverse(inner) => WellFormed(inner)
    case MakeHue => true
  }

  /** The stop segment a value strictly between 0 and 1 falls in, and its
      position inside that segment: `(int) s` and `s % 1` for s = v * segments. */
  function Segment(v: real, count: int): (r: (int, real))
    requires 0.0 < v < 1.0 && count >= 2
    ensures 0 <= r.0 <= count - 2
    ensures 0.0 <= r.1 < 1.0
    ensures r.0 as real + r.1 == v * (count - 1) as real
  {
    var s := v * (count - 1) as real;
    assert s < (count - 1) as real by {
      assert (count - 1) as real - s == (1.0 - v) * (count - 1) as real;
    }
    (s.Floor, s - s.Floor as real)
  }

  /** `apply`. */
  function Apply(f: ColorFunc, v: real, ops: ColorOps): Color
    requires WellFormed(f)
  {
    match f
    case Blend(from, to) => ops.lerpTo(from, to, v)
    case Stops(colors) =>
      var count := |colors|;
      if v >= 1.0 then colors[count - 1]
      else if v <= 0.0 then colors[0]
      else
        var seg := Segment(v, count);
        ops.lerpTo(colors[seg.0], colors[seg.0 + 1], seg.1)
    case Reverse(inner) => Apply(inner, 1.0 - v, ops)
    case MakeHue => ops.makeHue(v)
  }

  /** `reverse(c)` reads c backwards, and reversing twice changes nothing. */
  lemma ReverseMirrors(f: ColorFunc, v: real, ops: ColorOps)
    requires WellFormed(f)
    ensures Apply(Reverse(f), v, ops) == Apply(f, 1.0 - v, ops)
    ensures Apply(Reverse(Reverse(f)), v, ops) == Apply(f, v, ops)
  {
  }

  /** The cases of `blend(list)`: no colours is constant black, one colour is
      constant, two colours interpolate between them. */
  lemma BlendListFewStops(colors: seq<Color>, v: real, ops: ColorOps)
    requires ExactLerp(ops)
    requires |colors| <= 2 && forall i | 0 <= i < |colors| :: InGamut(colors[i])
    ensures |colors| == 0 ==> Apply(BlendList(colors), v, ops) == Black
    ensures |colors| == 1 ==> Apply(BlendList(colors), v, ops) == colors[0]
    ensures |colors| == 2 ==> Apply(BlendList(colors), v, ops) == ColorLerp(colors[0], colors[1], v)
  {
    if |colors| == 0 {
      ColorLerpEnds(Black, Black, v);
    } else if |colors| == 1 {
      ColorLerpEnds(colors[0], colors[0], v);
    }
  }

  /** A stop list of n colours is the last colour from 1 on, the first colour
      up to 0, and passes through stop k at k / (n - 1). */
  lemma StopsPassThroughStops(colors: seq<Color>, k: int, v: real, ops: ColorOps)
    requires ExactLerp(ops)
    requires |colors| >= 3 && forall i | 0 <= i < |colors| :: InGamut(colors[i])
    requires 0 <= k < |colors|
    ensures v >= 1.0 ==> Apply(Stops(colors), v, ops) == colors[|colors| - 1]
    ensures v <= 0.0 ==> Apply(Stops(colors), v, ops) == colors[0]
    ensures Apply(Stops(colors), k as real / (|colors| - 1) as real, ops) == colors[k]
  {
    var n := (|colors| - 1) as real;
    var w := k as real / n;
    if 0 < k < |colors| - 1 {
      assert 0.0 < w < 1.0;
      var seg := Segment(w, |colors|);
      assert w * n == k as real;
      assert seg.0 == k && seg.1 == 0.0;
      ColorLerpEnds(colors[k], colors[k + 1], 0.0);
    }
  }
}
