/** `ColorGrid`: the final image. Every frac value becomes a colour through the
    gradient, and that colour is drawn at the cell's images under the
    pattern's symmetries: four mirror images for the snowflake, four quarter
    turns for the pinwheel, the cell itself for the fiducial pattern. */
module ColorGrids {
  import opened Basics
  import opened Grids
  import opened Patterns
  import opened ColorFuncs

  /** A symmetry: optionally swap x and y, then mirror x, then mirror y. */
  datatype Transform = Transform(transpose: bool, reflectX: bool, reflectY: bool)

  const SnowflakeTransforms: seq<Transform> := [
    Transform(false, false, false),
    Transform(false, true, false),
    Transform(false, false, true),
    Transform(false, true, true)
  ]

  const PinwheelTransforms: seq<Transform> := [
    Transform(false, false, false),
    Transform(true, true, false),
    Transform(true, false, true),
    Transform(false, true, true)
  ]

  const FiducialTransforms: seq<Transform> := [Transform(false, false, false)]

  /** `transformsMap`: every pattern has an entry, so the empty default of
      `getOrDefault` is never taken. */
  function Transforms(pattern: Pattern): seq<Transform>
  {
    match pattern
    case Snowflake => SnowflakeTransforms
    case Pinwheel => PinwheelTransforms
    case Fiducial => FiducialTransforms
  }

  /** The factor `targetSize` applies to each side. */
  function Multiplier(pattern: Pattern): nat
  {
    if pattern == Pattern.Fiducial then 1 else 2
  }

  /** `transformPoint`: transpose first, then mirror x about maxX, then mirror
      y about maxY (maxX and maxY are those of the image grid). */
  function TransformPoint(p: Point, t: Transform, maxX: int, maxY: int): Point
  {
    var x := if t.transpose then p.y else p.x;
    var y := if t.transpose then p.x else p.y;
    Point(if t.reflectX then maxX - x else x, if t.reflectY then maxY - y else y)
  }

  /** A quarter turn about the centre of a side x side square. */
  function QuarterTurn(p: Point, side: int): Point
  {
    Point(side - 1 - p.y, p.x)
  }

  /** The mirror images about the vertical and the horizontal centre line. */
  function MirrorX(p: Point, side: int): Point { Point(side - 1 - p.x, p.y) }
  function MirrorY(p: Point, side: int): Point { Point(p.x, side - 1 - p.y) }

  /** The snowflake draws a point and its three mirror images. */
  lemma SnowflakeMirrors(p: Point, side: int)
    ensures TransformPoint(p, SnowflakeTransforms[0], side - 1, side - 1) == p
    ensures TransformPoint(p, SnowflakeTransforms[1], side - 1, side - 1) == MirrorX(p, side)
    ensures TransformPoint(p, SnowflakeTransforms[2], side - 1, side - 1) == MirrorY(p, side)
    ensures TransformPoint(p, SnowflakeTransforms[3], side - 1, side - 1) == MirrorX(MirrorY(p, side), side)
  {
  }

  /** The pinwheel draws a point turned by zero, one, three and two quarter
      turns, and four quarter turns bring a point back. */
  lemma PinwheelTurns(p: Point, side: int)
    ensures TransformPoint(p, PinwheelTransforms[0], side - 1, side - 1) == p
    ensures TransformPoint(p, PinwheelTransforms[1], side - 1, side - 1) == QuarterTurn(p, side)
    ensures TransformPoint(p, PinwheelTransforms[2], side - 1, side - 1) ==
      QuarterTurn(QuarterTurn(QuarterTurn(p, side), side), side)
    ensures TransformPoint(p, PinwheelTransforms[3], side - 1, side - 1) == QuarterTurn(QuarterTurn(p, side), side)
    ensures QuarterTurn(QuarterTurn(QuarterTurn(QuarterTurn(p, side), side), side), side) == p
  {
  }

  /** The source cell and the transform that put a colour at image point q
      of an image built from an n x n frac grid. */
  function Preimage(q: Point, n: nat, pattern: Pattern): (Point, nat)
  {
    var side := Multiplier(pattern) * n;
    match pattern
    case Fiducial => (q, 0)
    case Snowflake =>
      var rx, ry := q.x >= n, q.y >= n;
      (Point(if rx then side - 1 - q.x else q.x, if ry then side - 1 - q.y else q.y),
       (if rx then 1 else 0) + (if ry then 2 else 0))
    case Pinwheel =>
      if q.x < n && q.y < n then (q, 0)
      else if q.y < n then (Point(q.y, side - 1 - q.x), 1)
      else if q.x < n then (Point(side - 1 - q.y, q.x), 2)
      else (Point(side - 1 - q.x, side - 1 - q.y), 3)
  }

  /** Every image point is drawn by some source cell under some transform. */
  lemma PreimageDraws(q: Point, n: nat, pattern: Pattern)
    requires InBounds(q, Multiplier(pattern) * n, Multiplier(pattern) * n)
    ensures var (p, k) := Preimage(q, n, pattern);
      InBounds(p, n, n) && k < |Transforms(pattern)| &&
      TransformPoint(p, Transforms(pattern)[k], Multiplier(pattern) * n - 1, Multiplier(pattern) * n - 1) == q
  {
  }

  /** Every source cell under every transform lands inside the image, in the
      transform's own quadrant (for the four-fold patterns), and nothing else
      lands there: the preimage of the drawn point is that cell and that
      transform. */
  lemma ImageOfCell(p: Point, k: nat, n: nat, pattern: Pattern)
    requires InBounds(p, n, n) && k < |Transforms(pattern)|
    ensures var side := Multiplier(pattern) * n;
      var q := TransformPoint(p, Transforms(pattern)[k], side - 1, side - 1);
      InBounds(q, side, side) && Preimage(q, n, pattern) == (p, k) &&
      (pattern != Pattern.Fiducial ==> (q.x >= n <==> k % 2 == 1) && (q.y >= n <==> k >= 2))
  {
  }

  /** The storage offsets `draw` writes for the cell p. */
  function ImageOffsets(p: Point, transforms: seq<Transform>, maxX: int, maxY: int, width: int): (r: seq<int>)
    ensures |r| == |transforms|
  {
    seq(|transforms|, k requires 0 <= k < |transforms| => Offset(TransformPoint(p, transforms[k], maxX, maxY), width))
  }

  /** An image offset is written for cell p exactly when p is its preimage. */
  lemma {:induction false} ImageOffsetsOfCell(p: Point, n: nat, pattern: Pattern, j: int)
    requires n > 0 && InBounds(p, n, n)
    requires 0 <= j < (Multiplier(pattern) * n) * (Multiplier(pattern) * n)
    ensures var side := Multiplier(pattern) * n;
      j in ImageOffsets(p, Transforms(pattern), side - 1, side - 1, side) <==>
      Preimage(PointOf(j, side), n, pattern).0 == p
  {
    var side := Multiplier(pattern) * n;
    var ts := Transforms(pattern);
    var offsets := ImageOffsets(p, ts, side - 1, side - 1, side);
    OffsetOfPoint(j, side, side);
    var q := PointOf(j, side);
    if j in offsets {
      var k :| 0 <= k < |offsets| && offsets[k] == j;
      var image := TransformPoint(p, ts[k], side - 1, side - 1);
      ImageOfCell(p, k, n, pattern);
      PointOfOffset(image, side, side);
      assert q == image;
    }
    if Preimage(q, n, pattern).0 == p {
      PreimageDraws(q, n, pattern);
      var k := Preimage(q, n, pattern).1;
      assert offsets[k] == j;
    }
  }

  /** The index of the frac cell whose colour image cell j shows. Every image
      cell shows a frac cell; for the fiducial pattern, its own. */
  function SourceIndex(j: int, n: nat, pattern: Pattern): (r: int)
    requires n > 0 && 0 <= j < (Multiplier(pattern) * n) * (Multiplier(pattern) * n)
    ensures 0 <= r < n * n
    ensures pattern == Pattern.Fiducial ==> r == j
  {
    var side := Multiplier(pattern) * n;
    OffsetOfPoint(j, side, side);
    PreimageDraws(PointOf(j, side), n, pattern);
    PointOfOffset(Preimage(PointOf(j, side), n, pattern).0, n, n);
    Offset(Preimage(PointOf(j, side), n, pattern).0, n)
  }

  /** The number of writes equals the number of image cells: n * n cells times
      the number of transforms is the image's area. */
  lemma WritesFillImage(n: nat, pattern: Pattern)
    ensures |Transforms(pattern)| * (n * n) == (Multiplier(pattern) * n) * (Multiplier(pattern) * n)
  {
  }

  /** `draw`: the colour goes to every transformed point and nowhere else. */
  method Draw(g: Grid<Color>, p: Point, color: Color, transforms: seq<Transform>)
    requires g.Valid()
    requires forall k | 0 <= k < |transforms| :: InBounds(TransformPoint(p, transforms[k], g.maxX, g.maxY), g.width, g.height)
    modifies g
    ensures g.Valid()
    ensures forall j | 0 <= j < |g.storage| ::
      g.storage[j] == if j in ImageOffsets(p, transforms, g.maxX, g.maxY, g.width) then color else old(g.storage)[j]
  {
    ghost var offsets := ImageOffsets(p, transforms, g.maxX, g.maxY, g.width);
    for k := 0 to |transforms|
      invariant g.Valid()
      invariant forall j | 0 <= j < |g.storage| :: g.storage[j] == if j in offsets[..k] then color else old(g.storage)[j]
    {
      var p2 := TransformPoint(p, transforms[k], g.maxX, g.maxY);
      PointOfOffsetBound(p2, g.width, g.height);
      g.SetValue(color, p2);
      assert offsets[..k + 1] == offsets[..k] + [Offset(p2, g.width)];
    }
    assert offsets[..|transforms|] == offsets;
  }

  /** An in-bounds point has an offset inside the storage. */
  lemma PointOfOffsetBound(p: Point, width: int, height: int)
    requires InBounds(p, width, height)
    ensures 0 <= Offset(p, width) < width * height
  {
    PointOfOffset(p, width, height);
  }

  /** The `ColorGrid` constructor: a black image of the target size, then for
      each frac cell in row-major order its colour drawn under the pattern.
      Image cell j ends up with the gradient applied to the frac value of its
      preimage cell. The frac grid is square, as every LifeHash grid is. */
  method NewColorGrid(frac: Grid<real>, gradient: ColorFunc, pattern: Pattern, ops: ColorOps) returns (g: Grid<Color>)
    requires frac.Valid() && frac.width == frac.height && frac.width > 0
    requires WellFormed(gradient)
    ensures fresh(g) && g.Valid()
    ensures g.width == Multiplier(pattern) * frac.width && g.height == Multiplier(pattern) * frac.height
    ensures forall j | 0 <= j < |g.storage| ::
      g.storage[j] == Apply(gradient, frac.storage[SourceIndex(j, frac.width, pattern)], ops)
  {
    var n := frac.width;
    var side := Multiplier(pattern) * n;
    g := new Grid(side, side, Black);
    var transforms := Transforms(pattern);
    var points := frac.GetPoints();
    PointsAreRowMajor(n, n);
    for i := 0 to |points|
      invariant g.Valid() && g.width == side && g.height == side
      invariant forall j | 0 <= j < |g.storage| ::
        SourceIndex(j, n, pattern) < i ==> g.storage[j] == Apply(gradient, frac.storage[SourceIndex(j, n, pattern)], ops)
      invariant forall j | 0 <= j < |g.storage| :: SourceIndex(j, n, pattern) >= i ==> g.storage[j] == Black
    {
      var point := points[i];
      var value := frac.GetValue(point);
      var someColor := Apply(gradient, value, ops);
      forall k | 0 <= k < |transforms|
        ensures InBounds(TransformPoint(point, transforms[k], g.maxX, g.maxY), g.width, g.height)
      {
        ImageOfCell(point, k, n, pattern);
      }
      DrawCell(g, point, i, someColor, n, pattern);
    }
  }

  /** One step of the constructor loop: drawing cell i's colour writes exactly
      the image cells whose source index is i. */
  method DrawCell(g: Grid<Color>, point: Point, i: int, color: Color, n: nat, pattern: Pattern)
    requires g.Valid() && n > 0 && g.width == Multiplier(pattern) * n && g.height == g.width
    requires 0 <= i < n * n && point == PointOf(i, n)
    requires forall k | 0 <= k < |Transforms(pattern)| ::
      InBounds(TransformPoint(point, Transforms(pattern)[k], g.maxX, g.maxY), g.width, g.height)
    modifies g
    ensures g.Valid()
    ensures forall j | 0 <= j < |g.storage| ::
      g.storage[j] == if SourceIndex(j, n, pattern) == i then color else old(g.storage)[j]
  {
    Draw(g, point, color, Transforms(pattern));
    forall j | 0 <= j < |g.storage|
      ensures j in ImageOffsets(point, Transforms(pattern), g.maxX, g.maxY, g.width) <==> SourceIndex(j, n, pattern) == i
    {
      ImageOffsetsOfIndex(i, n, pattern, j);
    }
  }

  /** The offsets drawn for frac cell i are the image cells whose source index is i. */
  lemma ImageOffsetsOfIndex(i: int, n: nat, pattern: Pattern, j: int)
    requires n > 0 && 0 <= i < n * n
    requires 0 <= j < (Multiplier(pattern) * n) * (Multiplier(pattern) * n)
    ensures var side := Multiplier(pattern) * n;
      j in ImageOffsets(PointOf(i, n), Transforms(pattern), side - 1, side - 1, side) <==>
      SourceIndex(j, n, pattern) == i
  {
    var side := Multiplier(pattern) * n;
    OffsetOfPoint(i, n, n);
    ImageOffsetsOfCell(PointOf(i, n), n, pattern, j);
    OffsetOfPoint(j, side, side);
    PreimageDraws(PointOf(j, side), n, pattern);
    PointOfOffset(Preimage(PointOf(j, side), n, pattern).0, n, n);
  }
}
