/** `Grid<T>`: row-major storage of width * height cells with wrap-around
    (toroidal) neighbourhood lookup. The subclasses of the source become the
    modules ChangeGrids, CellGrids, FracGrids and ColorGrids, whose methods
    work on a `Grid` of the right element type. */
module Grids {
  import opened Basics

  /** `offset`: the storage index of a point, y * width + x. */
  function Offset(p: Point, width: int): int
  {
    p.y * width + p.x
  }

  predicate InBounds(p: Point, width: int, height: int)
  {
    0 <= p.x < width && 0 <= p.y < height
  }

  /** The point stored at index i. */
  function PointOf(i: int, width: int): Point
    requires width > 0
  {
    Point(i % width, i / width)
  }

  /** Java's `%`, which truncates toward zero (Dafny's `%` is Euclidean). */
  function JavaRem(a: int, m: int): int
    requires m > 0
  {
    if a >= 0 then a % m else -((-a) % m)
  }

  /** `circularIndex(index, modulus)`: (index + modulus) % modulus. */
  function CircularIndex(index: int, modulus: int): int
    requires modulus > 0
  {
    JavaRem(index + modulus, modulus)
  }

  /** One step off either edge wraps to the other edge; inside, the index is kept. */
  lemma CircularIndexWraps(i: int, m: int)
    requires m > 0 && -1 <= i <= m
    ensures CircularIndex(i, m) == if i < 0 then i + m else if i == m then 0 else i
    ensures 0 <= CircularIndex(i, m) < m
  {
    var a := i + m;
    if i < 0 {
      DivModUnique(a, 0, a, m);
    } else if i == m {
      DivModUnique(a, 2, 0, m);
    } else {
      DivModUnique(a, 1, i, m);
    }
  }

  /** Euclidean division has a unique quotient and remainder. */
  lemma DivModUnique(a: int, q: int, r: int, m: int)
    requires m > 0 && 0 <= r < m && a == q * m + r
    ensures a / m == q && a % m == r
  {
    var q', r' := a / m, a % m;
    assert a == q' * m + r';
    if q' > q {
      MulAtLeast(q' - q, m);
      assert false;
    } else if q' < q {
      MulAtLeast(q - q', m);
      assert false;
    }
  }

  lemma MulAtLeast(k: int, m: int)
    requires k >= 1 && m > 0
    ensures k * m >= m
  {
  }

  /** Points and storage indices correspond one to one. */
  lemma PointOfOffset(p: Point, width: int, height: int)
    requires width > 0 && InBounds(p, width, height)
    ensures 0 <= Offset(p, width) < width * height
    ensures PointOf(Offset(p, width), width) == p
  {
    DivModUnique(Offset(p, width), p.y, p.x, width);
    MulAtLeast(height - p.y, width);
    assert Offset(p, width) + (height - p.y) * width == width * height + p.x;
  }

  lemma OffsetOfPoint(i: int, width: int, height: int)
    requires width > 0 && 0 <= i < width * height
    ensures InBounds(PointOf(i, width), width, height)
    ensures Offset(PointOf(i, width), width) == i
  {
    var q := i / width;
    if q >= height {
      MulAtLeast(q - height + 1, width);
      assert false;
    }
  }

  /** `getPoints`: every point of a width x height grid, row by row. */
  function Points(width: nat, height: nat): seq<Point>
    requires width > 0
  {
    seq(width * height, i => PointOf(i, width))
  }

  /** The points stored at indices 0 .. n - 1. */
  function PointsUpTo(n: nat, width: int): (r: seq<Point>)
    requires width > 0
    ensures |r| == n
  {
    seq(n, i => PointOf(i, width))
  }

  lemma PointsUpToNext(n: nat, width: int)
    requires width > 0
    ensures PointsUpTo(n + 1, width) == PointsUpTo(n, width) + [PointOf(n, width)]
  {
  }

  /** `getPoints` lists width * height in-bounds points, row-major (point i sits
      at storage offset i), so it has no duplicates and misses no cell. */
  lemma PointsAreRowMajor(width: nat, height: nat)
    requires width > 0
    ensures |Points(width, height)| == width * height
    ensures forall i | 0 <= i < width * height ::
      InBounds(Points(width, height)[i], width, height) && Offset(Points(width, height)[i], width) == i
    ensures forall i, j | 0 <= i < j < width * height :: Points(width, height)[i] != Points(width, height)[j]
    ensures forall p | InBounds(p, width, height) :: p in Points(width, height)
  {
    forall i | 0 <= i < width * height
      ensures InBounds(PointOf(i, width), width, height) && Offset(PointOf(i, width), width) == i
    {
      OffsetOfPoint(i, width, height);
    }
    forall p | InBounds(p, width, height) ensures p in Points(width, height) {
      PointOfOffset(p, width, height);
      assert Points(width, height)[Offset(p, width)] == p;
    }
  }

  /** The offset of the k-th neighbourhood entry, k = 0..8, row-major over {-1,0,1}^2. */
  function NeighborOffset(k: int): Point
  {
    Point(k % 3 - 1, k / 3 - 1)
  }

  /** `getNeighborhood`: the nine offset/position pairs around p, positions wrapped. */
  function Neighborhood(p: Point, width: int, height: int): seq<PointPair>
    requires width > 0 && height > 0
  {
    seq(9, k => PointPair(NeighborOffset(k),
                          Point(CircularIndex(NeighborOffset(k).x + p.x, width),
                                CircularIndex(NeighborOffset(k).y + p.y, height))))
  }

  /** The neighbourhood of an in-bounds point has nine entries whose offsets run
      row-major over {-1,0,1}^2, whose positions are in bounds, and whose
      (0,0) entry, the fifth, is the point itself. */
  lemma NeighborhoodShape(p: Point, width: int, height: int)
    requires width > 0 && height > 0 && InBounds(p, width, height)
    ensures |Neighborhood(p, width, height)| == 9
    ensures forall k | 0 <= k < 9 ::
      var e := Neighborhood(p, width, height)[k];
      -1 <= e.o.x <= 1 && -1 <= e.o.y <= 1 && e.o == Point(k % 3 - 1, k / 3 - 1) &&
      InBounds(e.p, width, height)
    ensures forall k | 0 <= k < 9 :: Neighborhood(p, width, height)[k].o == Zero <==> k == 4
    ensures Neighborhood(p, width, height)[4].p == p
  {
    forall k | 0 <= k < 9
      ensures InBounds(Neighborhood(p, width, height)[k].p, width, height)
    {
      CircularIndexWraps(NeighborOffset(k).x + p.x, width);
      CircularIndexWraps(NeighborOffset(k).y + p.y, height);
    }
    CircularIndexWraps(p.x, width);
    CircularIndexWraps(p.y, height);
  }

  /** a is at most one step from b on a cycle of length m. */
  predicate Near(a: int, b: int, m: int)
    requires m > 0
  {
    a == CircularIndex(b - 1, m) || a == b || a == CircularIndex(b + 1, m)
  }

  /** q lies in the wrapped 3 x 3 Moore neighbourhood of p (p itself included). */
  predicate Adjacent(q: Point, p: Point, width: int, height: int)
    requires width > 0 && height > 0
  {
    Near(q.x, p.x, width) && Near(q.y, p.y, height)
  }

  lemma NearSymmetric(a: int, b: int, m: int)
    requires m > 0 && 0 <= a < m && 0 <= b < m
    ensures Near(a, b, m) <==> Near(b, a, m)
  {
    CircularIndexWraps(a - 1, m);
    CircularIndexWraps(a + 1, m);
    CircularIndexWraps(b - 1, m);
    CircularIndexWraps(b + 1, m);
  }

  /** On the torus, q is in p's neighbourhood exactly when p is in q's. */
  lemma AdjacentSymmetric(q: Point, p: Point, width: int, height: int)
    requires width > 0 && height > 0 && InBounds(q, width, height) && InBounds(p, width, height)
    ensures Adjacent(q, p, width, height) <==> Adjacent(p, q, width, height)
  {
    NearSymmetric(q.x, p.x, width);
    NearSymmetric(q.y, p.y, height);
  }

  /** The positions `getNeighborhood(p)` lists are exactly the in-bounds points adjacent to p. */
  lemma NeighborhoodIsAdjacency(p: Point, width: int, height: int)
    requires width > 0 && height > 0 && InBounds(p, width, height)
    ensures forall k | 0 <= k < 9 :: Adjacent(Neighborhood(p, width, height)[k].p, p, width, height)
    ensures forall q | InBounds(q, width, height) && Adjacent(q, p, width, height) ::
      exists k | 0 <= k < 9 :: Neighborhood(p, width, height)[k].p == q
  {
    var nb := Neighborhood(p, width, height);
    forall k | 0 <= k < 9 ensures Adjacent(nb[k].p, p, width, height) {
      NeighborIsAdjacent(p, width, height, k);
    }
    forall q | InBounds(q, width, height) && Adjacent(q, p, width, height)
      ensures exists k | 0 <= k < 9 :: nb[k].p == q
    {
      var k := AdjacentIsNeighbor(p, width, height, q);
      assert nb[k].p == q;
    }
  }

  /** Entry k of the neighbourhood is adjacent to p. */
  lemma NeighborIsAdjacent(p: Point, width: int, height: int, k: int)
    requires width > 0 && height > 0 && InBounds(p, width, height) && 0 <= k < 9
    ensures Adjacent(Neighborhood(p, width, height)[k].p, p, width, height)
  {
    var o := NeighborOffset(k);
    assert -1 <= o.x <= 1 && -1 <= o.y <= 1;
    CircularIndexWraps(p.x - 1, width);
    CircularIndexWraps(p.x + 1, width);
    CircularIndexWraps(o.x + p.x, width);
    CircularIndexWraps(p.y - 1, height);
    CircularIndexWraps(p.y + 1, height);
    CircularIndexWraps(o.y + p.y, height);
  }

  /** An in-bounds point adjacent to p is entry k of p's neighbourhood, for the
      k whose offset is the step from p to it. */
  lemma AdjacentIsNeighbor(p: Point, width: int, height: int, q: Point) returns (k: int)
    requires width > 0 && height > 0 && InBounds(p, width, height)
    requires InBounds(q, width, height) && Adjacent(q, p, width, height)
    ensures 0 <= k < 9 && Neighborhood(p, width, height)[k].p == q
  {
    var dx := NearStep(q.x, p.x, width);
    var dy := NearStep(q.y, p.y, height);
    k := 3 * (dy + 1) + dx + 1;
    NeighborOffsetIndex(dx, dy);
  }

  /** A coordinate near b is b stepped by -1, 0 or 1 around the cycle. */
  lemma NearStep(a: int, b: int, m: int) returns (d: int)
    requires m > 0 && 0 <= a < m && 0 <= b < m && Near(a, b, m)
    ensures -1 <= d <= 1 && CircularIndex(d + b, m) == a
  {
    CircularIndexWraps(b - 1, m);
    CircularIndexWraps(b, m);
    CircularIndexWraps(b + 1, m);
    d := if a == b then 0 else if a == CircularIndex(b - 1, m) then -1 else 1;
  }

  /** Offset (dx, dy) sits at index 3 (dy + 1) + dx + 1 of the neighbourhood. */
  lemma NeighborOffsetIndex(dx: int, dy: int)
    requires -1 <= dx <= 1 && -1 <= dy <= 1
    ensures NeighborOffset(3 * (dy + 1) + dx + 1) == Point(dx, dy)
  {
  }

  /** A grid of cells of type T. `storage` holds the cells row by row. */
  class Grid<T> {
    const width: nat
    const height: nat
    const capacity: nat
    const maxX: int
    const maxY: int
    var storage: seq<T>

    ghost predicate Valid()
      reads this
    {
      capacity == width * height && maxX == width - 1 && maxY == height - 1 &&
      |storage| == capacity
    }

    /** Every cell starts as the element type's default value. */
    constructor (width: nat, height: nat, default: T)
      ensures Valid() && this.width == width && this.height == height
      ensures storage == seq(width * height, _ => default)
    {
      this.width := width;
      this.height := height;
      capacity := width * height;
      maxX := width - 1;
      maxY := height - 1;
      var cells: seq<T> := [];
      for i := 0 to width * height
        invariant cells == seq(i, _ => default)
      {
        cells := cells + [default];
      }
      storage := cells;
    }

    /** `setAll`: every cell becomes v. */
    method SetAll(v: T)
      requires Valid()
      modifies this
      ensures Valid() && storage == seq(capacity, _ => v)
    {
      for i := 0 to capacity
        invariant Valid()
        invariant forall j | 0 <= j < i :: storage[j] == v
      {
        storage := storage[i := v];
      }
    }

    /** `setValue`: writes the cell at p's offset and no other. */
    method SetValue(v: T, p: Point)
      requires Valid() && 0 <= Offset(p, width) < capacity
      modifies this
      ensures Valid() && storage == old(storage)[Offset(p, width) := v]
    {
      var offset := Offset(p, width);
      storage := storage[offset := v];
    }

    /** `getValue`: the cell at p's offset. */
    function GetValue(p: Point): T
      reads this
      requires Valid() && 0 <= Offset(p, width) < capacity
    {
      storage[Offset(p, width)]
    }

    /** `getPoints`, built row by row as the source's nested loops do. */
    method GetPoints() returns (points: seq<Point>)
      requires Valid() && width > 0
      ensures points == Points(width, height)
    {
      points := [];
      for y := 0 to height
        invariant points == PointsUpTo(y * width, width)
      {
        for x := 0 to width
          invariant points == PointsUpTo(y * width + x, width)
        {
          DivModUnique(y * width + x, y, x, width);
          PointsUpToNext(y * width + x, width);
          points := points + [Point(x, y)];
        }
        assert y * width + width == (y + 1) * width;
      }
    }

    /** `getNeighborhood`, built by the source's nested loops over oy and ox. */
    method GetNeighborhood(p: Point) returns (pairs: seq<PointPair>)
      requires Valid() && width > 0 && height > 0
      ensures pairs == Neighborhood(p, width, height)
    {
      pairs := [];
      for oy := -1 to 2
        invariant pairs == Neighborhood(p, width, height)[..3 * (oy + 1)]
      {
        for ox := -1 to 2
          invariant pairs == Neighborhood(p, width, height)[..3 * (oy + 1) + ox + 1]
        {
          var o := Point(ox, oy);
          assert o == NeighborOffset(3 * (oy + 1) + ox + 1);
          var px := CircularIndex(ox + p.x, width);
          var py := CircularIndex(oy + p.y, height);
          pairs := pairs + [PointPair(o, Point(px, py))];
        }
      }
    }

    /** `colors`: three components per cell, in storage order. */
    method Colors(colorForValue: T -> Color) returns (result: seq<real>)
      requires Valid()
      ensures |result| == 3 * |storage|
      ensures forall i | 0 <= i < |storage| ::
        var c := colorForValue(storage[i]);
        result[3 * i] == c.r && result[3 * i + 1] == c.g && result[3 * i + 2] == c.b
    {
      result := [];
      for idx := 0 to |storage|
        invariant |result| == 3 * idx
        invariant forall i | 0 <= i < idx ::
          var c := colorForValue(storage[i]);
          result[3 * i] == c.r && result[3 * i + 1] == c.g && result[3 * i + 2] == c.b
      {
        var color := colorForValue(storage[idx]);
        result := result + [color.r, color.g, color.b];
      }
    }
  }
}
