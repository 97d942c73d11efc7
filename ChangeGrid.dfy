/** `ChangeGrid`: a grid of flags saying which cells must be recomputed in the
    next generation. New change grids are all false. */
module ChangeGrids {
  import opened Basics
  import opened Grids

  /** The flags after marking p: p's nine wrapped neighbourhood cells are set. */
  function Marked(flags: seq<bool>, p: Point, width: int, height: int): seq<bool>
    requires width > 0 && height > 0
  {
    seq(|flags|, i requires 0 <= i < |flags| => flags[i] || Adjacent(PointOf(i, width), p, width, height))
  }

  /** A fresh change grid: every flag false (`getDefault`). */
  method NewChangeGrid(width: nat, height: nat) returns (g: Grid<bool>)
    ensures fresh(g) && g.Valid() && g.width == width && g.height == height
    ensures forall i | 0 <= i < |g.storage| :: !g.storage[i]
  {
    g := new Grid(width, height, false);
  }

  /** `setChanged(p)`: sets to true exactly the cells of p's wrapped Moore
      neighbourhood, p included, and leaves every other flag as it was. */
  method SetChanged(g: Grid<bool>, p: Point)
    requires g.Valid() && g.width > 0 && g.height > 0 && InBounds(p, g.width, g.height)
    modifies g
    ensures g.Valid() && g.storage == Marked(old(g.storage), p, g.width, g.height)
  {
    var pairs := g.GetNeighborhood(p);
    NeighborhoodShape(p, g.width, g.height);
    NeighborhoodIsAdjacency(p, g.width, g.height);
    ghost var before := g.storage;
    for k := 0 to |pairs|
      invariant g.Valid() && |g.storage| == |before|
      invariant forall i | 0 <= i < |before| ::
        g.storage[i] == (before[i] || exists d | 0 <= d < k :: Offset(pairs[d].p, g.width) == i)
    {
      PointOfOffset(pairs[k].p, g.width, g.height);
      g.SetValue(true, pairs[k].p);
    }
    forall i | 0 <= i < |before|
      ensures (exists d | 0 <= d < 9 :: Offset(pairs[d].p, g.width) == i) <==>
              Adjacent(PointOf(i, g.width), p, g.width, g.height)
    {
      OffsetOfPoint(i, g.width, g.height);
      if exists d | 0 <= d < 9 :: Offset(pairs[d].p, g.width) == i {
        var d :| 0 <= d < 9 && Offset(pairs[d].p, g.width) == i;
        PointOfOffset(pairs[d].p, g.width, g.height);
      }
      if Adjacent(PointOf(i, g.width), p, g.width, g.height) {
        var d :| 0 <= d < 9 && pairs[d].p == PointOf(i, g.width);
        assert Offset(pairs[d].p, g.width) == i;
      }
    }
  }

  /** Marking never clears a flag, and marking the same point twice is the same
      as marking it once. */
  lemma MarkedMonotoneIdempotent(flags: seq<bool>, p: Point, width: int, height: int)
    requires width > 0 && height > 0
    ensures forall i | 0 <= i < |flags| :: flags[i] ==> Marked(flags, p, width, height)[i]
    ensures Marked(Marked(flags, p, width, height), p, width, height) == Marked(flags, p, width, height)
  {
  }
}
