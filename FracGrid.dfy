/** `FracGrid`: for every cell, the weight of the last overlaid frame in which
    that cell was alive. Values are reals; new grids hold 0. */
module FracGrids {
  import opened Basics
  import opened Grids

  /** A fresh frac grid: every value 0 (`getDefault`). */
  method NewFracGrid(width: nat, height: nat) returns (g: Grid<real>)
    ensures fresh(g) && g.Valid() && g.width == width && g.height == height
    ensures forall i | 0 <= i < |g.storage| :: g.storage[i] == 0.0
  {
    g := new Grid(width, height, 0.0);
  }

  /** The values after one overlay: live cells take `frac`, the others keep theirs. */
  function Overlaid(values: seq<real>, cells: seq<bool>, frac: real): (r: seq<real>)
    requires |cells| == |values|
    ensures |r| == |values|
  {
    seq(|values|, i requires 0 <= i < |values| => if cells[i] then frac else values[i])
  }

  /** `overlay`: every live cell of the board gets `frac`; nothing else changes. */
  method Overlay(g: Grid<real>, cells: Grid<bool>, frac: real)
    requires g.Valid() && cells.Valid() && g.width > 0
    requires cells.width == g.width && cells.height == g.height
    modifies g
    ensures g.Valid() && g.storage == Overlaid(old(g.storage), cells.storage, frac)
  {
    ghost var before := g.storage;
    var points := g.GetPoints();
    PointsAreRowMajor(g.width, g.height);
    for i := 0 to |points|
      invariant g.Valid()
      invariant forall j | 0 <= j < |before| :: g.storage[j] == if j < i && cells.storage[j] then frac else before[j]
    {
      if cells.GetValue(points[i]) {
        g.SetValue(frac, points[i]);
      }
    }
  }

  /** The values after overlaying `frames` in order, frame t with `weights[t]`. */
  function OverlayFrames(values: seq<real>, frames: seq<seq<bool>>, weights: seq<real>): (r: seq<real>)
    requires |weights| == |frames|
    requires forall t | 0 <= t < |frames| :: |frames[t]| == |values|
    ensures |r| == |values|
  {
    if |frames| == 0 then values
    else Overlaid(OverlayFrames(values, frames[..|frames| - 1], weights[..|weights| - 1]),
                  frames[|frames| - 1], weights[|weights| - 1])
  }

  /** Last alive frame wins: after all overlays a cell holds the weight of the
      last frame in which it was alive, and keeps its value if it never was. */
  lemma {:induction false} OverlayFramesLastAlive(values: seq<real>, frames: seq<seq<bool>>, weights: seq<real>, i: int)
    requires |weights| == |frames|
    requires forall t | 0 <= t < |frames| :: |frames[t]| == |values|
    requires 0 <= i < |values|
    ensures (forall t | 0 <= t < |frames| :: !frames[t][i]) ==> OverlayFrames(values, frames, weights)[i] == values[i]
    ensures forall t | 0 <= t < |frames| && frames[t][i] && (forall u | t < u < |frames| :: !frames[u][i]) ::
      OverlayFrames(values, frames, weights)[i] == weights[t]
  {
    if |frames| > 0 {
      var n := |frames| - 1;
      OverlayFramesLastAlive(values, frames[..n], weights[..n], i);
      assert forall t | 0 <= t < n :: frames[..n][t] == frames[t];
    }
  }

  /** With weights and starting values in [0, 1], every value stays in [0, 1]. */
  lemma {:induction false} OverlayFramesBounded(values: seq<real>, frames: seq<seq<bool>>, weights: seq<real>)
    requires |weights| == |frames|
    requires forall t | 0 <= t < |frames| :: |frames[t]| == |values|
    requires forall j | 0 <= j < |values| :: 0.0 <= values[j] <= 1.0
    requires forall t | 0 <= t < |weights| :: 0.0 <= weights[t] <= 1.0
    ensures forall j | 0 <= j < |values| :: 0.0 <= OverlayFrames(values, frames, weights)[j] <= 1.0
  {
    if |frames| > 0 {
      var n := |frames| - 1;
      OverlayFramesBounded(values, frames[..n], weights[..n]);
    }
  }
}
