/** `CellGrid`: the Game of Life board, updated incrementally. Only the cells
    a change grid flags are recomputed; every cell that flips flags its own
    neighbourhood for the following generation. */
module CellGrids {
  import opened Basics
  import opened Grids
  import opened BitStream
  import opened ChangeGrids

  /** `isAliveInNextGeneration`: Conway's rule B3/S23. */
  function Rule(alive: bool, neighbors: int): (r: bool)
  {
    if alive then neighbors == 2 || neighbors == 3 else neighbors == 3
  }

  /** A dead cell is born with exactly three live neighbours; a live cell
      survives with two or three; every other cell is dead next time. */
  lemma RuleIsB3S23(alive: bool, neighbors: int)
    ensures Rule(alive, neighbors) <==> neighbors == 3 || (alive && neighbors == 2)
    ensures !alive && Rule(alive, neighbors) ==> neighbors == 3
    ensures alive && !Rule(alive, neighbors) ==> neighbors < 2 || neighbors > 3
  {
  }

  /** The live cells among the first k neighbourhood entries, the entry with
      offset (0,0) skipped. */
  function NeighborCount(cells: seq<bool>, pairs: seq<PointPair>, width: int, k: nat): (n: nat)
    requires k <= |pairs|
    requires forall j | 0 <= j < |pairs| :: 0 <= Offset(pairs[j].p, width) < |cells|
    ensures n <= k
  {
    if k == 0 then 0
    else
      NeighborCount(cells, pairs, width, k - 1) +
      (if pairs[k - 1].o != Zero && cells[Offset(pairs[k - 1].p, width)] then 1 else 0)
  }

  /** Every neighbourhood position of an in-bounds point has a storage offset. */
  lemma NeighborhoodOffsets(p: Point, width: int, height: int)
    requires width > 0 && height > 0 && InBounds(p, width, height)
    ensures forall k | 0 <= k < 9 :: 0 <= Offset(Neighborhood(p, width, height)[k].p, width) < width * height
  {
    NeighborhoodShape(p, width, height);
    forall k | 0 <= k < 9
      ensures 0 <= Offset(Neighborhood(p, width, height)[k].p, width) < width * height
    {
      PointOfOffset(Neighborhood(p, width, height)[k].p, width, height);
    }
  }

  /** The live neighbours of p, as `countNeighbors` counts them. */
  function LiveNeighbors(cells: seq<bool>, width: int, height: int, p: Point): nat
    requires width > 0 && height > 0 && |cells| == width * height && InBounds(p, width, height)
  {
    NeighborhoodOffsets(p, width, height);
    NeighborCount(cells, Neighborhood(p, width, height), width, 9)
  }

  /** A cell has at most eight live neighbours: the (0,0) entry is never counted. */
  lemma {:induction false} NeighborCountSkipsCentre(cells: seq<bool>, pairs: seq<PointPair>, width: int, k: nat)
    requires k <= |pairs| == 9 && pairs[4].o == Zero
    requires forall j | 0 <= j < |pairs| :: 0 <= Offset(pairs[j].p, width) < |cells|
    ensures NeighborCount(cells, pairs, width, k) <= if k > 4 then k - 1 else k
  {
    if k > 0 {
      NeighborCountSkipsCentre(cells, pairs, width, k - 1);
    }
  }

  lemma LiveNeighborsAtMostEight(cells: seq<bool>, width: int, height: int, p: Point)
    requires width > 0 && height > 0 && |cells| == width * height && InBounds(p, width, height)
    ensures LiveNeighbors(cells, width, height, p) <= 8
  {
    NeighborhoodOffsets(p, width, height);
    NeighborhoodShape(p, width, height);
    NeighborCountSkipsCentre(cells, Neighborhood(p, width, height), width, 9);
  }

  lemma {:induction false} NeighborCountAgree(a: seq<bool>, b: seq<bool>, pairs: seq<PointPair>, width: int, k: nat)
    requires k <= |pairs| && |a| == |b|
    requires forall j | 0 <= j < |pairs| :: 0 <= Offset(pairs[j].p, width) < |a|
    requires forall j | 0 <= j < |pairs| :: a[Offset(pairs[j].p, width)] == b[Offset(pairs[j].p, width)]
    ensures NeighborCount(a, pairs, width, k) == NeighborCount(b, pairs, width, k)
  {
    if k > 0 {
      NeighborCountAgree(a, b, pairs, width, k - 1);
    }
  }

  /** The count only looks at cells adjacent to p: boards that agree there
      give p the same number of live neighbours. */
  lemma LiveNeighborsLocal(a: seq<bool>, b: seq<bool>, width: int, height: int, p: Point)
    requires width > 0 && height > 0 && |a| == width * height && |b| == width * height
    requires InBounds(p, width, height)
    requires forall i | 0 <= i < |a| && Adjacent(PointOf(i, width), p, width, height) :: a[i] == b[i]
    ensures LiveNeighbors(a, width, height, p) == LiveNeighbors(b, width, height, p)
  {
    var pairs := Neighborhood(p, width, height);
    NeighborhoodOffsets(p, width, height);
    NeighborhoodShape(p, width, height);
    NeighborhoodIsAdjacency(p, width, height);
    forall j | 0 <= j < |pairs|
      ensures a[Offset(pairs[j].p, width)] == b[Offset(pairs[j].p, width)]
    {
      PointOfOffset(pairs[j].p, width, height);
    }
    NeighborCountAgree(a, b, pairs, width, 9);
  }

  /** `countNeighbors`: the loop over the neighbourhood, skipping (0,0). */
  method CountNeighbors(g: Grid<bool>, p: Point) returns (total: int)
    requires g.Valid() && g.width > 0 && g.height > 0 && InBounds(p, g.width, g.height)
    ensures total == LiveNeighbors(g.storage, g.width, g.height, p)
    ensures 0 <= total <= 8
  {
    var pairs := g.GetNeighborhood(p);
    NeighborhoodOffsets(p, g.width, g.height);
    total := 0;
    for k := 0 to |pairs|
      invariant total == NeighborCount(g.storage, pairs, g.width, k)
    {
      if pairs[k].o == Zero {
        continue;
      }
      if g.GetValue(pairs[k].p) {
        total := total + 1;
      }
    }
    LiveNeighborsAtMostEight(g.storage, g.width, g.height, p);
  }

  /** The rule applied to the cell at storage index i. */
  function CellStep(cells: seq<bool>, width: int, height: int, i: int): bool
    requires width > 0 && height > 0 && |cells| == width * height && 0 <= i < |cells|
  {
    OffsetOfPoint(i, width, height);
    Rule(cells[i], LiveNeighbors(cells, width, height, PointOf(i, width)))
  }

  /** One full generation of Life on the torus: every cell recomputed. */
  function LifeStep(cells: seq<bool>, width: int, height: int): (r: seq<bool>)
    requires width > 0 && height > 0 && |cells| == width * height
    ensures |r| == |cells|
  {
    seq(|cells|, i requires 0 <= i < |cells| => CellStep(cells, width, height, i))
  }

  /** `n` generations of Life. */
  function Life(cells: seq<bool>, width: int, height: int, n: nat): (r: seq<bool>)
    requires width > 0 && height > 0 && |cells| == width * height
    ensures |r| == |cells|
  {
    if n == 0 then cells else LifeStep(Life(cells, width, height, n - 1), width, height)
  }

  /** The board `nextGeneration` writes: flagged cells take the rule's value,
      the others are copied. */
  function NextCells(cells: seq<bool>, change: seq<bool>, width: int, height: int): (r: seq<bool>)
    requires width > 0 && height > 0 && |cells| == width * height && |change| == |cells|
    ensures |r| == |cells|
  {
    seq(|cells|, i requires 0 <= i < |cells| => if change[i] then CellStep(cells, width, height, i) else cells[i])
  }

  /** Cell j is recomputed and its state changes. */
  predicate Flipped(cells: seq<bool>, change: seq<bool>, width: int, height: int, j: int)
    requires width > 0 && height > 0 && |cells| == width * height && |change| == |cells|
    requires 0 <= j < |cells|
  {
    change[j] && CellStep(cells, width, height, j) != cells[j]
  }

  /** The change flags after the first k cells of the row-major sweep. */
  function ChangesUpTo(cells: seq<bool>, change: seq<bool>, width: int, height: int, k: nat): (r: seq<bool>)
    requires width > 0 && height > 0 && |cells| == width * height && |change| == |cells|
    requires k <= |cells|
    ensures |r| == |cells|
  {
    if k == 0 then seq(|cells|, _ => false)
    else
      var prev := ChangesUpTo(cells, change, width, height, k - 1);
      if Flipped(cells, change, width, height, k - 1) then Marked(prev, PointOf(k - 1, width), width, height)
      else prev
  }

  /** The change grid `nextGeneration` leaves for the following generation. */
  function NextChanges(cells: seq<bool>, change: seq<bool>, width: int, height: int): (r: seq<bool>)
    requires width > 0 && height > 0 && |cells| == width * height && |change| == |cells|
    ensures |r| == |cells|
  {
    ChangesUpTo(cells, change, width, height, |cells|)
  }

  /** After the sweep reaches k, cell i is flagged exactly when one of the
      first k cells flipped and has i in its neighbourhood. */
  lemma {:induction false} ChangesUpToFlags(cells: seq<bool>, change: seq<bool>, width: int, height: int, k: nat, i: nat)
    requires width > 0 && height > 0 && |cells| == width * height && |change| == |cells|
    requires k <= |cells| && i < |cells|
    ensures ChangesUpTo(cells, change, width, height, k)[i] <==>
      exists j | 0 <= j < k :: Flipped(cells, change, width, height, j) && Adjacent(PointOf(i, width), PointOf(j, width), width, height)
  {
    if k > 0 {
      ChangesUpToFlags(cells, change, width, height, k - 1, i);
      ChangesUpToStep(cells, change, width, height, k, i);
      if Flipped(cells, change, width, height, k - 1) && Adjacent(PointOf(i, width), PointOf(k - 1, width), width, height) {
        var j := k - 1;
        assert Flipped(cells, change, width, height, j) && Adjacent(PointOf(i, width), PointOf(j, width), width, height);
      }
    }
  }

  /** One step of the sweep: cell i gets flagged when cell k - 1 flips next to it. */
  lemma ChangesUpToStep(cells: seq<bool>, change: seq<bool>, width: int, height: int, k: nat, i: nat)
    requires width > 0 && height > 0 && |cells| == width * height && |change| == |cells|
    requires 0 < k <= |cells| && i < |cells|
    ensures ChangesUpTo(cells, change, width, height, k)[i] ==
      (ChangesUpTo(cells, change, width, height, k - 1)[i] ||
       (Flipped(cells, change, width, height, k - 1) && Adjacent(PointOf(i, width), PointOf(k - 1, width), width, height)))
  {
  }

  /** `nextGeneration`: clears both next grids, then sweeps the points in
      row-major order, recomputing flagged cells, copying the others and
      flagging the neighbourhood of each cell that flips. */
  method NextGeneration(cur: Grid<bool>, curChange: Grid<bool>, next: Grid<bool>, nextChange: Grid<bool>)
    requires cur.Valid() && curChange.Valid() && next.Valid() && nextChange.Valid()
    requires cur.width > 0 && cur.height > 0
    requires curChange.width == cur.width && curChange.height == cur.height
    requires next.width == cur.width && next.height == cur.height
    requires nextChange.width == cur.width && nextChange.height == cur.height
    requires next != nextChange && next != cur && next != curChange && nextChange != cur && nextChange != curChange
    modifies next, nextChange
    ensures next.Valid() && nextChange.Valid()
    ensures next.storage == NextCells(cur.storage, curChange.storage, cur.width, cur.height)
    ensures nextChange.storage == NextChanges(cur.storage, curChange.storage, cur.width, cur.height)
  {
    var w, h := cur.width, cur.height;
    next.SetAll(false);
    nextChange.SetAll(false);
    var points := cur.GetPoints();
    PointsAreRowMajor(w, h);
    ghost var target := NextCells(cur.storage, curChange.storage, w, h);
    for i := 0 to |points|
      invariant next.Valid() && nextChange.Valid()
      invariant forall j | 0 <= j < i :: next.storage[j] == target[j]
      invariant forall j | i <= j < |next.storage| :: !next.storage[j]
      invariant nextChange.storage == ChangesUpTo(cur.storage, curChange.storage, w, h, i)
    {
      var p := points[i];
      assert p == PointOf(i, w);
      var currentAlive := cur.GetValue(p);
      if curChange.GetValue(p) {
        var neighborsCount := CountNeighbors(cur, p);
        var nextAlive := Rule(currentAlive, neighborsCount);
        if nextAlive {
          next.SetValue(true, p);
        }
        if currentAlive != nextAlive {
          SetChanged(nextChange, p);
        }
      } else {
        next.SetValue(currentAlive, p);
      }
    }
  }

  /** The incremental state is sound when every unflagged cell is one the
      rule would leave as it is. */
  ghost predicate Sound(cells: seq<bool>, change: seq<bool>, width: int, height: int)
    requires width > 0 && height > 0 && |cells| == width * height && |change| == |cells|
  {
    forall i | 0 <= i < |cells| :: !change[i] ==> CellStep(cells, width, height, i) == cells[i]
  }

  /** An all-true change grid, as `makeFromDigest` starts with, is sound. */
  lemma AllChangedIsSound(cells: seq<bool>, width: int, height: int)
    requires width > 0 && height > 0 && |cells| == width * height
    ensures Sound(cells, seq(|cells|, _ => true), width, height)
  {
  }

  /** From a sound state, the incremental generation is the full Life step. */
  lemma SoundStepIsLife(cells: seq<bool>, change: seq<bool>, width: int, height: int)
    requires width > 0 && height > 0 && |cells| == width * height && |change| == |cells|
    requires Sound(cells, change, width, height)
    ensures NextCells(cells, change, width, height) == LifeStep(cells, width, height)
  {
  }

  /** The change grid `nextGeneration` produces keeps the state sound: a cell
      none of whose neighbours flipped has the same neighbourhood as before,
      so it is stable again. */
  lemma SoundPreserved(cells: seq<bool>, change: seq<bool>, width: int, height: int)
    requires width > 0 && height > 0 && |cells| == width * height && |change| == |cells|
    requires Sound(cells, change, width, height)
    ensures Sound(NextCells(cells, change, width, height), NextChanges(cells, change, width, height), width, height)
  {
    var next := NextCells(cells, change, width, height);
    var flags := NextChanges(cells, change, width, height);
    forall i | 0 <= i < |cells| && !flags[i]
      ensures CellStep(next, width, height, i) == next[i]
    {
      ChangesUpToFlags(cells, change, width, height, |cells|, i);
      var p := PointOf(i, width);
      OffsetOfPoint(i, width, height);
      forall j | 0 <= j < |cells| && Adjacent(PointOf(j, width), p, width, height)
        ensures next[j] == cells[j]
      {
        OffsetOfPoint(j, width, height);
        AdjacentSymmetric(PointOf(j, width), p, width, height);
        assert !Flipped(cells, change, width, height, j);
      }
      LiveNeighborsLocal(next, cells, width, height, p);
      NeighborhoodShape(p, width, height);
      NeighborhoodIsAdjacency(p, width, height);
      assert next[i] == cells[i];
    }
  }

  /** The state after n incremental generations. */
  function Incremental(cells: seq<bool>, change: seq<bool>, width: int, height: int, n: nat): (r: (seq<bool>, seq<bool>))
    requires width > 0 && height > 0 && |cells| == width * height && |change| == |cells|
    ensures |r.0| == |cells| && |r.1| == |cells|
  {
    if n == 0 then (cells, change)
    else
      var s := Incremental(cells, change, width, height, n - 1);
      (NextCells(s.0, s.1, width, height), NextChanges(s.0, s.1, width, height))
  }

  /** Starting sound, n incremental generations compute exactly n generations
      of Life, and the state stays sound. */
  lemma {:induction false} IncrementalIsLife(cells: seq<bool>, change: seq<bool>, width: int, height: int, n: nat)
    requires width > 0 && height > 0 && |cells| == width * height && |change| == |cells|
    requires Sound(cells, change, width, height)
    ensures Incremental(cells, change, width, height, n).0 == Life(cells, width, height, n)
    ensures Sound(Incremental(cells, change, width, height, n).0, Incremental(cells, change, width, height, n).1, width, height)
  {
    if n > 0 {
      IncrementalIsLife(cells, change, width, height, n - 1);
      var s := Incremental(cells, change, width, height, n - 1);
      SoundStepIsLife(s.0, s.1, width, height);
      SoundPreserved(s.0, s.1, width, height);
    }
  }

  /** The mask bit j of a packed byte, or 0 past the end of the cells. */
  function PackedBit(cells: seq<bool>, base: nat, j: nat): Byte
    requires j < 8
  {
    if base + j < |cells| && cells[base + j] then Masks[j] else 0
  }

  /** Cells base .. base + 7 packed most significant bit first. */
  function PackByte(cells: seq<bool>, base: nat): Byte
  {
    PackedBit(cells, base, 0) | PackedBit(cells, base, 1) | PackedBit(cells, base, 2) | PackedBit(cells, base, 3) |
    PackedBit(cells, base, 4) | PackedBit(cells, base, 5) | PackedBit(cells, base, 6) | PackedBit(cells, base, 7)
  }

  /** The cells as bytes, eight per byte, most significant bit first, the last
      byte padded with zero bits. */
  function Pack(cells: seq<bool>): seq<Byte>
  {
    seq((|cells| + 7) / 8, i requires 0 <= i => PackByte(cells, 8 * i))
  }

  /** Every bit of a byte buffer, most significant bit of byte 0 first. */
  function Unpack(data: seq<Byte>): seq<bool>
  {
    seq(8 * |data|, k requires 0 <= k < 8 * |data| => BitAt(data, k))
  }

  lemma PackByteBits(cells: seq<bool>, base: nat, j: nat)
    requires j < 8
    ensures PackByte(cells, base) & Masks[j] != 0 <==> base + j < |cells| && cells[base + j]
  {
  }

  /** Bit k of the packed buffer is cell k, and the padding bits are zero. */
  lemma PackBits(cells: seq<bool>)
    ensures |Pack(cells)| == (|cells| + 7) / 8
    ensures forall k | 0 <= k < 8 * |Pack(cells)| :: BitAt(Pack(cells), k) == (k < |cells| && cells[k])
  {
    forall k | 0 <= k < 8 * |Pack(cells)|
      ensures BitAt(Pack(cells), k) == (k < |cells| && cells[k])
    {
      var i, j := k / 8, k % 8;
      assert k == 8 * i + j;
      BitAtByte(Pack(cells), i, j);
      assert Pack(cells)[i] == PackByte(cells, 8 * i);
      PackByteBits(cells, 8 * i, j);
    }
  }

  /** A buffer of the packed length whose first bits are the cells and whose
      remaining bits are clear is the packed buffer. */
  lemma PackedFromBits(data: seq<Byte>, cells: seq<bool>)
    requires |data| == (|cells| + 7) / 8 && |cells| <= 8 * |data|
    requires BitsOf(data, |cells|) == cells
    requires forall k | |cells| <= k < 8 * |data| :: !BitAt(data, k)
    ensures data == Pack(cells)
  {
    PackBits(cells);
    forall k | 0 <= k < 8 * |data| ensures BitAt(data, k) == BitAt(Pack(cells), k) {
      if k < |cells| {
        assert BitsOf(data, |cells|)[k] == BitAt(data, k);
      }
    }
    BuffersFromBits(data, Pack(cells));
  }

  /** Packing then unpacking gives the cells back, followed by the zero padding. */
  lemma UnpackPack(cells: seq<bool>)
    ensures Unpack(Pack(cells))[..|cells|] == cells
    ensures forall k | |cells| <= k < |Unpack(Pack(cells))| :: !Unpack(Pack(cells))[k]
    ensures |cells| % 8 == 0 ==> Unpack(Pack(cells)) == cells
  {
    PackBits(cells);
  }

  /** Unpacking then packing gives the buffer back. */
  lemma PackUnpack(data: seq<Byte>)
    ensures Pack(Unpack(data)) == data
  {
    PackBits(Unpack(data));
    BuffersFromBits(Pack(Unpack(data)), data);
  }

  /** `getData`: the cells in row-major order, appended one by one to a bit
      aggregator. */
  method GetData(g: Grid<bool>) returns (r: seq<Byte>)
    requires g.Valid() && g.width > 0
    ensures r == Pack(g.storage)
  {
    var aggregator := new BitAggregator();
    var points := g.GetPoints();
    PointsAreRowMajor(g.width, g.height);
    for i := 0 to |points|
      invariant aggregator.Valid() && aggregator.Contents() == g.storage[..i]
      invariant |aggregator.data| == (aggregator.Count() + 7) / 8
    {
      aggregator.Append(g.GetValue(points[i]));
    }
    r := aggregator.GetData();
    assert aggregator.Contents() == g.storage;
    PackedFromBits(r, g.storage);
  }

  /** `setData`: reads the buffer bit by bit into the cells, in row-major order.
      The board must hold exactly eight cells per byte. */
  method SetData(g: Grid<bool>, data: seq<Byte>)
    requires g.Valid() && |data| > 0 && g.capacity == 8 * |data|
    modifies g
    ensures g.Valid() && g.storage == Unpack(data)
  {
    var e := new BitEnumerator(data);
    var i := 0;
    while e.HasNext()
      invariant e.Valid() && e.data == data && e.Consumed() == i
      invariant g.Valid()
      invariant forall k | 0 <= k < i :: g.storage[k] == BitAt(data, k)
      decreases 8 * |data| - e.Consumed()
    {
      var r := e.Next();
      var value := r.value;
      g.storage := g.storage[i := value];
      i := i + 1;
    }
  }

  /** `colorForValue`: live cells are white, dead cells black. */
  function CellColor(alive: bool): (c: Color)
    ensures c == Black || c == White
    ensures c == White <==> alive
  {
    if alive then White else Black
  }
}
