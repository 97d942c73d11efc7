/** `LifeHash.makeFromDigest`: a 32-byte digest seeds a Game of Life board;
    the board is run until it repeats or a version's generation cap is hit;
    the history is overlaid into a grid of per-cell ages; the digest's bits
    then choose a gradient and a symmetry pattern, and the coloured,
    mirrored grid is scaled into an image.

    SHA-256 is a parameter `hash` (any function with 32-byte results), the
    colour arithmetic is the uninterpreted `ColorOps`, and the min-max
    rescaling of the ages is a length-preserving parameter `normalize`. */
module LifeHash {
  import opened Basics
  import opened Utils
  import opened BitStream
  import opened Grids
  import opened CellGrids
  import opened ChangeGrids
  import opened FracGrids
  import opened ColorFuncs
  import opened Gradients
  import opened Patterns
  import opened ColorGrids
  import opened Images

  // ---------------------------------------------------------------------
  // Version table and seeding

  /** The side of the square Life board. */
  function GridLength(version: Version): nat
  {
    if version == Version1 || version == Version2 then 16 else 32
  }

  /** The generation cap. */
  function MaxGenerations(version: Version): nat
  {
    if version == Version1 || version == Version2 then 150 else 300
  }

  /** The two small versions run 150 generations on 16 x 16; the others 300
      on 32 x 32. */
  lemma VersionTable(version: Version)
    ensures (version == Version1 || version == Version2) <==> GridLength(version) == 16
    ensures (version == Version1 || version == Version2) <==> MaxGenerations(version) == 150
    ensures GridLength(version) == 32 <==> MaxGenerations(version) == 300
  {
  }

  /** A model of SHA-256: every digest is 32 bytes long. */
  ghost predicate IsDigestFunction(hash: seq<Byte> -> seq<Byte>)
  {
    forall d :: |hash(d)| == 32
  }

  /** The bytes the board is seeded with: the digest for version 1, its hash
      for version 2, and for the 32 x 32 versions four chained hashes
      d1 ++ d2 ++ d3 ++ d4, where d1 is the digest (hashed once more for the
      grayscale fiducial version) and each later one hashes the one before. */
  function Seed(digest: seq<Byte>, version: Version, hash: seq<Byte> -> seq<Byte>): (seed: seq<Byte>)
    requires |digest| == 32 && IsDigestFunction(hash)
    ensures 8 * |seed| == GridLength(version) * GridLength(version)
    ensures version == Version1 ==> seed == digest
    ensures version == Version2 ==> seed == hash(digest)
    ensures GridLength(version) == 32 ==>
      var d1 := if version == GrayscaleFiducial then hash(digest) else digest;
      seed[..32] == d1 && seed[32..64] == hash(d1) && seed[64..96] == hash(hash(d1)) &&
      seed[96..] == hash(hash(hash(d1)))
  {
    match version
    case Version1 => digest
    case Version2 => hash(digest)
    case _ =>
      var digest1 := if version == GrayscaleFiducial then hash(digest) else digest;
      var digest2 := hash(digest1);
      var digest3 := hash(digest2);
      var digest4 := hash(digest3);
      digest1 + digest2 + digest3 + digest4
  }

  // ---------------------------------------------------------------------
  // Generations and the history

  /** The well-formed (seed, side) pairs: one bit per cell of a square board. */
  predicate SeedsBoard(seed: seq<Byte>, length: nat)
  {
    length > 0 && 8 * |seed| == length * length
  }

  /** The serialised board after i full Life generations from the seed. */
  function Generation(seed: seq<Byte>, length: nat, i: nat): (r: seq<Byte>)
    requires SeedsBoard(seed, length)
    ensures |r| == |seed|
  {
    PackBits(Life(Unpack(seed), length, length, i));
    Pack(Life(Unpack(seed), length, length, i))
  }

  /** The first n generations. */
  function Generations(seed: seq<Byte>, length: nat, n: nat): (r: seq<seq<Byte>>)
    requires SeedsBoard(seed, length)
    ensures |r| == n
  {
    seq(n, i requires 0 <= i < n => Generation(seed, length, i))
  }

  /** The hash set after recording the first n generations. */
  function HistoryHashes(seed: seq<Byte>, length: nat, hash: seq<Byte> -> seq<Byte>, n: nat): set<seq<Byte>>
    requires SeedsBoard(seed, length)
  {
    set i | 0 <= i < n :: hash(Generation(seed, length, i))
  }

  lemma HistoryHashesNext(seed: seq<Byte>, length: nat, hash: seq<Byte> -> seq<Byte>, n: nat)
    requires SeedsBoard(seed, length)
    ensures HistoryHashes(seed, length, hash, n + 1) ==
      HistoryHashes(seed, length, hash, n) + {hash(Generation(seed, length, n))}
  {
    var h := hash(Generation(seed, length, n));
    assert h in HistoryHashes(seed, length, hash, n + 1);
  }

  /** The number of generations recorded, searching upward from n: the loop
      stops at the cap or at the first generation whose hash was seen. */
  function HistoryLengthFrom(seed: seq<Byte>, length: nat, maxGenerations: nat, hash: seq<Byte> -> seq<Byte>, n: nat): nat
    requires SeedsBoard(seed, length) && n <= maxGenerations
    decreases maxGenerations - n
  {
    if n == maxGenerations || hash(Generation(seed, length, n)) in HistoryHashes(seed, length, hash, n) then n
    else HistoryLengthFrom(seed, length, maxGenerations, hash, n + 1)
  }

  /** The history `makeFromDigest` records. */
  function History(seed: seq<Byte>, length: nat, maxGenerations: nat, hash: seq<Byte> -> seq<Byte>): seq<seq<Byte>>
    requires SeedsBoard(seed, length)
  {
    Generations(seed, length, HistoryLengthFrom(seed, length, maxGenerations, hash, 0))
  }

  /** The search stops within the cap, for the cap or a repeated hash, and
      every generation it passes over had a new hash. */
  lemma {:induction false} HistoryLengthFacts(seed: seq<Byte>, length: nat, maxGenerations: nat,
                                              hash: seq<Byte> -> seq<Byte>, n: nat)
    requires SeedsBoard(seed, length) && n <= maxGenerations
    decreases maxGenerations - n
    ensures var m := HistoryLengthFrom(seed, length, maxGenerations, hash, n);
      n <= m <= maxGenerations &&
      (m == maxGenerations || hash(Generation(seed, length, m)) in HistoryHashes(seed, length, hash, m)) &&
      forall k | n <= k < m :: hash(Generation(seed, length, k)) !in HistoryHashes(seed, length, hash, k)
  {
    if n < maxGenerations && hash(Generation(seed, length, n)) !in HistoryHashes(seed, length, hash, n) {
      HistoryLengthFacts(seed, length, maxGenerations, hash, n + 1);
    }
  }

  /** The history: at most `maxGenerations` entries, at least one when the
      cap allows any, the seed first, each entry one Life step after the one
      before, no two entries with the same hash (so no repeated board), and
      below the cap the next generation's hash is one already recorded. */
  lemma HistoryShape(seed: seq<Byte>, length: nat, maxGenerations: nat, hash: seq<Byte> -> seq<Byte>)
    requires SeedsBoard(seed, length)
    ensures var h := History(seed, length, maxGenerations, hash);
      |h| <= maxGenerations && (maxGenerations > 0 ==> |h| >= 1 && h[0] == seed) &&
      (forall i, j | 0 <= i < j < |h| :: hash(h[i]) != hash(h[j]) && h[i] != h[j]) &&
      (forall i | 0 <= i < |h| - 1 :: h[i + 1] == Pack(LifeStep(Unpack(h[i]), length, length))) &&
      (|h| < maxGenerations ==> exists i | 0 <= i < |h| :: hash(h[i]) == hash(Generation(seed, length, |h|)))
  {
    var m := HistoryLengthFrom(seed, length, maxGenerations, hash, 0);
    var h := History(seed, length, maxGenerations, hash);
    HistoryLengthFacts(seed, length, maxGenerations, hash, 0);
    if maxGenerations > 0 {
      assert HistoryHashes(seed, length, hash, 0) == {};
      PackUnpack(seed);
    }
    forall i, j | 0 <= i < j < |h| ensures hash(h[i]) != hash(h[j]) && h[i] != h[j] {
      assert hash(h[i]) in HistoryHashes(seed, length, hash, j);
    }
    forall i | 0 <= i < |h| - 1 ensures h[i + 1] == Pack(LifeStep(Unpack(h[i]), length, length)) {
      UnpackPack(Life(Unpack(seed), length, length, i));
    }
    if |h| < maxGenerations {
      var g := hash(Generation(seed, length, |h|));
      assert g in HistoryHashes(seed, length, hash, |h|);
      var i :| 0 <= i < |h| && hash(Generation(seed, length, i)) == g;
      assert hash(h[i]) == g;
    }
  }

  /** For an injective hash the loop stops exactly at the first repeated
      board: below the cap, the next generation is already in the history. */
  lemma StopsAtRepeatedBoard(seed: seq<Byte>, length: nat, maxGenerations: nat, hash: seq<Byte> -> seq<Byte>)
    requires SeedsBoard(seed, length)
    requires forall a, b :: hash(a) == hash(b) ==> a == b
    ensures var h := History(seed, length, maxGenerations, hash);
      |h| < maxGenerations ==> Generation(seed, length, |h|) in h
  {
    HistoryShape(seed, length, maxGenerations, hash);
  }

  lemma GenerationsNext(seed: seq<Byte>, length: nat, n: nat)
    requires SeedsBoard(seed, length)
    ensures Generations(seed, length, n + 1) == Generations(seed, length, n) + [Generation(seed, length, n)]
  {
  }

  /** One `nextGeneration` call from a sound state: the next board is one
      full Life generation further, and the state stays sound. */
  method AdvanceBoards(current: Grid<bool>, currentChange: Grid<bool>, next: Grid<bool>, nextChange: Grid<bool>,
                       ghost start: seq<bool>, ghost n: nat)
    requires current.Valid() && currentChange.Valid() && next.Valid() && nextChange.Valid()
    requires current.width > 0 && current.height > 0 && |start| == current.width * current.height
    requires currentChange.width == current.width && currentChange.height == current.height
    requires next.width == current.width && next.height == current.height
    requires nextChange.width == current.width && nextChange.height == current.height
    requires next != nextChange && next != current && next != currentChange && nextChange != current && nextChange != currentChange
    requires current.storage == Life(start, current.width, current.height, n)
    requires Sound(current.storage, currentChange.storage, current.width, current.height)
    modifies next, nextChange
    ensures next.Valid() && nextChange.Valid()
    ensures next.storage == Life(start, current.width, current.height, n + 1)
    ensures Sound(next.storage, nextChange.storage, current.width, current.height)
  {
    NextGeneration(current, currentChange, next, nextChange);
    SoundStepIsLife(current.storage, currentChange.storage, current.width, current.height);
    SoundPreserved(current.storage, currentChange.storage, current.width, current.height);
  }

  /** The simulation loop of `makeFromDigest`: four boards double-buffered by
      swapping, the next board seeded and fully flagged, then per generation
      a snapshot, its hash checked against and added to the set, and one
      incremental Life step. Returns the history and the board the frame
      overlay reuses. */
  method RunGenerations(seed: seq<Byte>, length: nat, maxGenerations: nat, hash: seq<Byte> -> seq<Byte>)
    returns (history: seq<seq<Byte>>, currentCellGrid: Grid<bool>)
    requires SeedsBoard(seed, length)
    ensures history == History(seed, length, maxGenerations, hash)
    ensures fresh(currentCellGrid) && currentCellGrid.Valid()
    ensures currentCellGrid.width == length && currentCellGrid.height == length
  {
    var size := length;
    currentCellGrid := new Grid(size, size, false);
    var nextCellGrid := new Grid(size, size, false);
    var currentChangeGrid := NewChangeGrid(size, size);
    var nextChangeGrid := NewChangeGrid(size, size);
    var historySet: set<seq<Byte>> := {};
    history := [];
    SetData(nextCellGrid, seed);
    nextChangeGrid.SetAll(true);
    AllChangedIsSound(Unpack(seed), size, size);
    while |history| < maxGenerations
      invariant fresh(currentCellGrid) && fresh(nextCellGrid) && fresh(currentChangeGrid) && fresh(nextChangeGrid)
      invariant currentCellGrid.Valid() && nextCellGrid.Valid() && currentChangeGrid.Valid() && nextChangeGrid.Valid()
      invariant currentCellGrid.width == size && currentCellGrid.height == size
      invariant nextCellGrid.width == size && nextCellGrid.height == size
      invariant currentChangeGrid.width == size && currentChangeGrid.height == size
      invariant nextChangeGrid.width == size && nextChangeGrid.height == size
      invariant currentCellGrid != nextCellGrid && currentCellGrid != currentChangeGrid
      invariant currentCellGrid != nextChangeGrid && nextCellGrid != currentChangeGrid
      invariant nextCellGrid != nextChangeGrid && currentChangeGrid != nextChangeGrid
      invariant nextCellGrid.storage == Life(Unpack(seed), size, size, |history|)
      invariant Sound(nextCellGrid.storage, nextChangeGrid.storage, size, size)
      invariant history == Generations(seed, size, |history|)
      invariant historySet == HistoryHashes(seed, size, hash, |history|)
      invariant |history| <= maxGenerations
      invariant HistoryLengthFrom(seed, size, maxGenerations, hash, 0) ==
                HistoryLengthFrom(seed, size, maxGenerations, hash, |history|)
      decreases maxGenerations - |history|
    {
      var tempCellGrid := currentCellGrid;
      currentCellGrid := nextCellGrid;
      nextCellGrid := tempCellGrid;
      var tempChangeGrid := currentChangeGrid;
      currentChangeGrid := nextChangeGrid;
      nextChangeGrid := tempChangeGrid;

      var data := GetData(currentCellGrid);
      var h := hash(data);
      if h in historySet {
        break;
      }
      HistoryHashesNext(seed, size, hash, |history|);
      GenerationsNext(seed, size, |history|);
      historySet := historySet + {h};
      history := history + [data];
      AdvanceBoards(currentCellGrid, currentChangeGrid, nextCellGrid, nextChangeGrid, Unpack(seed), |history| - 1);
    }
  }

  // ---------------------------------------------------------------------
  // Frame weights and the age grid

  /** The history's boards, unpacked. */
  function Frames(history: seq<seq<Byte>>): (r: seq<seq<bool>>)
    ensures |r| == |history|
  {
    seq(|history|, i requires 0 <= i < |history| => Unpack(history[i]))
  }

  /** The weight of frame i of n: `clamped(lerpFrom(0, n, i + 1))`. */
  function FrameWeight(i: nat, n: nat): real
    requires i < n
  {
    Clamped(LerpFrom(0.0, n as real, (i + 1) as real))
  }

  /** The weights of all n frames. */
  function Weights(n: nat): (r: seq<real>)
    ensures |r| == n
  {
    seq(n, i requires 0 <= i < n => FrameWeight(i, n))
  }

  /** Frame i of n weighs (i + 1) / n: weights lie in (0, 1], strictly
      increase, and the last frame weighs 1. */
  lemma FrameWeights(n: nat, i: nat, j: nat)
    requires i < n
    ensures Weights(n)[i] == (i + 1) as real / n as real
    ensures 0.0 < Weights(n)[i] <= 1.0
    ensures Weights(n)[n - 1] == 1.0
    ensures i < j < n ==> Weights(n)[i] < Weights(n)[j]
  {
    FrameWeightIs(i, n);
    FrameWeightIs(n - 1, n);
    if i < j < n {
      FrameWeightIs(j, n);
      DivMonotone((i + 1) as real, (j + 1) as real, n as real);
    }
  }

  lemma FrameWeightIs(k: nat, n: nat)
    requires k < n
    ensures FrameWeight(k, n) == (k + 1) as real / n as real
    ensures 0.0 < FrameWeight(k, n) <= 1.0
  {
    var t, N := (k + 1) as real, n as real;
    NegatedQuotient(t, N);
    DivMonotone(t, N, N);
    assert N / N == 1.0;
    assert 0.0 < t / N;
  }

  lemma NegatedQuotient(a: real, b: real)
    requires b != 0.0
    ensures (0.0 - a) / (0.0 - b) == a / b
  {
  }

  lemma DivMonotone(a: real, b: real, d: real)
    requires a <= b && d > 0.0
    ensures a / d <= b / d && (a < b ==> a / d < b / d)
  {
  }

  /** The ages: the frames overlaid on a zero grid with their weights. */
  function Ages(history: seq<seq<Byte>>, capacity: nat): (r: seq<real>)
    requires forall t | 0 <= t < |history| :: 8 * |history[t]| == capacity
    ensures |r| == capacity
  {
    OverlayFrames(seq(capacity, _ => 0.0), Frames(history), Weights(|history|))
  }

  /** A cell's age is (t + 1) / N for the last of the N frames t in which it
      was alive, and 0 if it never was; every age lies in [0, 1]. */
  lemma AgesAreLastAliveFrames(history: seq<seq<Byte>>, capacity: nat, cell: int)
    requires forall t | 0 <= t < |history| :: 8 * |history[t]| == capacity
    requires 0 <= cell < capacity
    ensures (forall t | 0 <= t < |history| :: !Unpack(history[t])[cell]) ==> Ages(history, capacity)[cell] == 0.0
    ensures forall t | 0 <= t < |history| && Unpack(history[t])[cell] &&
                       (forall u | t < u < |history| :: !Unpack(history[u])[cell]) ::
      Ages(history, capacity)[cell] == (t + 1) as real / |history| as real
    ensures 0.0 <= Ages(history, capacity)[cell] <= 1.0
  {
    var zero := seq(capacity, _ => 0.0);
    var frames, weights := Frames(history), Weights(|history|);
    var ages := Ages(history, capacity);
    OverlayFramesLastAlive(zero, frames, weights, cell);
    forall t | 0 <= t < |history| ensures 0.0 <= weights[t] <= 1.0 {
      FrameWeightIs(t, |history|);
    }
    OverlayFramesBounded(zero, frames, weights);
    forall t | 0 <= t < |history| && Unpack(history[t])[cell] &&
               (forall u | t < u < |history| :: !Unpack(history[u])[cell])
      ensures ages[cell] == (t + 1) as real / |history| as real
    {
      FrameWeightIs(t, |history|);
      assert frames[t][cell] && forall u | t < u < |frames| :: !frames[u][cell];
    }
  }

  /** The overlay loop of `makeFromDigest`: each recorded board is loaded
      back into the reused cell grid and overlaid with its frame weight. */
  method OverlayHistory(history: seq<seq<Byte>>, currentCellGrid: Grid<bool>) returns (fracGrid: Grid<real>)
    requires currentCellGrid.Valid() && currentCellGrid.width > 0
    requires forall t | 0 <= t < |history| :: |history[t]| > 0 && 8 * |history[t]| == currentCellGrid.capacity
    modifies currentCellGrid
    ensures fresh(fracGrid) && fracGrid.Valid()
    ensures fracGrid.width == currentCellGrid.width && fracGrid.height == currentCellGrid.height
    ensures fracGrid.storage == Ages(history, currentCellGrid.capacity)
  {
    fracGrid := NewFracGrid(currentCellGrid.width, currentCellGrid.height);
    var zero := seq(currentCellGrid.capacity, _ => 0.0);
    assert fracGrid.storage == zero;
    ghost var frames, weights := Frames(history), Weights(|history|);
    for i := 0 to |history|
      invariant currentCellGrid.Valid() && fracGrid.Valid()
      invariant fracGrid.width == currentCellGrid.width && fracGrid.height == currentCellGrid.height
      invariant fracGrid.storage == OverlayFrames(zero, frames[..i], weights[..i])
    {
      SetData(currentCellGrid, history[i]);
      var frac := Clamped(LerpFrom(0.0, |history| as real, (i + 1) as real));
      Overlay(fracGrid, currentCellGrid, frac);
      assert frames[..i + 1][..i] == frames[..i] && weights[..i + 1][..i] == weights[..i];
    }
    assert frames[..|history|] == frames && weights[..|history|] == weights;
  }

  /** A length-preserving rescaling of the ages. */
  ghost predicate PreservesLength(normalize: seq<real> -> seq<real>)
  {
    forall v :: |normalize(v)| == |v|
  }

  /** The min-max rescaling of the ages, for every version but version 1. */
  method NormalizeAges(fracGrid: Grid<real>, normalize: seq<real> -> seq<real>)
    requires fracGrid.Valid() && PreservesLength(normalize)
    modifies fracGrid
    ensures fracGrid.Valid() && fracGrid.storage == normalize(old(fracGrid.storage))
  {
    fracGrid.storage := normalize(fracGrid.storage);
  }

  // ---------------------------------------------------------------------
  // Entropy

  /** The bits thrown away before selection: one for the detailed version
      and two for version 2, so that neither resembles version 1. */
  function EntropySkip(version: Version): (n: nat)
    ensures n <= 2
  {
    if version == Detailed then 1 else if version == Version2 then 2 else 0
  }

  /** The skipped bits, the gradient's bits and the pattern's bit together
      never exceed 55, well inside the 256 bits of a digest. */
  lemma EntropyBudget(digest: seq<Byte>, version: Version)
    requires |digest| == 32
    ensures EntropySkip(version) + GradientBits(digest, EntropySkip(version), version) + PatternBits(version) <= 55
    ensures EntropySkip(version) + GradientBits(digest, EntropySkip(version), version) + PatternBits(version) < 8 * |digest|
  {
    GradientBitsBound(digest, EntropySkip(version), version);
  }

  /** The gradient chosen by the digest's bits after the skipped ones. */
  function ChosenGradient(digest: seq<Byte>, version: Version, ops: ColorOps): (f: ColorFunc)
    requires |digest| == 32
    ensures WellFormed(f)
  {
    EntropyBudget(digest, version);
    GradientAt(digest, EntropySkip(version), version, ops)
  }

  /** The pattern chosen by the bits after the gradient's. */
  function ChosenPattern(digest: seq<Byte>, version: Version): (p: Pattern)
    requires |digest| == 32
    ensures IsFiducialVersion(version) <==> p == Pattern.Fiducial
  {
    EntropyBudget(digest, version);
    var pos := EntropySkip(version) + GradientBits(digest, EntropySkip(version), version);
    PatternChoice(digest, pos, version);
    PatternAt(digest, pos, version)
  }

  /** The entropy part of `makeFromDigest`: one enumerator over the digest,
      the version's skipped bits, then the gradient, then the pattern.
      Neither selection can run out of bits. */
  method SelectColoring(digest: seq<Byte>, version: Version, ops: ColorOps) returns (gradient: ColorFunc, pattern: Pattern)
    requires |digest| == 32
    ensures gradient == ChosenGradient(digest, version, ops)
    ensures pattern == ChosenPattern(digest, version)
  {
    var entropy := new BitEnumerator(digest);
    match version {
      case Detailed =>
        var skipped := entropy.Next();
      case Version2 =>
        var skipped := entropy.NextUint2();
      case _ =>
    }
    assert entropy.Consumed() == EntropySkip(version);
    EntropyBudget(digest, version);
    var g := SelectGradient(entropy, version, ops);
    var p := SelectPattern(entropy, version);
    gradient := g.value;
    pattern := p.value;
  }

  // ---------------------------------------------------------------------
  // Rendering

  /** Colours as `colors()` lists them: three components per colour. */
  function Components(colors: seq<Color>): (r: seq<real>)
    ensures |r| == 3 * |colors|
  {
    seq(3 * |colors|, k requires 0 <= k < 3 * |colors| =>
      var c := colors[k / 3];
      if k % 3 == 0 then c.r else if k % 3 == 1 then c.g else c.b)
  }

  /** Any list with three components per colour, in order, is `Components`. */
  lemma ComponentsInterleave(result: seq<real>, colors: seq<Color>)
    requires |result| == 3 * |colors|
    requires forall i | 0 <= i < |colors| ::
      result[3 * i] == colors[i].r && result[3 * i + 1] == colors[i].g && result[3 * i + 2] == colors[i].b
    ensures result == Components(colors)
  {
    forall k | 0 <= k < |result| ensures result[k] == Components(colors)[k] {
      var i, c := k / 3, k % 3;
      assert k == 3 * i + c;
    }
  }

  /** The image colours: cell j shows the gradient at the age of its
      pattern preimage. */
  function ImageColors(ages: seq<real>, n: nat, gradient: ColorFunc, pattern: Pattern, ops: ColorOps): (r: seq<Color>)
    requires n > 0 && |ages| == n * n && WellFormed(gradient)
    ensures |r| == (Multiplier(pattern) * n) * (Multiplier(pattern) * n)
  {
    var side := Multiplier(pattern) * n;
    seq(side * side, j requires 0 <= j < side * side => Apply(gradient, ages[SourceIndex(j, n, pattern)], ops))
  }

  /** The image `makeImage` makes from the coloured grid. */
  function RenderedImage(ages: seq<real>, n: nat, gradient: ColorFunc, pattern: Pattern, moduleSize: int,
                         hasAlpha: bool, ops: ColorOps): (r: Result<Image>)
    requires n > 0 && |ages| == n * n && WellFormed(gradient)
    ensures moduleSize == 0 <==> r == Failure(InvalidModuleSize)
    ensures r.Success? ==> r.value.width == r.value.height == Multiplier(pattern) * n * moduleSize
  {
    var side := Multiplier(pattern) * n;
    if moduleSize == 0 then Failure(InvalidModuleSize)
    else Success(Image(side * moduleSize, side * moduleSize,
                       ImageBytes(Components(ImageColors(ages, n, gradient, pattern, ops)), side, side, moduleSize, hasAlpha),
                       hasAlpha))
  }

  /** The last line of `makeFromDigest`: the colour grid, its component list,
      and `makeImage`. */
  method Render(fracGrid: Grid<real>, gradient: ColorFunc, pattern: Pattern, moduleSize: int, hasAlpha: bool, ops: ColorOps)
    returns (r: Result<Image>)
    requires fracGrid.Valid() && fracGrid.width == fracGrid.height && fracGrid.width > 0
    requires WellFormed(gradient)
    ensures r == RenderedImage(fracGrid.storage, fracGrid.width, gradient, pattern, moduleSize, hasAlpha, ops)
  {
    var colorGrid := NewColorGrid(fracGrid, gradient, pattern, ops);
    var floatColors := colorGrid.Colors(c => c);
    assert colorGrid.storage == ImageColors(fracGrid.storage, fracGrid.width, gradient, pattern, ops);
    ComponentsInterleave(floatColors, colorGrid.storage);
    r := MakeImage(colorGrid.width, colorGrid.height, floatColors, moduleSize, hasAlpha);
  }

  // ---------------------------------------------------------------------
  // The whole pipeline

  /** The ages after the overlay, rescaled for every version but version 1. */
  function FinalAges(digest: seq<Byte>, version: Version, hash: seq<Byte> -> seq<Byte>,
                     normalize: seq<real> -> seq<real>): (r: seq<real>)
    requires |digest| == 32 && IsDigestFunction(hash) && PreservesLength(normalize)
    ensures |r| == GridLength(version) * GridLength(version)
  {
    var length := GridLength(version);
    var seed := Seed(digest, version, hash);
    var history := History(seed, length, MaxGenerations(version), hash);
    var ages := Ages(history, length * length);
    if version == Version1 then ages else normalize(ages)
  }

  /** The image `makeFromDigest` returns, or the error it throws. */
  function LifeHashImage(digest: seq<Byte>, version: Version, moduleSize: int, hasAlpha: bool,
                         hash: seq<Byte> -> seq<Byte>, normalize: seq<real> -> seq<real>, ops: ColorOps): (r: Result<Image>)
    requires IsDigestFunction(hash) && PreservesLength(normalize)
    ensures |digest| != 32 <==> r == Failure(InvalidDigestLength)
    ensures |digest| == 32 ==> (moduleSize == 0 <==> r == Failure(InvalidModuleSize))
  {
    if |digest| != 32 then Failure(InvalidDigestLength)
    else RenderedImage(FinalAges(digest, version, hash, normalize), GridLength(version),
                       ChosenGradient(digest, version, ops), ChosenPattern(digest, version),
                       moduleSize, hasAlpha, ops)
  }

  /** `makeFromDigest`. */
  method MakeFromDigest(digest: seq<Byte>, version: Version, moduleSize: int, hasAlpha: bool,
                        hash: seq<Byte> -> seq<Byte>, normalize: seq<real> -> seq<real>, ops: ColorOps)
    returns (r: Result<Image>)
    requires IsDigestFunction(hash) && PreservesLength(normalize)
    ensures r == LifeHashImage(digest, version, moduleSize, hasAlpha, hash, normalize, ops)
  {
    if |digest| != 32 {
      return Failure(InvalidDigestLength);
    }
    var length := GridLength(version);
    var maxGenerations := MaxGenerations(version);
    var seed := Seed(digest, version, hash);
    var history, currentCellGrid := RunGenerations(seed, length, maxGenerations, hash);
    var fracGrid := OverlayHistory(history, currentCellGrid);
    if version != Version1 {
      NormalizeAges(fracGrid, normalize);
    }
    var gradient, pattern := SelectColoring(digest, version, ops);
    r := Render(fracGrid, gradient, pattern, moduleSize, hasAlpha, ops);
  }

  /** The image side is 32 modules for versions 1 and 2 and the fiducial
      versions, and 64 for the detailed version. */
  function ImageSide(version: Version): nat
  {
    if version == Detailed then 64 else 32
  }

  /** A valid digest and a positive module size give a square image of
      `ImageSide(version) * moduleSize` pixels, 3 or 4 bytes each. */
  lemma ImageSize(digest: seq<Byte>, version: Version, moduleSize: int, hasAlpha: bool,
                  hash: seq<Byte> -> seq<Byte>, normalize: seq<real> -> seq<real>, ops: ColorOps)
    requires IsDigestFunction(hash) && PreservesLength(normalize)
    requires |digest| == 32 && moduleSize > 0
    ensures var r := LifeHashImage(digest, version, moduleSize, hasAlpha, hash, normalize, ops);
      r.Success? && r.value.width == r.value.height == ImageSide(version) * moduleSize &&
      |r.value.colors| == r.value.width * r.value.height * ComponentCount(hasAlpha) &&
      r.value.hasAlpha == hasAlpha
  {
    var pattern := ChosenPattern(digest, version);
    var side := Multiplier(pattern) * GridLength(version);
    assert side == ImageSide(version);
  }
}
