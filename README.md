# LifeHash (toucan) in Dafny

A model of the core of toucan, a Java implementation of LifeHash. LifeHash
turns a 32-byte SHA-256 digest into a small symmetric, coloured image.

- The digest (or hashes derived from it) seeds a toroidal Conway Game of Life
  board of 16x16 or 32x32 cells.
- The board is run until a board repeats or a generation cap is reached.
- Each cell's age (the last frame in which it was alive, as a fraction of the
  number of frames) gives a grey level in [0, 1].
- A gradient and a symmetry pattern, both chosen from bits of the digest,
  turn the ages into a colour grid.
- The colour grid is scaled by a module size into an RGB or RGBA byte image.

The model follows the Java classes one module per file:

| file | module | Java |
|---|---|---|
| Basics.dfy | `Basics` | shared types: `Byte` (`bv8`), `Point`, `Color`, `Version`, `Result`, the MSB-first bit order |
| Utils.dfy | `Utils` | `impl/Utils.java`: `clamped`, `lerpFrom`, hex encoding and decoding, `reverseBytes` |
| BitStream.dfy | `BitStream` | `impl/BitEnumerator.java`, `impl/BitAggregator.java` (classes) |
| Grid.dfy | `Grids` | `impl/Grid.java`: one generic class `Grid<T>` over a `seq<T>` storage |
| CellGrid.dfy, ChangeGrid.dfy, FracGrid.dfy, ColorGrid.dfy | `CellGrids`, `ChangeGrids`, `FracGrids`, `ColorGrids` | the `Grid` subclasses, as methods over `Grid<bool>`, `Grid<real>` and `Grid<Color>` |
| ColorFunc.dfy | `ColorFuncs` | `impl/ColorFunc.java`: gradients as a datatype with an `Apply` interpreter |
| Gradients.dfy | `Gradients` | `impl/Gradients.java`: gradient selection from the bit stream |
| Pattern.dfy | `Patterns` | `impl/Pattern.java` |
| Image.dfy | `Images` | `LifeHash.makeImage` and the `Image` record |
| LifeHash.dfy | `LifeHash` | `LifeHash.makeFromDigest`: seeding, the history loop, ages, colouring, rendering |

Classes whose state the Java updates in place are Dafny classes with
`modifies` frames:
- `BitEnumerator`, `BitAggregator` and `Grid`.
- The methods that drive them, such as `NextGeneration`, `SetChanged`,
  `Overlay`, `MakeImage` and `MakeFromDigest`.

Each such method is proved equal to a specification function, for example:
- `Life` and `LifeStep` for the simulation;
- `Pack` and `Unpack` for the bit packing;
- `History` for the history loop;
- `Ages` for the overlay;
- `ImageBytes` for `makeImage`;
- `LifeHashImage` for the whole pipeline.

Lemmas then prove what the program promises about those functions.

Error paths that throw in Java are `Failure` values of a `Result`:
- a digest that is not 32 bytes;
- module size 0;
- an odd-length or non-hex input to `decodeHex`;
- bit-stream underflow.

Two behaviours of the code that are easy to misread:
- **Bits read by `BitEnumerator`.** `hasNext`
  (`src/main/java/com/sparrowwallet/toucan/impl/BitEnumerator.java:14-16`)
  lets all 8 * len bits of the buffer through, the last bit of the last byte
  included. `BitStream.BitEnumerator.HasNext` states that.
- **Frame weights.** Frame i of N is overlaid with
  `clamped(lerpFrom(0, N, i + 1))`, which is (i + 1) / N
  (`src/main/java/com/sparrowwallet/toucan/LifeHash.java:133`). The weights
  therefore rise from frame to frame, and the last frame has weight 1
  (`LifeHash.FrameWeights`).

## Model

| member | source | states |
|---|---|---|
| Utils.Clamped | src/main/java/com/sparrowwallet/toucan/impl/Utils.java:25-27 | the result lies in [0, 1], equals n inside [0, 1], and is 0 below and 1 above |
| Utils.LerpFromEnds | src/main/java/com/sparrowwallet/toucan/impl/Utils.java:8-10 | `lerpFrom(a, b, t)` maps a to 0 and b to 1 and is strictly increasing in t when a < b |
| Utils.ByteValue | src/main/java/com/sparrowwallet/toucan/impl/Utils.java:38 | `b & 0xFF` is the unsigned value of the byte, in [0, 256) |
| Utils.BytesToHex | src/main/java/com/sparrowwallet/toucan/impl/Utils.java:35-43 | the loop produces the two-characters-per-byte encoding `HexEncoding`, of length 2n |
| Utils.HexEncodingAt | src/main/java/com/sparrowwallet/toucan/impl/Utils.java:39-40 | character 2i is the digit of the high nibble of byte i and character 2i+1 that of its low nibble |
| Utils.HexEncodingDigits | src/main/java/com/sparrowwallet/toucan/impl/Utils.java:33 | every character of the encoding is one of 0-9a-f |
| Utils.HexDigitDecodes | src/main/java/com/sparrowwallet/toucan/impl/Utils.java:33 | each character of the digit table decodes back to its own position |
| Utils.ToDigit | src/main/java/com/sparrowwallet/toucan/impl/Utils.java:71-77 | succeeds exactly on hex digits, with a value in [0, 16); otherwise fails naming the character and its index |
| Utils.DecodeHex | src/main/java/com/sparrowwallet/toucan/impl/Utils.java:49-69 | odd length fails (and only odd length fails with that error); an all-hex even-length input decodes to `HexDecoding`; any other failure names a non-hex character at its index |
| Utils.HexPairDecodes | src/main/java/com/sparrowwallet/toucan/impl/Utils.java:61-65 | decoding the two characters of byte i gives 16 * high + low, the byte's value |
| Utils.HexRoundTrip | src/main/java/com/sparrowwallet/toucan/impl/Utils.java:35-69 | `decodeHex(bytesToHex(b)) == b`: the encoding has even length, only hex digits, and decodes to the input |
| Utils.ReverseBytes | src/main/java/com/sparrowwallet/toucan/impl/Utils.java:79-84 | the loop computes `Reversed`, the same length with `r[i] == bytes[n-1-i]` |
| Utils.ReversedInvolution | src/main/java/com/sparrowwallet/toucan/impl/Utils.java:79-84 | reversing twice gives the input back, and reversal turns a concatenation around |
| Basics.MaskIsMasks | src/main/java/com/sparrowwallet/toucan/impl/BitEnumerator.java:29 | shifting 0x80 right j times gives the j-th entry of the mask table |
| Basics.MaskIsZero | src/main/java/com/sparrowwallet/toucan/impl/BitEnumerator.java:14-16 | the mask becomes 0 exactly after the eighth shift |
| Basics.BitAtByte | src/main/java/com/sparrowwallet/toucan/impl/BitEnumerator.java:28 | bit 8i+j of a buffer is `data[i] & (0x80 >> j) != 0`: most significant bit first, byte by byte |
| Basics.SetBitOfByte | src/main/java/com/sparrowwallet/toucan/impl/BitAggregator.java:22 | OR-ing a mask into a byte sets that bit and keeps every other bit |
| Basics.BuffersFromBits | src/main/java/com/sparrowwallet/toucan/impl/BitAggregator.java:28-34 | two buffers of the same length with the same bits are equal |
| BitStream.MaskIndex | src/main/java/com/sparrowwallet/toucan/impl/BitEnumerator.java:29 | every reachable mask is 0x80 >> k for some k <= 8 |
| BitStream.BitEnumerator.constructor | src/main/java/com/sparrowwallet/toucan/impl/BitEnumerator.java:8-12 | a new enumerator over a non-empty buffer has read no bits |
| BitStream.BitEnumerator.HasNext | src/main/java/com/sparrowwallet/toucan/impl/BitEnumerator.java:14-16 | true exactly while fewer than 8 * len bits have been read, so the last bit of the last byte is readable |
| BitStream.BitEnumerator.Next | src/main/java/com/sparrowwallet/toucan/impl/BitEnumerator.java:18-31 | the k-th read returns bit k of the buffer and advances by one; when all bits are read it reports underflow and does not move |
| BitStream.BitEnumerator.NextConfigurable | src/main/java/com/sparrowwallet/toucan/impl/BitEnumerator.java:33-42 | with enough bits left, consumes exactly `bits` bits and returns them OR-ed big-endian from `bitMask` down; otherwise underflow |
| BitStream.ReadBitsBound | src/main/java/com/sparrowwallet/toucan/impl/BitEnumerator.java:33-42 | the value assembled from a power-of-two mask is below twice that mask |
| BitStream.BitEnumerator.NextUint2 | src/main/java/com/sparrowwallet/toucan/impl/BitEnumerator.java:44-47 | consumes 2 bits and returns their value, in [0, 4) |
| BitStream.BitEnumerator.NextUint8 | src/main/java/com/sparrowwallet/toucan/impl/BitEnumerator.java:49-52 | consumes 8 bits and returns their value, in [0, 256) |
| BitStream.BitEnumerator.NextUint16 | src/main/java/com/sparrowwallet/toucan/impl/BitEnumerator.java:54-57 | consumes 16 bits and returns their value, in [0, 65536) |
| BitStream.BitEnumerator.NextFrac | src/main/java/com/sparrowwallet/toucan/impl/BitEnumerator.java:59-61 | consumes 16 bits and returns their value divided by 65535 |
| BitStream.FracAt | src/main/java/com/sparrowwallet/toucan/impl/BitEnumerator.java:59-61 | the fraction read at a position lies in [0, 1] |
| BitStream.BitAggregator.constructor | src/main/java/com/sparrowwallet/toucan/impl/BitAggregator.java:10-13 | a new aggregator holds no bytes, mask 0 and no bits |
| BitStream.BitAggregator.Append | src/main/java/com/sparrowwallet/toucan/impl/BitAggregator.java:15-26 | the appended bits grow by exactly `bit`; the byte count is ceil(n/8); a zero byte is added only when the mask is used up, and earlier bytes never change |
| BitStream.AppendedBits | src/main/java/com/sparrowwallet/toucan/impl/BitAggregator.java:21-25 | bit c lands at position c, bits before it are kept, and the unused bits of the last byte stay zero |
| BitStream.SetBitInByte | src/main/java/com/sparrowwallet/toucan/impl/BitAggregator.java:22 | OR-ing the mask into the last byte sets exactly that bit position |
| BitStream.BitAggregator.GetData | src/main/java/com/sparrowwallet/toucan/impl/BitAggregator.java:28-34 | returns the bytes in order and changes nothing |
| Grids.CircularIndexWraps | src/main/java/com/sparrowwallet/toucan/impl/Grid.java:39-41 | for i in [-1, m], `(i + m) % m` is in [0, m): -1 wraps to m-1, m to 0, and [0, m) is unchanged |
| Grids.PointOfOffset | src/main/java/com/sparrowwallet/toucan/impl/Grid.java:35-37 | an in-bounds point has an offset in [0, w*h) from which the point is recovered |
| Grids.OffsetOfPoint | src/main/java/com/sparrowwallet/toucan/impl/Grid.java:35-37 | every offset in [0, w*h) is the offset of exactly one in-bounds point |
| Grids.PointsUpToNext | src/main/java/com/sparrowwallet/toucan/impl/Grid.java:58-66 | the point list grows by the next point in row-major order |
| Grids.PointsAreRowMajor | src/main/java/com/sparrowwallet/toucan/impl/Grid.java:58-66 | `getPoints` lists w*h points, point i at offset i, no duplicates, and every in-bounds point |
| Grids.NeighborhoodShape | src/main/java/com/sparrowwallet/toucan/impl/Grid.java:68-80 | 9 pairs, offsets row-major over {-1,0,1}^2, positions wrapped and in bounds, only pair 4 has offset (0,0) and its position is p |
| Grids.NeighborhoodIsAdjacency | src/main/java/com/sparrowwallet/toucan/impl/Grid.java:68-80 | the neighbourhood positions are exactly the cells toroidally adjacent to p |
| Grids.AdjacentSymmetric | src/main/java/com/sparrowwallet/toucan/impl/Grid.java:68-80 | toroidal adjacency is symmetric |
| Grids.NeighborIsAdjacent | src/main/java/com/sparrowwallet/toucan/impl/Grid.java:68-80 | each neighbourhood position is adjacent to p |
| Grids.AdjacentIsNeighbor | src/main/java/com/sparrowwallet/toucan/impl/Grid.java:68-80 | each cell adjacent to p appears in p's neighbourhood |
| Grids.Grid.constructor | src/main/java/com/sparrowwallet/toucan/impl/Grid.java:20-29 | storage has width*height entries, each the default |
| Grids.Grid.SetAll | src/main/java/com/sparrowwallet/toucan/impl/Grid.java:43-47 | every cell holds the value |
| Grids.Grid.SetValue | src/main/java/com/sparrowwallet/toucan/impl/Grid.java:49-52 | the cell at y*width + x holds the value and every other cell is unchanged |
| Grids.Grid.GetPoints | src/main/java/com/sparrowwallet/toucan/impl/Grid.java:58-66 | the nested loops produce the row-major point list |
| Grids.Grid.GetNeighborhood | src/main/java/com/sparrowwallet/toucan/impl/Grid.java:68-80 | the nested loops produce the 9-pair wrapped neighbourhood |
| Grids.Grid.Colors | src/main/java/com/sparrowwallet/toucan/impl/Grid.java:82-95 | 3 * capacity components, the r, g, b of cell i at 3i, 3i+1, 3i+2 |
| CellGrids.RuleIsB3S23 | src/main/java/com/sparrowwallet/toucan/impl/CellGrid.java:34-40 | a cell is alive next exactly when it has 3 neighbours, or 2 and is alive |
| CellGrids.NeighborCountSkipsCentre | src/main/java/com/sparrowwallet/toucan/impl/CellGrid.java:48-50 | the (0,0) pair is never counted, so at most 8 of 9 pairs count |
| CellGrids.LiveNeighborsAtMostEight | src/main/java/com/sparrowwallet/toucan/impl/CellGrid.java:42-58 | a cell has at most 8 live neighbours |
| CellGrids.LiveNeighborsLocal | src/main/java/com/sparrowwallet/toucan/impl/CellGrid.java:42-58 | the count depends only on the cells in p's neighbourhood |
| CellGrids.CountNeighbors | src/main/java/com/sparrowwallet/toucan/impl/CellGrid.java:42-58 | the loop counts the live wrapped neighbours other than p itself, a value in [0, 8] |
| CellGrids.ChangesUpToFlags | src/main/java/com/sparrowwallet/toucan/impl/CellGrid.java:61-74 | after the loop a change flag is set exactly when some flagged cell in its neighbourhood flipped |
| CellGrids.ChangesUpToStep | src/main/java/com/sparrowwallet/toucan/impl/CellGrid.java:72-74 | one more visited point adds only the flags of that point's neighbourhood, if it flipped |
| CellGrids.NextGeneration | src/main/java/com/sparrowwallet/toucan/impl/CellGrid.java:60-79 | the next grid is the Life rule on flagged cells and a copy elsewhere; the next change grid marks the neighbourhoods of flagged cells that flipped; the current grids are untouched |
| CellGrids.AllChangedIsSound | src/main/java/com/sparrowwallet/toucan/LifeHash.java:108 | an all-true change grid is a sound starting point |
| CellGrids.SoundStepIsLife | src/main/java/com/sparrowwallet/toucan/impl/CellGrid.java:60-79 | when every unflagged cell would not change, the incremental step equals the full B3/S23 step |
| CellGrids.SoundPreserved | src/main/java/com/sparrowwallet/toucan/impl/CellGrid.java:60-79 | the step's change grid is again sound for the new cells |
| CellGrids.IncrementalIsLife | src/main/java/com/sparrowwallet/toucan/impl/CellGrid.java:60-79 | n incremental steps from a sound start give exactly n full Life generations |
| CellGrids.PackBits | src/main/java/com/sparrowwallet/toucan/impl/CellGrid.java:11-19 | packing gives ceil(n/8) bytes with bit k equal to cell k, padded with zeros |
| CellGrids.PackedFromBits | src/main/java/com/sparrowwallet/toucan/impl/CellGrid.java:11-19 | a buffer whose bits are the cells, zero-padded, is the packing |
| CellGrids.UnpackPack | src/main/java/com/sparrowwallet/toucan/impl/CellGrid.java:11-32 | `setData(getData())` gives the cells back (exactly, when the count is a multiple of 8) |
| CellGrids.PackUnpack | src/main/java/com/sparrowwallet/toucan/impl/CellGrid.java:11-32 | `getData()` after `setData(d)` gives d back |
| CellGrids.GetData | src/main/java/com/sparrowwallet/toucan/impl/CellGrid.java:11-19 | the cells packed row-major, most significant bit first |
| CellGrids.SetData | src/main/java/com/sparrowwallet/toucan/impl/CellGrid.java:21-32 | with capacity == 8 * len, cell i becomes bit i of the buffer |
| CellGrids.CellColor | src/main/java/com/sparrowwallet/toucan/impl/CellGrid.java:81-88 | live cells are white and dead cells black |
| ChangeGrids.NewChangeGrid | src/main/java/com/sparrowwallet/toucan/impl/ChangeGrid.java:4-22 | a new change grid has every flag false |
| ChangeGrids.SetChanged | src/main/java/com/sparrowwallet/toucan/impl/ChangeGrid.java:8-12 | sets exactly the 9 wrapped neighbourhood flags of p and leaves every other flag |
| ChangeGrids.MarkedMonotoneIdempotent | src/main/java/com/sparrowwallet/toucan/impl/ChangeGrid.java:8-12 | marking never clears a flag, and marking twice equals marking once |
| FracGrids.NewFracGrid | src/main/java/com/sparrowwallet/toucan/impl/FracGrid.java:3-24 | a new frac grid holds 0 everywhere |
| FracGrids.Overlay | src/main/java/com/sparrowwallet/toucan/impl/FracGrid.java:8-14 | live cells take the value, dead cells keep theirs (overwrite, never accumulate) |
| FracGrids.OverlayFramesLastAlive | src/main/java/com/sparrowwallet/toucan/LifeHash.java:131-135 | after overlaying frames in order, a cell holds the weight of the last frame it was alive in, or its old value if never |
| FracGrids.OverlayFramesBounded | src/main/java/com/sparrowwallet/toucan/LifeHash.java:131-135 | weights and start values in [0, 1] keep every value in [0, 1] |
| ColorFuncs.ColorLerp | src/main/java/com/sparrowwallet/toucan/impl/Color.java:41-47 | interpolated colours are always in gamut |
| ColorFuncs.ColorLerpEnds | src/main/java/com/sparrowwallet/toucan/impl/Color.java:41-47 | interpolation starts at the first colour, ends at the second, clamps t, and a colour blended with itself is unchanged |
| ColorFuncs.ReverseMirrors | src/main/java/com/sparrowwallet/toucan/impl/ColorFunc.java:8-15 | `reverse(c)` at v is c at 1 - v, and reversing twice is the identity |
| ColorFuncs.BlendList | src/main/java/com/sparrowwallet/toucan/impl/ColorFunc.java:26-55 | 0 colours give black-to-black, 1 a constant, 2 a two-stop blend, 3 or more a stop list |
| ColorFuncs.BlendListFewStops | src/main/java/com/sparrowwallet/toucan/impl/ColorFunc.java:28-34 | applied: 0 colours give black, 1 its colour, 2 the interpolation of the two |
| ColorFuncs.Segment | src/main/java/com/sparrowwallet/toucan/impl/ColorFunc.java:44-47 | for 0 < v < 1 the segment lies in [0, count-2] and segment + fraction == v*(count-1), so both list reads are in range |
| ColorFuncs.StopsPassThroughStops | src/main/java/com/sparrowwallet/toucan/impl/ColorFunc.java:36-53 | v >= 1 gives the last stop, v <= 0 the first, and v = k/(count-1) gives stop k |
| Patterns.PatternBits | src/main/java/com/sparrowwallet/toucan/impl/Pattern.java:10-20 | selection consumes at most one bit |
| Patterns.SelectPattern | src/main/java/com/sparrowwallet/toucan/impl/Pattern.java:10-20 | fiducial versions consume nothing; the others consume one bit; the result is `PatternAt`; underflow otherwise |
| Patterns.PatternChoice | src/main/java/com/sparrowwallet/toucan/impl/Pattern.java:10-20 | the pattern is FIDUCIAL exactly for the fiducial versions; otherwise bit 1 gives SNOWFLAKE and bit 0 PINWHEEL |
| ColorGrids.SnowflakeMirrors | src/main/java/com/sparrowwallet/toucan/impl/ColorGrid.java:8-13 | the snowflake transforms are identity, mirror in x, mirror in y, and both |
| ColorGrids.PinwheelTurns | src/main/java/com/sparrowwallet/toucan/impl/ColorGrid.java:15-20 | the pinwheel transforms are the four quarter turns, and four turns are the identity |
| ColorGrids.PreimageDraws | src/main/java/com/sparrowwallet/toucan/impl/ColorGrid.java:32-42 | every target cell is drawn by some in-bounds source cell under some transform |
| ColorGrids.ImageOfCell | src/main/java/com/sparrowwallet/toucan/impl/ColorGrid.java:59-74 | every transformed source cell is in bounds, lands in its transform's own quadrant, and has that cell and transform as its only preimage |
| ColorGrids.ImageOffsets | src/main/java/com/sparrowwallet/toucan/impl/ColorGrid.java:76-81 | one target offset per transform |
| ColorGrids.ImageOffsetsOfCell | src/main/java/com/sparrowwallet/toucan/impl/ColorGrid.java:76-81 | an offset is written by a cell's draw exactly when that cell is the offset's preimage |
| ColorGrids.ImageOffsetsOfIndex | src/main/java/com/sparrowwallet/toucan/impl/ColorGrid.java:37-41 | the same, by source index: the draws cover every target cell exactly once |
| ColorGrids.SourceIndex | src/main/java/com/sparrowwallet/toucan/impl/ColorGrid.java:32-42 | each target cell has one source cell; for FIDUCIAL it is the same cell |
| ColorGrids.WritesFillImage | src/main/java/com/sparrowwallet/toucan/impl/ColorGrid.java:54-57 | transforms times source cells equals target cells (x1 for FIDUCIAL, x2 per side otherwise) |
| ColorGrids.Draw | src/main/java/com/sparrowwallet/toucan/impl/ColorGrid.java:76-81 | writes the colour at every transformed point and nothing else |
| ColorGrids.DrawCell | src/main/java/com/sparrowwallet/toucan/impl/ColorGrid.java:37-41 | drawing cell i colours exactly the target cells whose source is i |
| ColorGrids.NewColorGrid | src/main/java/com/sparrowwallet/toucan/impl/ColorGrid.java:32-42 | the grid is the source size times the pattern multiplier, and every target cell holds the gradient at its source cell's value |
| Gradients.Wrap | src/main/java/com/sparrowwallet/toucan/impl/Gradients.java:87 | the gradient is wrapped in reverse exactly when the reversal bit is set |
| Gradients.FracPart | src/main/java/com/sparrowwallet/toucan/impl/Utils.java:29-31 | `modulo(x, 1)` of a non-negative x lies in [0, 1) |
| Gradients.Uint8At | src/main/java/com/sparrowwallet/toucan/impl/BitEnumerator.java:49-52 | eight bits read at a position form a value in [0, 256) |
| Gradients.Uint2At | src/main/java/com/sparrowwallet/toucan/impl/Gradients.java:285 | the family selector is in [0, 4) |
| Gradients.InsertPermutes | src/main/java/com/sparrowwallet/toucan/impl/Gradients.java:167 | inserting adds exactly that colour |
| Gradients.InsertKeepsSorted | src/main/java/com/sparrowwallet/toucan/impl/Gradients.java:167 | inserting into a luminance-sorted list keeps it sorted |
| Gradients.SortByLuminanceSorts | src/main/java/com/sparrowwallet/toucan/impl/Gradients.java:167 | the triadic sort is sorted by luminance and a permutation of its input |
| Gradients.FiducialStops | src/main/java/com/sparrowwallet/toucan/impl/Gradients.java:191-205 | four stops with the neutral colour at the insert index |
| Gradients.FiducialStopsOrder | src/main/java/com/sparrowwallet/toucan/impl/Gradients.java:191-205 | the three hues keep their order, each adjusted against the neutral or its neighbour as the index says |
| Gradients.NeutralIndexInRange | src/main/java/com/sparrowwallet/toucan/impl/Gradients.java:185 | `nextUint8() % 2 + 1` is 1 or 2, so the internal-error arms never run |
| Gradients.PlaceNeutral | src/main/java/com/sparrowwallet/toucan/impl/Gradients.java:191-205 | for insert index 1 or 2 (the only values `nextUint8() % 2 + 1` takes, so the internal-error arms are never reached) the in-place adjustments and the insertion give `FiducialStops` |
| Gradients.FiducialGradient | src/main/java/com/sparrowwallet/toucan/impl/Gradients.java:205-208 | the blend of the four stops, reversed when asked |
| Gradients.FiducialHues | src/main/java/com/sparrowwallet/toucan/impl/Gradients.java:181-183 | three hues, evenly stepped |
| Gradients.SelectGrayscale | src/main/java/com/sparrowwallet/toucan/impl/Gradients.java:15-17 | consumes one bit: 1 gives grayscale and 0 its reverse; underflow otherwise |
| Gradients.Monochromatic | src/main/java/com/sparrowwallet/toucan/impl/Gradients.java:65-88 | consumes 50 bits (frac, tint, reversed, frac, frac) and returns the family's gradient; underflow otherwise |
| Gradients.MonochromaticFiducial | src/main/java/com/sparrowwallet/toucan/impl/Gradients.java:90-100 | consumes 18 bits (frac, reversed, tint) |
| Gradients.Complementary | src/main/java/com/sparrowwallet/toucan/impl/Gradients.java:102-130 | consumes 49 bits |
| Gradients.ComplementaryFiducial | src/main/java/com/sparrowwallet/toucan/impl/Gradients.java:132-150 | consumes 19 bits |
| Gradients.Triadic | src/main/java/com/sparrowwallet/toucan/impl/Gradients.java:152-178 | consumes 49 bits |
| Gradients.TriadicFiducial | src/main/java/com/sparrowwallet/toucan/impl/Gradients.java:180-209 | consumes 26 bits |
| Gradients.Analogous | src/main/java/com/sparrowwallet/toucan/impl/Gradients.java:211-248 | consumes 33 bits |
| Gradients.AnalogousFiducial | src/main/java/com/sparrowwallet/toucan/impl/Gradients.java:250-278 | consumes 26 bits |
| Gradients.FamilyAt | src/main/java/com/sparrowwallet/toucan/impl/Gradients.java:287-313 | each family's gradient is well formed |
| Gradients.GradientAt | src/main/java/com/sparrowwallet/toucan/impl/Gradients.java:280-314 | the selected gradient is well formed |
| Gradients.SelectFamily | src/main/java/com/sparrowwallet/toucan/impl/Gradients.java:287-313 | dispatches on selector and version (hue source per version) and consumes the family's bit count |
| Gradients.SelectGradient | src/main/java/com/sparrowwallet/toucan/impl/Gradients.java:280-314 | returns `GradientAt` and consumes `GradientBits`; underflow otherwise |
| Gradients.GradientBitsBound | src/main/java/com/sparrowwallet/toucan/impl/Gradients.java:280-314 | selection consumes between 1 and 52 bits, and exactly 1 only for the grayscale fiducial |
| Images.Quantize | src/main/java/com/sparrowwallet/toucan/LifeHash.java:202-204 | values at or below 0 give byte 0, at or above 1 give 255, and a value in [0, 1] gives floor(x * 255), Java's truncation toward zero |
| Images.SourceOffsetInRange | src/main/java/com/sparrowwallet/toucan/LifeHash.java:196-198 | for a target pixel inside the image, the three source components are inside the colour list |
| Images.ByteCoordinates | src/main/java/com/sparrowwallet/toucan/LifeHash.java:200 | every byte offset k is (ty*scaledWidth + tx)*components + c for one in-range pixel and component |
| Images.PixelCopiesCell | src/main/java/com/sparrowwallet/toucan/LifeHash.java:194-207 | target pixel (tx, ty) copies the quantized colour of source cell (tx/m, ty/m); the alpha byte is 255 |
| Images.WritePixel | src/main/java/com/sparrowwallet/toucan/LifeHash.java:196-207 | one inner-loop iteration writes the expected bytes of its pixel at its offset |
| Images.AlphaAddsOpaqueByte | src/main/java/com/sparrowwallet/toucan/LifeHash.java:205-207 | with alpha every 4th byte is 255 and the colour bytes equal the non-alpha output |
| Images.UnscaledImage | src/main/java/com/sparrowwallet/toucan/LifeHash.java:194-204 | at module size 1 without alpha, byte k is the quantized component k |
| Images.ScaleRow | src/main/java/com/sparrowwallet/toucan/LifeHash.java:195-208 | after one row, every byte up to the row's end is final and the rest still 0 |
| Images.MakeImage | src/main/java/com/sparrowwallet/toucan/LifeHash.java:179-211 | module size 0 fails; otherwise a width*m by height*m image whose bytes are `ImageBytes` |
| Images.SwappedBoundsOverrun | src/main/java/com/sparrowwallet/toucan/LifeHash.java:194-195 | for a 2x1 grid the loops as written visit pixel (0, 1), whose source offset 6 is past the 6-entry list |
| Images.SwappedBoundsHarmlessOnSquares | src/main/java/com/sparrowwallet/toucan/LifeHash.java:194-195 | on square grids the swapped bounds visit exactly the image's pixels |
| LifeHash.VersionTable | src/main/java/com/sparrowwallet/toucan/LifeHash.java:62-72 | versions 1 and 2 use 16 and 150; the others 32 and 300 |
| LifeHash.Seed | src/main/java/com/sparrowwallet/toucan/LifeHash.java:85-106 | 8*|seed| is the grid capacity; version 1 seeds from the digest, version 2 from its hash, the 32x32 versions from d1, hash(d1), hash^2(d1), hash^3(d1) with d1 pre-hashed only for the grayscale fiducial |
| LifeHash.Generation | src/main/java/com/sparrowwallet/toucan/LifeHash.java:119 | each serialised generation has the seed's length |
| LifeHash.HistoryHashesNext | src/main/java/com/sparrowwallet/toucan/LifeHash.java:120-124 | recording a generation adds exactly its hash to the set |
| LifeHash.HistoryLengthFacts | src/main/java/com/sparrowwallet/toucan/LifeHash.java:110-128 | the loop stops at the cap or at the first generation whose hash is already recorded |
| LifeHash.HistoryShape | src/main/java/com/sparrowwallet/toucan/LifeHash.java:110-128 | between 1 and maxGenerations entries, the seed first, each entry one Life step after the previous, no repeated hash or board, and below the cap the next hash is already recorded |
| LifeHash.StopsAtRepeatedBoard | src/main/java/com/sparrowwallet/toucan/LifeHash.java:119-123 | for an injective hash, below the cap the next board is already in the history |
| LifeHash.GenerationsNext | src/main/java/com/sparrowwallet/toucan/LifeHash.java:125-127 | the generation list grows by the next generation |
| LifeHash.AdvanceBoards | src/main/java/com/sparrowwallet/toucan/LifeHash.java:111-127 | after one step the next grid holds Life generation n+1 and its change grid is sound |
| LifeHash.RunGenerations | src/main/java/com/sparrowwallet/toucan/LifeHash.java:74-128 | the loop's history equals `History` |
| LifeHash.FrameWeightIs | src/main/java/com/sparrowwallet/toucan/LifeHash.java:133 | frame k of N has weight (k+1)/N, in (0, 1] |
| LifeHash.FrameWeights | src/main/java/com/sparrowwallet/toucan/LifeHash.java:133 | weights are (i+1)/N, in (0, 1], strictly increasing, and the last is 1 |
| LifeHash.AgesAreLastAliveFrames | src/main/java/com/sparrowwallet/toucan/LifeHash.java:130-135 | a cell's age is (t+1)/N for the last frame t it was alive in, 0 if never, always in [0, 1] |
| LifeHash.OverlayHistory | src/main/java/com/sparrowwallet/toucan/LifeHash.java:130-135 | the overlay loop leaves the frac grid holding `Ages` |
| LifeHash.NormalizeAges | src/main/java/com/sparrowwallet/toucan/LifeHash.java:141-156 | the grid holds the normalised values |
| LifeHash.EntropySkip | src/main/java/com/sparrowwallet/toucan/LifeHash.java:159-170 | at most 2 bits are skipped |
| LifeHash.EntropyBudget | src/main/java/com/sparrowwallet/toucan/LifeHash.java:159-173 | skip + gradient + pattern bits is at most 55, under the 256 of the digest, so selection never underflows |
| LifeHash.ChosenGradient | src/main/java/com/sparrowwallet/toucan/LifeHash.java:172 | the chosen gradient is well formed |
| LifeHash.ChosenPattern | src/main/java/com/sparrowwallet/toucan/LifeHash.java:173 | the pattern is FIDUCIAL exactly for the fiducial versions |
| LifeHash.SelectColoring | src/main/java/com/sparrowwallet/toucan/LifeHash.java:159-173 | skips the version's bits, then selects the gradient and then the pattern from the same digest |
| LifeHash.Components | src/main/java/com/sparrowwallet/toucan/impl/Grid.java:82-95 | three components per colour |
| LifeHash.ComponentsInterleave | src/main/java/com/sparrowwallet/toucan/impl/Grid.java:82-95 | a list with each colour's r, g, b at 3i, 3i+1, 3i+2 is the component list |
| LifeHash.ImageColors | src/main/java/com/sparrowwallet/toucan/impl/ColorGrid.java:32-42 | the coloured grid has (multiplier*n)^2 cells |
| LifeHash.RenderedImage | src/main/java/com/sparrowwallet/toucan/LifeHash.java:174-176 | fails exactly for module size 0; a success is square with side multiplier*n*m |
| LifeHash.Render | src/main/java/com/sparrowwallet/toucan/LifeHash.java:174-176 | building the colour grid and calling `makeImage` gives `RenderedImage` |
| LifeHash.FinalAges | src/main/java/com/sparrowwallet/toucan/LifeHash.java:130-156 | capacity ages, normalised unless version 1 |
| LifeHash.LifeHashImage | src/main/java/com/sparrowwallet/toucan/LifeHash.java:54-176 | fails exactly for a digest that is not 32 bytes, and then exactly for module size 0 |
| LifeHash.MakeFromDigest | src/main/java/com/sparrowwallet/toucan/LifeHash.java:54-177 | the imperative pipeline returns `LifeHashImage` |
| LifeHash.ImageSize | src/main/java/com/sparrowwallet/toucan/LifeHash.java:54-211 | a valid digest and positive module size give a square image of side 32*m (64*m for DETAILED) with 3 or 4 bytes per pixel |

## Left out

- Colour arithmetic is not modelled. This covers `Color.lerpTo` as used inside gradients, `lighten`, `darken`, `burn`, `luminance`, `makeHue` (HSBColor.java) and `adjustForLuminance` in Gradients.java. These are IEEE double computations and are passed in as the uninterpreted `ColorFuncs.ColorOps`. `ColorFuncs.ColorLerp` is a reference definition of `lerpTo` on reals, used only for properties of two-stop blends.
- Doubles are modelled as `real`. Rounding, NaN and infinities are not modelled. The hue offsets computed with `modulo` and `%` are kept only as their results, not as IEEE remainders.
- LifeHash.NormalizeAges: the min-max normalisation of the frac grid is a parameter `normalize` that only has to preserve length. The Java version starts the maximum at `Double.MIN_VALUE` and divides by zero (giving NaN) when every age is equal; neither is modelled.
- LifeHash.Seed: SHA-256 (`Sha256Hash`) is a parameter `hash` that returns 32 bytes. The history set stores `hash(board)`, as the Java does. Only `StopsAtRepeatedBoard` assumes the hash is injective.
- Images.Quantize: `(byte)(clamped(x) * 255)` is the floor of the clamped real times 255. For non-negative values this is Java's truncation; the rounding of the double product is not modelled.
- Java's 32-bit `int` overflow is not modelled. For example, `scaledCapacity` overflows for very large module sizes; integers here are unbounded.
- Images.MakeImage: a negative module size is not rejected by the Java either. The model keeps that: the image has negative sides, its bytes are all 0, and nothing is written.
- `getBufferedImage` is not modelled. It is AWT output plumbing.
- `makeFromUTF8` and `makeFromData` are not modelled. They only encode a string as UTF-8 and hash it before calling `makeFromDigest`.
- HSBColor.java is not part of this model. The HSB hue circle used by version 1 is `ColorOps.makeHue`.
- `Character.digit` also accepts non-ASCII Unicode digits. `Utils.ToDigit` accepts only ASCII `0-9a-fA-F`.
- BitStream.BitEnumerator.constructor requires a non-empty buffer. On an empty buffer the Java `hasNext` answers true and `next` indexes past the end (an `ArrayIndexOutOfBoundsException`). No caller passes one.
- ColorGrids.NewColorGrid requires a square, non-empty source grid. LifeHash only ever builds 16x16 and 32x32 grids.
- CellGrids.GetData, CellGrids.NextGeneration, FracGrids.Overlay and Grids.Grid.GetPoints require a grid of positive width, and Grids.Grid.GetNeighborhood a grid of positive width and height, as every grid LifeHash builds has. For a zero width the Java `getPoints` returns an empty list, and `circularIndex` in `getNeighborhood` divides by zero; neither case is modelled.
- BitStream.BitEnumerator.NextConfigurable requires a power-of-two start mask; every caller passes 2, 0x80 or 0x8000, for which OR-ing the masks in equals adding them, which is how `ReadBits` accumulates. Other masks, which the public Java method accepts, are not modelled.
- CellGrids.SetData requires `capacity == 8 * len`, the Java `assert`. It is stated as a precondition rather than an `AssertionError`.
- The `colorForValue` overrides of `ChangeGrid` and `FracGrid` are debug colourings and are not modelled. `Grids.Grid.Colors` takes the mapping as a parameter.
- The `System.arraycopy` concatenation of the four digests is modelled as a sequence value in `LifeHash.Seed`.
- Gradients.Monochromatic, Gradients.Complementary, Gradients.Triadic, Gradients.Analogous and their fiducial variants: their contracts fix the bits read, their order and the gradient built from them in terms of `ColorOps`. What the resulting colours look like is not modelled.

## Findings

| source | as written | input that shows it | evidently intended | confidence | as-written member | corrected member |
|---|---|---|---|---|---|---|
| src/main/java/com/sparrowwallet/toucan/LifeHash.java:194-195 | the outer loop runs `targetY < scaledWidth` and the inner loop `targetX < scaledHeight`: the bounds are swapped | width 2, height 1, moduleSize 1: pixel (0, 1) is visited, and its source offset (1 * 2 + 0) * 3 = 6 reads past the 6-entry colour list | `targetY < scaledHeight` and `targetX < scaledWidth` | not executed | Images.SwappedBoundsOverrun | Images.MakeImage |

LifeHash itself renders only square colour grids. On square grids the two
loop orders visit the same pixels (`Images.SwappedBoundsHarmlessOnSquares`),
so the images it produces are unaffected. `Images.MakeImage` loops with the
intended bounds.
