# Photo-mosaic builder, modelled in Dafny

The photo-mosaic builder turns a square pattern image of `desiredSize × desiredSize`
pixels and a set of small candidate pictures into a mosaic. It works in four steps:

- Each candidate picture is loaded and reduced to its mean colour (`AddImage`).
- The pattern is cut into a `⌈√n⌉ × ⌈√n⌉` grid of cells, where `n` is the number of
  candidates. The side of a cell is `desiredSize / ⌈√n⌉` pixels. Each cell gets the mean
  colour of its block of pattern pixels (`AnalyzeCells`).
- A centre-out square spiral visits the cells (`SpiralLoopPattern`). Each visited cell
  takes the remaining candidate whose colour is closest to the cell's colour. That
  candidate is removed from the working list. Once the list is empty, the cell's block
  is painted with the cell's own colour instead (`CreateImage`).
- Pixel blocks are written into a flat BGRA byte buffer (`ImageExtensions`).

The project has three modules, one per source file:

- `LoopPatterns.dfy`:
  - the column-major loop and the spiral walk, each as a class whose `Execute` method
    returns the sequence of cells it hands to its callback;
  - the walker state machine `(x, y, dx, dy)` as functions, with a closed form for
    each ring of the spiral;
  - the proofs of what the walk covers.
- `ImageExtensions.dfy`:
  - the two block writers as methods over an `array<byte>`;
  - each is specified by a function of the old buffer contents;
  - lemmas on which bytes change, to which channel, and which stay the same.
- `MosaicImage.dfy`:
  - `ColorValue` and `ImageData` as datatypes;
  - `MinBy` and the greedy assignment as functions;
  - the averaging loops as methods;
  - the `MosaicImage` class, with fields `images`, `imageCells`, `imagesPerRow` and
    `avatarSize` that its methods update.
  - `CreateImage` is proved equal to a functional description of the whole mosaic
    (`Mosaic`). It succeeds or fails exactly as the source does.

The source shows that the spiral is meant to cover exactly the cells
`[0, imagesPerRow) × [0, imagesPerRow)`:
- `AnalyzeCells` gives colours only to those cells (src/CreateMosaicImage/MosaicImage.cs:156-158).
- Only the `+ 1` in the array's dimensions (src/CreateMosaicImage/MosaicImage.cs:151) keeps the
  read of `imageCells[W, W]` in range.

The walk itself does something else. It filters positions relative to the centre
(src/CreateMosaicImage/LoopPatterns.cs:79-82). For even sides it therefore never visits row or
column 0, and it does visit index `side`. The model follows the code:
- `LoopPatterns.OddSpiralCoversGridOnce` proves that an odd side covers the grid exactly once.
- `LoopPatterns.EvenSpiralMissesZeroReachesSide` proves the even-side behaviour.
- The consequence for the mosaic is listed under "## Findings".

## Model

| member | source | states |
|---|---|---|
| LoopPatterns.LoopPattern.constructor | src/CreateMosaicImage/LoopPatterns.cs:36-43 | the pattern keeps the given width and height |
| LoopPatterns.LoopPattern.Execute | src/CreateMosaicImage/LoopPatterns.cs:45-54 | the visited cells are column by column, x outer and y inner |
| LoopPatterns.ColumnMajorExactlyOnce | src/CreateMosaicImage/LoopPatterns.cs:47-53 | the plain loop makes Width*Height calls, each cell of [0,Width)×[0,Height) exactly once and nothing else |
| LoopPatterns.ColumnMajorIndex | src/CreateMosaicImage/LoopPatterns.cs:47-53 | cell (x, y) is the call number x*Height + y |
| LoopPatterns.SpiralLoopPattern.constructor | src/CreateMosaicImage/LoopPatterns.cs:62-66 | the spiral keeps the given width and height |
| LoopPatterns.SpiralLoopPattern.Execute | src/CreateMosaicImage/LoopPatterns.cs:68-90 | the cells handed over are the walker positions of the first max(Width,Height)² steps that pass the centre-relative filter, shifted by the centre |
| LoopPatterns.DirectionIsUnitAxis | src/CreateMosaicImage/LoopPatterns.cs:84-87 | after any number of steps the direction is one of (0,±1), (±1,0) |
| LoopPatterns.UnitStep | src/CreateMosaicImage/LoopPatterns.cs:84-88 | each iteration moves (x, y) by exactly one unit axis step |
| LoopPatterns.RingStartIsSquare | src/CreateMosaicImage/LoopPatterns.cs:70-88 | ring k of the walk is entered at iteration (2k-1)² |
| LoopPatterns.WalkerOnRing | src/CreateMosaicImage/LoopPatterns.cs:70-88 | the closed form of WalkerAt: at iteration (2k-1)² + j the walker is at position j of ring k, going up the right side, left along the top, down the left side and right along the bottom |
| LoopPatterns.EmittedWithinCentreBox | src/CreateMosaicImage/LoopPatterns.cs:74-81 | every emitted point has Width/2 - Width/2 ≤ X ≤ Width/2 + Width/2, and likewise for Y with Height |
| LoopPatterns.EmittedStartsAtCentre | src/CreateMosaicImage/LoopPatterns.cs:70-81 | the first point handed over is the centre (Width/2, Height/2) |
| LoopPatterns.OddSpiralCoversGridOnce | src/CreateMosaicImage/LoopPatterns.cs:70-89 | for an odd square side, the spiral hands over side² cells, each cell of the grid exactly once |
| LoopPatterns.EvenSpiralMissesZeroReachesSide | src/CreateMosaicImage/LoopPatterns.cs:70-89 | for an even square side ≥ 2, every cell handed over has 1 ≤ X, Y ≤ side, so row and column 0 are never visited; (side, side) and (side, 1) are visited |
| LoopPatterns.TwoByTwoSpiral | src/CreateMosaicImage/LoopPatterns.cs:70-89 | for a 2×2 grid the spiral hands over (1,1), (2,1), (2,2), (1,2) in that order |
| LoopPatterns.SpiralLoopPattern.ExecuteWithinGrid | src/CreateMosaicImage/LoopPatterns.cs:68-90 | the corrected walk: whole rings out to the larger half-side, filtered to [0,Width)×[0,Height) |
| LoopPatterns.SpiralGridCoversGridOnce | src/CreateMosaicImage/LoopPatterns.cs:68-90 | the corrected walk starts at the centre and hands over every cell of any grid exactly once, and nothing outside it |
| ImageExtensions.DrawImageToByteArray | src/CreateMosaicImage/ImageExtensions.cs:11-29 | the buffer afterwards is DrawnImage of the old buffer: pixel (x, y) of the image lands at ((oy+y)*destWidth + ox+x)*4; the length is unchanged; the precondition is that the last write is in bounds |
| ImageExtensions.DrawnImagePixel | src/CreateMosaicImage/ImageExtensions.cs:13-27 | the four bytes of each source pixel hold its B, G, R, A in that order |
| ImageExtensions.DrawColorToByteArray | src/CreateMosaicImage/ImageExtensions.cs:34-50 | the buffer afterwards is FilledBlock of the old buffer: every pixel of the block is overwritten, nothing else changes, and the length is unchanged |
| ImageExtensions.FilledBlockPixel | src/CreateMosaicImage/ImageExtensions.cs:36-48 | each pixel of the srcWidth×srcHeight block holds r, g, b, 255 at offsets 0..3 |
| ImageExtensions.FilledBlockIdempotent | src/CreateMosaicImage/ImageExtensions.cs:36-48 | filling the same block twice gives the same buffer as filling it once |
| ImageExtensions.BlockIsRectangle | src/CreateMosaicImage/ImageExtensions.cs:17-22 | when ox + w ≤ destWidth, a byte belongs to the written set exactly when its pixel lies in the rectangle [ox, ox+w)×[oy, oy+h) |
| ImageExtensions.BlockWrapsPastRowEnd | src/CreateMosaicImage/ImageExtensions.cs:17-22 | when 1 ≤ w ≤ destWidth < ox + w, the block is not its rectangle: some written pixel lies outside rows oy..oy+h-1 or columns ox..ox+w-1. This includes a block that starts at or past the row end |
| MosaicImage.ColorValue.Length | src/CreateMosaicImage/MosaicImage.cs:32-35 | the length is a sum of squares and is never negative |
| MosaicImage.ColorValue.Minus | src/CreateMosaicImage/MosaicImage.cs:37-40 | adding the subtrahend back channel by channel gives the original colour; the difference is black exactly when the two colours are equal |
| MosaicImage.MinusSelfIsBlack | src/CreateMosaicImage/MosaicImage.cs:37-40 | a colour minus itself is black, of length 0 |
| MosaicImage.ColorValue.CompareTo | src/CreateMosaicImage/MosaicImage.cs:27-30 | the answer is 1 or -1, never 0; it is 1 exactly when `<=` does not hold |
| MosaicImage.CompareToSelfIsLess | src/CreateMosaicImage/MosaicImage.cs:27-30 | a colour compared with itself answers -1 although `<=` and `>=` both hold |
| MosaicImage.ColorValue.LessOrEqual | src/CreateMosaicImage/MosaicImage.cs:42 | `a <= b` holds exactly when `b >= a` does; for any two colours `a <= b` or `a >= b` |
| MosaicImage.ColorValue.GreaterOrEqual | src/CreateMosaicImage/MosaicImage.cs:43 | `a >= b` holds whenever b is no longer than a, in particular for a >= a |
| MosaicImage.ComparisonsTotal | src/CreateMosaicImage/MosaicImage.cs:42-43 | `<=` or `>=` always holds; both hold exactly when the lengths are equal |
| MosaicImage.ImageData.CompareTo | src/CreateMosaicImage/MosaicImage.cs:60-63 | delegates to the colour comparison and never answers 0 |
| MosaicImage.ToByte | src/CreateMosaicImage/MosaicImage.cs:243 | `(byte)(v * 255)` for v in [0,1] is the largest byte not above v*255 |
| MosaicImage.Distance | src/CreateMosaicImage/MosaicImage.cs:218 | the absolute value is redundant: the distance is the length of the difference and is non-negative |
| MosaicImage.MinBy | src/CreateMosaicImage/MosaicImage.cs:218 | the index picked is in the list, its distance is minimal, and every earlier element is strictly farther |
| MosaicImage.RemoveAt | src/CreateMosaicImage/MosaicImage.cs:222 | removal drops exactly that one candidate: one shorter, and the multiset loses exactly it |
| MosaicImage.Greedy | src/CreateMosaicImage/MosaicImage.cs:215-229 | the candidates handed to the cells in visiting order: as many as cells and candidates allow, min(cells, candidates) |
| MosaicImage.Leftover | src/CreateMosaicImage/MosaicImage.cs:215-229 | the candidates still in the list after the cells are served: one fewer for each image-filled cell |
| MosaicImage.GreedyUsesEachAtMostOnce | src/CreateMosaicImage/MosaicImage.cs:215-229 | the candidates used plus those left over are exactly the original candidates; min(cells, candidates) are used; the list shrinks by one per image-filled cell |
| MosaicImage.GreedyChoosesClosest | src/CreateMosaicImage/MosaicImage.cs:215-229 | the k-th image-filled cell gets the MinBy choice among the candidates still left, at least as close as any of them |
| MosaicImage.CeilSqrt | src/CreateMosaicImage/MosaicImage.cs:148 | imagesPerRow is the least k with k*k ≥ the number of images |
| MosaicImage.CeilSqrtExamples | src/CreateMosaicImage/MosaicImage.cs:148 | ⌈√n⌉ for n = 0, 1, 10, 16, 17 is 0, 1, 4, 4, 5 |
| MosaicImage.CellSize | src/CreateMosaicImage/MosaicImage.cs:149 | for 1 ≤ imagesPerRow ≤ desiredSize, 1 ≤ avatarSize and avatarSize * imagesPerRow ≤ desiredSize |
| MosaicImage.BlockSum | src/CreateMosaicImage/MosaicImage.cs:163-180 | the sum of one channel over a w×h block, each byte divided by 255, lies in [0, w*h] |
| MosaicImage.BlockMean | src/CreateMosaicImage/MosaicImage.cs:182 | the per-channel mean of a non-empty block is a colour with channels in [0,1] |
| MosaicImage.SumBlock | src/CreateMosaicImage/MosaicImage.cs:103-119 | the accumulator loops compute the three channel sums of BlockSum and count w*h pixels |
| MosaicImage.SumColumn | src/CreateMosaicImage/MosaicImage.cs:105-118 | the inner loop over one column adds that column's three channel sums and h to the pixel count |
| MosaicImage.ImageMean | src/CreateMosaicImage/MosaicImage.cs:103-121 | the whole-image mean colour has channels in [0,1] |
| MosaicImage.CellMean | src/CreateMosaicImage/MosaicImage.cs:160-182 | the colour stored for a cell has channels in [0,1] |
| MosaicImage.MosaicImage.constructor | src/CreateMosaicImage/MosaicImage.cs:75-84 | the builder starts with no images, keeps the pattern and size, and requires the pattern to be desiredSize square |
| MosaicImage.MosaicImage.AddImage | src/CreateMosaicImage/MosaicImage.cs:100-125 | exactly one entry, holding the whole-image mean and the path, is added iff the load succeeded; the result is always null |
| MosaicImage.MosaicImage.AnalyzeCells | src/CreateMosaicImage/MosaicImage.cs:146-185 | imagesPerRow is ⌈√n⌉ and avatarSize = desiredSize / imagesPerRow; with no images it fails with a division by zero; otherwise the (imagesPerRow+1)² grid holds each cell's block mean, row and column imagesPerRow stay black, and every cell block lies inside the pattern |
| MosaicImage.MosaicImage.FillCells | src/CreateMosaicImage/MosaicImage.cs:156-184 | the two cell loops give every cell (i, j) with i, j < imagesPerRow its CellMean; row and column imagesPerRow stay black |
| MosaicImage.MosaicImage.AnalyzeCell | src/CreateMosaicImage/MosaicImage.cs:160-182 | the colour computed for one cell is its CellMean |
| MosaicImage.DrawCellPixel | src/CreateMosaicImage/MosaicImage.cs:225-244 | after a cell is drawn, each pixel of its block holds the chosen avatar's B, G, R, A, or, when no candidate is left, bytes B*255, G*255, R*255, 255 of the cell colour |
| MosaicImage.Paint | src/CreateMosaicImage/MosaicImage.cs:207-246 | painting the visited cells keeps the buffer length; it fails with IndexOutOfRange exactly when some visited cell's block leaves the buffer |
| MosaicImage.MosaicImage.Mosaic | src/CreateMosaicImage/MosaicImage.cs:203-250 | a successful mosaic is desiredSize×desiredSize over desiredSize²*4 bytes; it fails only with IndexOutOfRange, exactly when a visited block leaves the buffer |
| MosaicImage.PaintStep | src/CreateMosaicImage/MosaicImage.cs:208-246 | one callback step: a visited block that leaves the buffer fails the whole walk; one that fits is drawn with the MinBy choice for its cell, and the rest of the walk continues from that buffer with that candidate removed |
| MosaicImage.PaintWalk | src/CreateMosaicImage/MosaicImage.cs:203-248 | the callback, reading each cell's colour from the colour array, run over the visit order on a fresh all-zero buffer gives exactly Paint of that order with the greedy choices |
| MosaicImage.PaintCell | src/CreateMosaicImage/MosaicImage.cs:215-244 | with candidates left, the MinBy one is removed and drawn into the cell; with none, the cell is filled with its own colour and the list stays empty |
| MosaicImage.DrawAvatar | src/CreateMosaicImage/MosaicImage.cs:224-229 | the chosen candidate's loaded, avatar-sized image is copied into the cell's block |
| MosaicImage.DrawFallback | src/CreateMosaicImage/MosaicImage.cs:237-244 | the cell's block is filled with its colour's B, G, R bytes (each channel times 255, truncated) and alpha 255 |
| MosaicImage.MosaicImage.DrawCells | src/CreateMosaicImage/MosaicImage.cs:203-250 | running the callback over the builder's cells and candidates along the visit order gives exactly Mosaic of that order |
| MosaicImage.MosaicImage.CreateImage | src/CreateMosaicImage/MosaicImage.cs:190-251 | with no images it fails with NotSupported; otherwise it is Mosaic of the as-written spiral; odd imagesPerRow always succeeds with a desiredSize² image; even imagesPerRow succeeds iff (imagesPerRow+1)*avatarSize ≤ desiredSize |
| MosaicImage.MosaicImage.CreateImageWithinGrid | src/CreateMosaicImage/MosaicImage.cs:190-251 | with the corrected spiral, any non-empty set of images gives a desiredSize×desiredSize image |
| MosaicImage.BlockFitsWithin | src/CreateMosaicImage/MosaicImage.cs:212-213 | a cell inside the imagesPerRow grid has its whole block inside the buffer |
| MosaicImage.CornerBlockOverruns | src/CreateMosaicImage/MosaicImage.cs:212-213 | when (n+1)*avatarSize > desiredSize, the block of cell (n, n) leaves the buffer |
| MosaicImage.OddWalkFits | src/CreateMosaicImage/MosaicImage.cs:207-229 | for odd imagesPerRow every block of the as-written spiral fits |
| MosaicImage.EvenWalkFitsIff | src/CreateMosaicImage/MosaicImage.cs:207-229 | for even imagesPerRow every block of the as-written spiral fits iff (imagesPerRow+1)*avatarSize ≤ desiredSize |
| MosaicImage.FourImagesOverrunFourPixels | src/CreateMosaicImage/MosaicImage.cs:148-149 | with 4 images and desiredSize 4, imagesPerRow = 2 and avatarSize = 2. The walk visits (1,1) first, whose block fits, then (2,1). That block is drawn at pixel (4, 2) and overruns: its pixel (0, 1) lands on byte 64 of the 64-byte buffer. Cell (2, 2) would start at byte 80 |

## Left out

- Loading and resizing images (`Image.Load`, `Resize`) are library calls. The model takes
  them as a `load` function from file name to an `avatarSize × avatarSize` image.
  `AddImage` takes the load result as an `Option`, with `None` for an image that failed
  to load.
- The `Image` constructor's channel order is not modelled either. Pixels are taken as
  row-major RGBA bytes, which is how the source indexes them.
- `async` and the concurrent bag of images are concurrency. `images` is a plain sequence
  in insertion order. The order of the bag only affects which candidate wins a tie in
  `MinBy`.
- `MinBy` is a library call. The model assumes it returns the first element of minimal
  distance.
- `ShuffleImages` is left out: it uses randomness and exists only for debugging.
- The `Debugger.Break` branch is left out because it cannot be reached: `MinBy` of a
  non-empty list never returns null.
- Floating-point rounding is not modelled. `double` and `float` are exact reals.
  `Math.Ceiling(Math.Sqrt(n))` is the exact integer ceiling square root.
- `AddImage` requires a loaded image to be non-empty. An empty image would divide 0 by
  0 and give NaN colours.
- `AnalyzeCells` requires ⌈√n⌉ ≤ desiredSize. Otherwise `avatarSize` is 0 and the cells
  get NaN colours.
- 32-bit overflow is not modelled. This covers the spiral's `t * t`, the byte offsets, and
  `desiredSize * desiredSize * 4`. Sizes are `nat`, so negative sizes are not modelled.
- `DrawImageToByteArray` requires the image to be no wider than the destination, and
  requires its last write to be in bounds. `DrawColorToByteArray` likewise requires
  `srcWidth <= destWidth` and its last write in bounds. The source checks none of these,
  and the model does not capture an out-of-range write inside either writer. The one
  caller, `CreateImage`, passes `avatarSize <= desiredSize` as the width. It checks the
  bounds per cell, and an overrun becomes `Failure(IndexOutOfRange)`.
- When `CreateImage` fails, the model does not capture the bytes written before the
  exception.
- The model collects the spiral's points first, then runs the callback on them in order.
  This is equivalent because the walk does not depend on what the callback does.
- The `AnalyzeImage` stub is left out; it only throws "not implemented".
- The command-line program and the follower downloaders are I/O and network glue, and
  are not part of this model.
- MosaicImage.ColorValue.Length: states only that the length is non-negative, not that it
  is zero exactly for black.

## Findings

| source | as written | input that shows it | evidently intended | confidence | as-written member | corrected member |
|---|---|---|---|---|---|---|
| src/CreateMosaicImage/LoopPatterns.cs:70-82 | the spiral runs max(Width,Height)² steps and keeps the points within Width/2 of the centre. For an even side the walk stops partway round the last ring: it never visits row or column 0 but does visit index Width. `CreateImage` then reads `imageCells[W, W]`, which exists only because of the `+ 1` at src/CreateMosaicImage/MosaicImage.cs:151, and writes that cell's block past the end of the buffer whenever (W+1)*avatarSize > desiredSize | 4 images and desiredSize 4: imagesPerRow = 2, avatarSize = 2; the spiral visits (1,1), (2,1), (2,2), (1,2); the first cell (1,1) fits; the second, (2,1), is drawn at pixel (4, 2), already past the row end, and its pixel (0, 1) falls on byte ((2+1)*4+4)*4 = 64 of the 64-byte buffer, so that write throws IndexOutOfRangeException before cell (2,2), which would start at byte 80, is reached | every cell of the [0,W)×[0,W) grid is visited exactly once, and the mosaic is always produced for a non-empty set of images | not executed | MosaicImage.MosaicImage.CreateImage | MosaicImage.MosaicImage.CreateImageWithinGrid |
