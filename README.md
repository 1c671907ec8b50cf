# Riemersma dithering in diig, modelled in Dafny

diig turns a photo into a black-and-white picture. It takes a greyscale RGBA bitmap and applies Riemersma dithering. The `Riemersma` object owns the bitmap. The first time `getDitheredImage` is called, it does three things:

- It computes a weight ramp.
- It walks a Hilbert curve over the smallest power-of-two square that holds the image.
- At every step inside the image, it corrects the pixel's luminance by a weighted sum of the last 48 quantisation errors, thresholds it at one half, writes the pixel back black or white, and records the new error.

The bitmap is changed in place. Later calls return it unchanged. `ImageTransformations.getPixelLuminance` reads one pixel back. It rejects pixels that are not opaque and pixels that are not grey. `UIImage.pixelLuminance` maps any such error to -1.

The model has six modules:

- `Squares`: grid cells, squares, quadrants, and what it means for a list of cells to tile a square.
- `HilbertCurve`: the direction type and unit moves. Also the curve level, the recursive move sequence with its rotation table, its length, its net displacement, and the proof that the curve visits every cell of its square exactly once.
- `Pixels`: the RGBA byte layout, the byte written by `saveLuminance`, the validator `getPixelLuminance`, its errors and the -1 wrapper.
- `ErrorWindow`: the weight ramp, the weighted error sum, the threshold, and the 48-entry first-in first-out error window.
- `DitherRun`: a run of the ditherer as functions of a snapshot of its state, as bitmap, cursor and error window. It covers what one move does, what a run of moves does, which moves `getDitheredImage` makes, and that the result is a black-and-white image.
- `RiemersmaDitherer`: the class `Riemersma` itself. Its fields are those of the source and its methods update them in place. Each method is proved against the `DitherRun` functions through the ghost views `Config()` and `State()`. The invariant `Valid()` has two cases: before the first run the cursor is at the top-left pixel with an all-zero 48-entry error window; after it, every pixel of the image is black or white.

## Model

| member | source | states |
|---|---|---|
| RiemersmaDitherer.Riemersma.constructor | diig/Riemersma.swift:28-39 | Starts undithered, with the cursor at (0, 0) and all-zero weights and errors of 48 entries each. The bitmap must hold 4·width·height bytes. |
| RiemersmaDitherer.Riemersma.GetDitheredImage | diig/Riemersma.swift:41-63 | On the first call: the weights become the ramp, and the new state is the run of `DitherMoves` from the old state. The bitmap becomes `DitheredData` and every pixel of the image is black or white. On a later call nothing changes. The same bitmap is always returned. |
| RiemersmaDitherer.Riemersma.InitWeights | diig/Riemersma.swift:65-73 | The loop leaves weights[i] = m^i + 0.5 for i < 48. Cursor, errors and flag are unchanged. |
| RiemersmaDitherer.Riemersma.GetLuminance | diig/Riemersma.swift:75-79 | Returns the red byte at offset (width·y + x)·4 over 255, which lies in [0, 1]. |
| RiemersmaDitherer.Riemersma.SaveLuminance | diig/Riemersma.swift:81-88 | The bitmap becomes `WritePixel` of the old bitmap at the pixel's offset, with the truncated byte of luminance·255. |
| RiemersmaDitherer.Riemersma.Dither | diig/Riemersma.swift:90-109 | Result is 0 or 1; it is 1 iff luminance + Σ errors[i]·weights[i] / 8 ≥ 0.5, and it equals `DitherValue`. The window becomes old[1..] + [luminance − result]. Weights and cursor are unchanged. |
| RiemersmaDitherer.Riemersma.Move | diig/Riemersma.swift:111-132 | New state = `MoveSpec` of the old one. The cell is handled only inside the image, then the cursor steps. The settings are unchanged. |
| RiemersmaDitherer.Riemersma.Hilbert | diig/Riemersma.swift:134-194 | The new state is the run of `HilbertMoves(level, direction)` from the old one (`CurveRan`). The settings are unchanged. |
| HilbertCurve.Step | diig/Riemersma.swift:120-131 | A move changes exactly one coordinate by exactly one. None, and only None, leaves the cursor in place. |
| HilbertCurve.FloorLog2 | diig/Riemersma.swift:49 | 2^r ≤ n < 2^(r+1). |
| HilbertCurve.CurveLevel | diig/Riemersma.swift:48-53 | The level is the least L with 2^L ≥ the longer side: size ≤ 2^L, and L = 0 or 2^(L−1) < size. |
| HilbertCurve.HilbertMoves | diig/Riemersma.swift:134-194 | For an orientation other than None, the curve makes 4^L − 1 moves, and none of them is None. |
| HilbertCurve.HilbertRecursion | diig/Riemersma.swift:156-193 | At level ≥ 2 the moves are the four sub-curves of the rotation table joined by the three connecting moves. |
| HilbertCurve.HilbertDisplacement | diig/Riemersma.swift:134-194 | The curve ends 2^L − 1 from its start: right for Up, down for Left, up for Right, left for Down. |
| HilbertCurve.TraceIsCells | diig/Riemersma.swift:134-194 | The cells the moves pass through are the reference cells `Cells`, in order. |
| HilbertCurve.CellsTile | diig/Riemersma.swift:134-194 | The reference cells of every curve cover its 2^L square, each cell once. |
| HilbertCurve.CurveFillsSquare | diig/Riemersma.swift:55-57 | The level-L curve entered Up at (0, 0) passes through all 4^L cells of the square [0, 2^L)², each exactly once. |
| HilbertCurve.VisitsThenStop | diig/Riemersma.swift:55-59 | The final move(.none) handles the cell where the curve stops, so the handled cells are all the cells of the curve. |
| Pixels.PixelOffset | diig/ImageTransformations.swift:58 | The offset (width·y + x)·4 of a pixel's red byte is a multiple of four: every pixel starts on a four-byte boundary. |
| Pixels.PixelInBitmap | diig/Riemersma.swift:76 | Every pixel of a W×H image has its four bytes within the first 4·W·H bytes. |
| Pixels.PixelsApart | diig/Riemersma.swift:82-87 | Two different pixels own disjoint four-byte blocks. |
| Pixels.WritePixel | diig/Riemersma.swift:81-88 | Bytes o, o+1 and o+2 become the value and byte o+3 becomes 255. No other byte changes and the length is kept. |
| Pixels.LuminanceByte | diig/Riemersma.swift:84 | The byte is the truncation of luminance·255: it is ≤ luminance·255 and within one of it, and it is 0 for a luminance ≤ 0. |
| Pixels.BinaryLuminanceBytes | diig/Riemersma.swift:84-87 | Luminance 0 is stored as byte 0 and luminance 1 as byte 255. |
| Pixels.GetPixelLuminance | diig/ImageTransformations.swift:56-74 | Ok iff the pixel is opaque and grey. Transparent iff alpha ≠ 255, which is checked first. Not monochrome iff opaque but not grey. Ok gives r/255, in [0, 1]. |
| Pixels.GetImagePixelLuminance | diig/ImageTransformations.swift:36-54 | Each missing CoreGraphics link throws its own error. On a bitmap the result is exactly the validator's result, Ok value and error alike. |
| Pixels.PixelLuminance | diig/ImageTransformations.swift:91-99 | The result is −1 iff an error was thrown. Otherwise it is the validator's luminance, which lies in [0, 1]. |
| Pixels.WrittenPixelReadsBack | diig/ImageTransformations.swift:56-74 | A pixel written by saveLuminance passes the validator with luminance byte/255. |
| Pixels.BinaryPixelLuminance | diig/ImageTransformations.swift:65-73 | A black-or-white opaque pixel validates to exactly 0 or 1. |
| ErrorWindow.Weights | diig/Riemersma.swift:65-73 | The 48 weights initWeights leaves: the first is 1.5, and each next one is (previous − 0.5)·m + 0.5, as the running product v *= m makes them. |
| ErrorWindow.WeightsRamp | diig/Riemersma.swift:65-73 | For m > 1 there are 48 weights. weights[0] = 1.5, they strictly increase, and the last is 8.5 when m^47 = 8. |
| ErrorWindow.PowIncreasing | diig/Riemersma.swift:66-71 | For m > 1, m^i < m^j whenever i < j. |
| ErrorWindow.WeightedSum | diig/Riemersma.swift:94-96 | The error sum accumulated by the loop in dither; a window of zero errors adds nothing. |
| ErrorWindow.Zeros | diig/Riemersma.swift:32-33 | The initial window has 48 entries, all zero. |
| ErrorWindow.Quantize | diig/Riemersma.swift:99 | The result is 0 or 1, and it is 1 iff the value is ≥ 0.5. |
| ErrorWindow.DitherValue | diig/Riemersma.swift:94-99 | The result is 0 or 1, and it is 1 iff lum + Σ errors[i]·weights[i] / 8 ≥ 0.5. |
| ErrorWindow.FirstPixel | diig/Riemersma.swift:90-99 | Against the all-zero window, dithering is plain thresholding at one half. |
| ErrorWindow.Shift | diig/Riemersma.swift:101-106 | The window keeps its length, so the NSLog length check never fires. |
| ErrorWindow.WindowHoldsLatest | diig/Riemersma.swift:101-102 | After any errors es are recorded, the window is (old + es) without its first \|es\| entries: a first-in first-out queue. |
| ErrorWindow.FullWindow | diig/Riemersma.swift:101-102 | After 48 or more errors, the window holds exactly the last 48, whatever it held before. |
| DitherRun.OffsetOf | diig/Riemersma.swift:76 | A pixel of the image has its four bytes inside the image's 4·W·H bytes. |
| DitherRun.LuminanceAt | diig/Riemersma.swift:75-79 | The luminance getLuminance reads lies in [0, 1], and equals the validator's luminance of the same pixel whenever the pixel validates. |
| DitherRun.HandleCell | diig/Riemersma.swift:112-118 | The sizes are kept and the cursor is unchanged. |
| DitherRun.MoveSpec | diig/Riemersma.swift:111-132 | The sizes are kept and the cursor moves to Step(pos, d). |
| DitherRun.RunMoves | diig/Riemersma.swift:111-132 | The sizes are kept and the cursor ends at Walk(pos, moves). |
| DitherRun.MoveOutsideImage | diig/Riemersma.swift:112-118 | Outside the image a move only steps; neither the bitmap nor the window changes. |
| DitherRun.MoveInsideImage | diig/Riemersma.swift:112-118 | Inside the image the pixel becomes black or white; it is white iff the corrected luminance is ≥ 0.5. No other byte changes. The window shifts, and its new last entry is lum − byte/255. |
| DitherRun.RunConcat | diig/Riemersma.swift:111-132 | Running a then b is running a + b. |
| DitherRun.CurveRun | diig/Riemersma.swift:156-193 | The run of a level-L curve is the runs of its four sub-curves joined by the three connecting moves. |
| DitherRun.FirstLevelRun | diig/Riemersma.swift:135-152 | The three moves of a level-one case, made in turn, run the level-one curve. |
| DitherRun.CurveRunSteps | diig/Riemersma.swift:156-189 | The seven calls of a recursive case, made in turn, run the whole curve. |
| DitherRun.NoneCurveRun | diig/Riemersma.swift:153-154 | A curve in orientation None changes nothing. |
| DitherRun.HandleCellDithers | diig/Riemersma.swift:112-118 | Handling one cell turns that pixel black or white and leaves every other pixel and byte alone. |
| DitherRun.RunDithers | diig/Riemersma.swift:111-132 | A run of moves turns exactly the pixels it handles black or white. Other pixels, and bytes past the image, are unchanged. |
| DitherRun.DitherMoves | diig/Riemersma.swift:48-59 | getDitheredImage makes 4^L moves for the level L of the longer side: the curve, skipped at level 0, then the single final move None, which is its only None. |
| DitherRun.EveryPixelOnce | diig/Riemersma.swift:48-59 | The moves of getDitheredImage handle every pixel of the image, and no cell twice. |
| DitherRun.DitheredData | diig/Riemersma.swift:41-63 | Dithering keeps the bitmap's length. |
| DitherRun.DitheredImageIsBinary | diig/Riemersma.swift:41-63 | After dithering, every pixel of the image is opaque and black or white, and every byte past the image is as it was. |
| DitherRun.DitheredImageValidates | diig/ImageTransformations.swift:56-74 | Every pixel of the dithered image passes the validator with luminance exactly 0 or 1. |

## Left out

- Floating point: CGFloat and Float are exact reals, so rounding in the weights, the error sum and r/255 is not modelled.
- The ramp ratio m = exp(log 8 / 47) is a constructor parameter `ramp`, because exp and log are not modelled. `WeightsRamp` states what the ratio is for: the weights grow when m > 1, and the last weight is 8.5 when m^47 = 8.
- HilbertCurve.CurveLevel: log2 of the longer side is the exact floor log2 followed by the source's one-up correction. The rounding of the floating-point log2 near powers of two is not modelled.
- Image sizes are whole numbers of pixels (`nat`). Fractional CGSize values and the CGFloat comparisons of the cursor against them are not modelled.
- RiemersmaDitherer.Riemersma.GetDitheredImage requires a side of at least one pixel, because log2(0) is −∞ and converting it to Int traps.
- Pixels.LuminanceByte requires luminance·255 in (−1, 256), because the UInt8 conversion traps outside that range. The ditherer only stores 0 and 1.
- RiemersmaDitherer.Riemersma.Hilbert requires level ≥ 1. The source recurses without end for a level of 0 or less, and it is only ever called with a positive level.
- The bitmap is an `array<byte>` of at least 4·width·height bytes, standing in for CFMutableData and its byte pointer. Rows are assumed unpadded, as the source's offset computation assumes. Reads outside the bitmap are ruled out by preconditions, because the source does not guard them.
- The NSLog calls in `dither` and `pixelLuminance` are I/O and are left out. `Shift` shows that the length check in `dither` never fires.
- Pixels.GetImagePixelLuminance: the chain UIImage → CGImage → data provider → data is a datatype with one case per missing link. `image.size.width` is taken as the bitmap's width in pixels.
- `convertToMonochrome` and the `monochrome` property of diig/ImageTransformations.swift are not part of this model, and neither are the other files of the repository.
- Another version of the class, in diig/Stuff to Convert Images/Riemersma.swift (lines 61-68), scales the error window (96 · sampling step) and the weight ratio weightDiff (32 · sampling step) by a sampling step read from the user defaults. That version is not part of this model; the model follows diig/Riemersma.swift, which uses 48, 8 and unit steps.
