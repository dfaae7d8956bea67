# convert2photopainter — a Dafny model of the image pipeline

convert2photopainter turns pictures into bitmaps for the Waveshare
PhotoPainter (B), a six-colour e-paper panel (black, white, red, green, blue,
yellow). The pipeline has three stages. It optionally turns a portrait
picture a quarter turn. It picks a source rectangle, meant as a crop to the
panel's aspect ratio, and scales it to 800 × 480 or 480 × 800. As written
that rectangle covers the whole picture, so the picture is letterboxed rather
than cropped (see Findings). Then it dithers the result to the six
colours with Floyd–Steinberg error diffusion. In batch mode the front end
numbers each input directory ("0001", "0002", …). It names each output file
after the directory number and the image's position in the directory.

This project models that pipeline over integer pixel grids and proves
properties of it. Everything is in 8-bit channels (`Images.Pixel`). An image
value is a row-major `seq<seq<Pixel>>`. A mutable `image.RGBA` buffer is an
`array2<Pixel>`, indexed `[row, column]`.

- `goarith.dfy` (module `GoArith`): Go's truncating quotient, plus arithmetic
  lemmas.
- `images.dfy` (module `Images`): pixels and grids. `Snapshot` reads an
  `array2` buffer as a grid value.
- `dither.dfy` (module `Dither`): `FloydSteinberg` and `adjustPixel`, as
  methods on a buffer.
  - They are proved against a cell-by-cell reference definition,
    `Dithered`.
  - A cell's accumulated colour (`Acc`) is its input pixel after the error
    pushes from its up-left, up, up-right and left neighbours, in scan order.
  - The output cell is the colour lookup applied to that accumulated colour.
- `convert.dfy` (module `Convert`):
  - the palette;
  - `findClosestColor`, as a loop proved equal to the function `Nearest`
    (first closest palette entry);
  - `ConvertImage`, as resize → copy → dither.
- `resize.dfy` (module `Resize`):
  - `RotateImage`, as loops filling a new buffer;
  - the rotate decision;
  - the source rectangle, both as written and corrected (see Findings);
  - `ResizeImage`, as written, with the bilinear scaler as a parameter, and
    the scaling job it is meant to build.
- `cli.dfy` (module `Cli`):
  - `%04d` formatting;
  - the batch file names;
  - the `-r` resolution rule;
  - the `processDirPath` numbering, as the class `DirNumbering` whose fields
    are the two package-level variables.

## Model

| member | source | states |
|---|---|---|
| GoArith.Quo | internal/resize/resize.go:71-77 | Go's `/` on `int` truncates toward zero: the quotient lies between 0 and the dividend, on the dividend's side |
| GoArith.QuoBounds | internal/dither/dither.go:70-72 | Go's integer conversion of the scaled error truncates toward zero: the result keeps the sign of the product and is the largest multiple of the divisor not above it in absolute value |
| Dither.Clamp | internal/dither/dither.go:79-87 | `clamp` is the identity on [0,255], gives 0 below that range and 255 above it |
| Dither.ClampNearest | internal/dither/dither.go:79-87 | `clamp` is the identity on [0,255], and otherwise returns the channel value nearest to its argument |
| Dither.QuantError | internal/dither/dither.go:35-37 | the error per channel is accumulated minus quantised, lies in [-255,255], and is zero exactly when the lookup kept the RGB |
| Dither.Share | internal/dither/dither.go:70-72 | the truncated share of an error with a non-negative weight has the error's sign, and is zero when the error or the weight is |
| Dither.Adjusted | internal/dither/dither.go:66-76 | the adjusted pixel keeps the alpha of the pixel it adjusts |
| Dither.ShareBounds | internal/dither/dither.go:70-72 | a share k/16 (k ≤ 16) of an error has the error's sign and is no larger than the error |
| Dither.AdjustedFacts | internal/dither/dither.go:66-76 | an adjusted pixel is unchanged by a zero error, and each channel moves toward the error without passing it |
| Dither.AdjustPixel | internal/dither/dither.go:66-76 | the target cell becomes the clamped sum of its channels and the truncated share of the error, with its alpha kept; every other cell is unchanged |
| Dither.Kernel | internal/dither/dither.go:41-58 | no contract of its own: the weight 7, 3, 5 or 1 of each kernel neighbour and 0 elsewhere; `KernelFacts` states its properties |
| Dither.KernelFacts | internal/dither/dither.go:41-58 | the weights 7, 3, 5, 1 sum to 16; exactly the four neighbours right, below-left, below and below-right get weight, and each is later in scan order than the visited cell |
| Dither.Diffuse | internal/dither/dither.go:41-58 | each in-bounds kernel neighbour receives its weighted share of the error; out-of-bounds neighbours are skipped without renormalising; nothing else changes |
| Dither.Dithered | internal/dither/dither.go:22-60 | the reference image has the input's size, and each cell is the colour lookup of its accumulated colour: the input pixel plus the pushes from its up-left, up, up-right and left neighbours |
| Dither.ReceivedStep | internal/dither/dither.go:22-58 | moving the scan past one cell changes a cell's received colour only if that cell is one of its sources, and then by exactly that cell's share |
| Dither.ReceivedRowEnd | internal/dither/dither.go:22-23 | the end of one row and the start of the next are the same point of the scan |
| Dither.ReceivedAtStart | internal/dither/dither.go:18-19 | before the scan starts every cell holds its input pixel |
| Dither.AccOnFixedPoints | internal/dither/dither.go:35-37 | when the lookup keeps the RGB of every input pixel, all errors are zero and each cell accumulates exactly its input pixel |
| Dither.ReceivedOnFixedPoints | internal/dither/dither.go:70-72 | with all errors zero, no push changes a cell's received colour |
| Dither.DitheredKeepsFixedPoints | internal/dither/dither.go:35-37 | an image the lookup maps to itself in RGB (for example one drawn in palette colours) keeps its RGB through the pass |
| Dither.ScannedAtStart | internal/dither/dither.go:18-19 | a fresh copy of the input is the scan state before the first visit |
| Dither.ScannedRowEnd | internal/dither/dither.go:22-23 | a finished row is the scan state at the start of the next row |
| Dither.ScannedAtEnd | internal/dither/dither.go:22-60 | once every row is visited, the buffer holds the reference image |
| Dither.Visit | internal/dither/dither.go:25-58 | one visit keeps the scan invariant: visited cells hold their final colour and are never written again; later cells hold what their sources have pushed so far |
| Dither.Copy | internal/dither/dither.go:18-19 | the working buffer is a new buffer with the input's bounds and pixels |
| Dither.FloydSteinberg | internal/dither/dither.go:13-63 | returns a new buffer of the input's size holding exactly the reference dithered image; the input buffer is unchanged |
| Convert.PaletteWellFormed | internal/convert/convert.go:19-36 | the palette has six opaque entries, no two with the same RGB |
| Convert.Distance | internal/convert/convert.go:59-61 | the squared RGB distance is zero for colours of the same RGB; `DistanceZero` gives the converse |
| Convert.DistanceZero | internal/convert/convert.go:59-61 | the squared distance is zero exactly between colours of equal RGB |
| Convert.FirstNearest | internal/convert/convert.go:54-66 | among the first n entries, returns an index no entry is closer than, with every earlier entry strictly farther |
| Convert.FirstNearestUnique | internal/convert/convert.go:63 | only one index is the first closest, so the strict comparison fixes the answer |
| Convert.Nearest | internal/convert/convert.go:47-70 | the answer is an opaque palette colour, at least as close as every palette colour |
| Convert.NearestIgnoresAlpha | internal/convert/convert.go:48-49 | colours that differ only in alpha get the same answer |
| Convert.FirstNearestSameDistances | internal/convert/convert.go:54-66 | colours at the same distance from every entry get the same first closest index |
| Convert.NearestOfPaletteColour | internal/convert/convert.go:58-66 | a palette colour maps to itself |
| Convert.NearestOfPaletteRgb | internal/convert/convert.go:48-66 | a colour with the RGB of a palette colour maps to that colour, whatever its own alpha |
| Convert.NearestTieExample | internal/convert/convert.go:63 | (200,0,200) is equally far from red and blue (43025) and maps to red, the earlier entry |
| Convert.Wide | internal/convert/convert.go:48-55 | `RGBA()` widens an 8-bit channel to a 16-bit value; `NarrowWide` shows `>> 8` undoes it |
| Convert.NarrowWide | internal/convert/convert.go:48-49 | `RGBA()` widening followed by `>> 8` gives back the 8-bit channel |
| Convert.SquareAtMost | internal/convert/convert.go:51 | a channel's square is at most 255², reaching it only at 255 |
| Convert.BlackOrWhiteBeatsSentinel | internal/convert/convert.go:51-66 | black or white is always strictly closer than the starting distance 3·255², so some entry is always chosen |
| Convert.FindClosestColor | internal/convert/convert.go:47-70 | the loop never returns nil, and returns the first palette entry of least squared distance |
| Convert.DitheredUsesPalette | internal/dither/dither.go:25-32 | every cell dithered with the lookup is an opaque palette colour |
| Convert.DitherKeepsPaletteImage | internal/dither/dither.go:35-37 | an image drawn only in palette colours comes out unchanged |
| Convert.DitherIdempotent | internal/convert/convert.go:96 | dithering a dithered image changes nothing |
| Convert.Converted | internal/convert/convert.go:88-96 | the converted image has the configured size and only opaque palette colours |
| Convert.ConvertImage | internal/convert/convert.go:87-96 | returns a new buffer of the configured size holding the dithered resized image |
| Resize.RotatedCw | internal/resize/resize.go:16-25 | the clockwise turn swaps width and height and moves source (x, y) to column height-1-y of row x |
| Resize.RotatedCcw | internal/resize/resize.go:26-35 | the counter-clockwise turn swaps width and height and moves source (x, y) to column y of row width-1-x |
| Resize.CcwUndoesCw | internal/resize/resize.go:10-39 | turning clockwise and then counter-clockwise gives back the image |
| Resize.CwUndoesCcw | internal/resize/resize.go:10-39 | turning counter-clockwise and then clockwise gives back the image |
| Resize.TurnClockwise | internal/resize/resize.go:20-24 | the clockwise loops fill the buffer with the clockwise turn of the source |
| Resize.TurnCounterClockwise | internal/resize/resize.go:30-34 | the counter-clockwise loops fill the buffer with the counter-clockwise turn |
| Resize.RotateImage | internal/resize/resize.go:10-39 | returns a new buffer with the sides swapped, holding the turned source |
| Resize.Oriented | internal/resize/resize.go:50-57 | the source is turned clockwise, with its sizes swapped, exactly when auto-rotation is on and it is portrait |
| Resize.OrientedIsLandscape | internal/resize/resize.go:50-57 | with auto-rotation on, the image that is cropped is never portrait, and turning it back gives the source |
| Resize.CropRectAsWritten | internal/resize/resize.go:67-79 | the rectangle as written always covers the whole source: the side it computes is never shorter than the source's own |
| Resize.CropAsWrittenFits | internal/resize/resize.go:67-79 | the rectangle as written keeps one full side of the source (the width of a source wider than the target, else the height), overhangs the other side evenly within one pixel, and has the target aspect up to truncation of the computed side |
| Resize.CropAsWrittenNeverCrops | internal/resize/resize.go:67-79 | the rectangle as written lies inside the source only when it is the whole source |
| Resize.CropAsWrittenOfSameAspect | internal/resize/resize.go:76-79 | a source already at the target aspect is used whole |
| Resize.CropAsWrittenLetterboxes | internal/resize/resize.go:67-79 | 1001×500 and 1600×1200 sources for 800×480 give rectangles reaching outside the source |
| Resize.CropRect | internal/resize/resize.go:67-79 | the corrected crop lies inside the source; a source wider than the target keeps its full height, any other its full width |
| Resize.CropRectFits | internal/resize/resize.go:60-79 | the corrected crop is centred within one pixel and has the target aspect up to truncation |
| Resize.CropRectOfSameAspect | internal/resize/resize.go:73-79 | a source already at the target aspect is not cropped |
| Resize.Scaled | internal/resize/resize.go:82-87 | the destination the scaler fills is exactly targetWidth × targetHeight, each cell one sample of the scaling job |
| Resize.ResizeJob | internal/resize/resize.go:44-87 | the scaler is given the oriented image and the rectangle as written, which covers it; with auto-rotation the image is landscape |
| Resize.ResizeJobIntended | internal/resize/resize.go:44-87 | the intended job gives the scaler the oriented image and the corrected crop, which lies inside it |
| Resize.ResizeJobsAgreeOnSameAspect | internal/resize/resize.go:60-87 | when the oriented source has the target aspect both jobs are the same and use the whole image |
| Resize.Resized | internal/resize/resize.go:82-83 | the resized image is exactly targetWidth × targetHeight |
| Resize.ResizeImage | internal/resize/resize.go:44-90 | returns a new buffer of the target size holding the scaler's output for the oriented source and the rectangle as written |
| Cli.Decimal | cmd/convert2photopainter/main.go:94 | `%d` of a non-negative number is the shortest digit string denoting it |
| Cli.Padded | cmd/convert2photopainter/main.go:94 | padding keeps the value, reaches the requested width, and leaves a numeral already that wide alone |
| Cli.Pad4 | cmd/convert2photopainter/main.go:94 | `%04d` gives digits denoting the number, exactly four of them below 10000; from 10000 on it is the plain decimal numeral |
| Cli.Pad4Injective | cmd/convert2photopainter/main.go:94 | different numbers give different numerals |
| Cli.Pad4OfOne | cmd/convert2photopainter/main.go:67-68 | the first number of a batch is written "0001" |
| Cli.Pad4OfFortyTwo | cmd/convert2photopainter/main.go:194 | 42 is written "0042" |
| Cli.Pad4OfLargeNumber | cmd/convert2photopainter/main.go:194 | 12345 is written in full |
| Cli.FileNum | cmd/convert2photopainter/main.go:194 | the name is the directory prefix, an underscore and the padded 1-based file index |
| Cli.FirstUnderscore | cmd/convert2photopainter/main.go:194 | with a digit-only prefix, the first underscore of a name ends the prefix |
| Cli.FileNumInjective | cmd/convert2photopainter/main.go:186-194 | names from digit-only directory numbers never collide: prefix and index can be read back |
| Cli.OutputNames | cmd/convert2photopainter/main.go:192-194 | the loop produces one name per image file, in order |
| Cli.OutputNamesDistinct | cmd/convert2photopainter/main.go:192-194 | the images of one directory get pairwise different names |
| Cli.SelectResolution | cmd/convert2photopainter/main.go:49-54 | exactly "480x800" selects 480×800; anything else selects 800×480, with a warning unless it is "800x480" |
| Cli.AppendDistinct | cmd/convert2photopainter/main.go:94-96 | adding a directory not yet numbered keeps the numbered directories distinct |
| Cli.AppendNumbered | cmd/convert2photopainter/main.go:94-96 | the new directory gets the next number, and earlier numbers stay |
| Cli.NumberedByAppend | cmd/convert2photopainter/main.go:94-96 | numbering a new directory keeps the map consistent with the order of first appearance |
| Cli.DirNumbering.constructor | cmd/convert2photopainter/main.go:83-84 | the numbering starts with no directories and the counter at 1 |
| Cli.DirNumbering.StartBatch | cmd/convert2photopainter/main.go:67-68 | a batch resets to no directories and the counter at 1 |
| Cli.DirNumbering.ProcessDirPath | cmd/convert2photopainter/main.go:87-99 | a known directory gets its old number and nothing changes; a new one gets the padded counter, is recorded, and the counter grows by one; `basePath` plays no part |
| Cli.DirNumbersDistinct | cmd/convert2photopainter/main.go:87-98 | distinct directories of a batch have distinct numbers |
| Cli.DirNumbersInRange | cmd/convert2photopainter/main.go:94-96 | every number in use is digits only and lies between 1 and the counter |

## Left out

- File and OS work is not modelled. This covers:
  - opening and decoding the input, and creating and BMP-encoding the output, with their error returns;
  - `processDirectory`'s `os.Stat`, `MkdirAll` and `ReadDir`, its extension filter, its sorting and its depth-limited recursion;
  - `processSingleFile`;
  - flag parsing, `printHelp` and all logging.
- `ConvertImage` starts from a decoded grid and ends with the dithered buffer.
- `OutputNames` stands for the naming part of the batch loop. It takes the number of image files as an input.
- `draw.ApproxBiLinear.Scale` is a library routine. `Resize.Sampler` is a parameter that gives the colour of each destination cell. Its interpolation is not modelled.
- `Resize.CropRectAsWritten`, `CropRect`, `ResizeJob` and `ResizeImage` compare aspects by integer cross-multiplication. The code divides `float64` values. Where two ratios are within floating-point rounding of each other, the branch or the truncated side length can differ by one.
- The `color.Color` interface, 16-bit colour models and `color.RGBAModel.Convert` are not modelled. Every colour is an 8-bit RGBA value. The two `draw.Draw(..., draw.Src)` copies from `image.RGBA` buffers are plain copies (`Dither.Copy`).
- Dithering does not keep the input alpha: each visited cell gets the palette colour, whose alpha is 255 (internal/dither/dither.go:28-32). The model follows the code.
- The `palette` argument of `FloydSteinberg` is not modelled, because the function never reads it. `Options.Verbose` only controls logging.
- Zero or negative sizes are not modelled: the model requires positive source and target sizes. The code does not check them, and a zero height makes its aspect division meaningless.
- `Cli.DirNumbering.ProcessDirPath` does not model 64-bit overflow of `nextDirNum`, because it would take 2^63 directories.
- `Resize.ResizeImage` follows the code and hands the scaler the rectangle as written (see Findings). What the scaler draws outside the source, and the `draw.Over` compositing onto the transparent buffer, are left to the `Sampler` parameter.

## Findings

| source | as written | input that shows it | evidently intended | confidence | as-written member | corrected member |
|---|---|---|---|---|---|---|
| internal/resize/resize.go:67-79 | a source wider than the target keeps its full width and takes `width/dstAspect` rows, otherwise its full height and `height*dstAspect` columns. Either way that side is at least the source's own, so the rectangle contains the source rather than lying inside it | 1001×500 for 800×480 gives Rect(0,-50,1001,550); 1600×1200 for 800×480 gives Rect(-200,0,1800,1200) | a centred crop inside the source: a wider source loses columns and keeps its full height, a taller one loses rows and keeps its full width | not executed | Resize.CropRectAsWritten, Resize.CropAsWrittenNeverCrops, Resize.CropAsWrittenLetterboxes, Resize.ResizeJob | Resize.CropRect, Resize.CropRectFits, Resize.ResizeJobIntended |
