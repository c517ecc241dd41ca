# ImageResizer cover-fit geometry, in Dafny

A model of the resizer class of library/ImageResizer.cs. `Convert(Image, height, width, valign, halign)`
fits a source image onto a `width` x `height` bitmap, aiming to scale it uniformly so that it covers
the frame and to crop the overflow on one axis. The crop is anchored by a vertical alignment
(Top, Middle, Bottom) and a horizontal one (Left, Middle, Right). The file-level `Convert` decodes
a file, converts it and saves it. JPEG goes through `SaveJpeg`, which guards the quality and looks
up the JPEG encoder by mime type with `GetEncoderInfo`. Every other format goes through `Image.Save`.

The model follows the code's integer arithmetic. C# `int` division truncates toward zero, so
every `/` of the source is written as `CSharpInt.TruncDiv`. Dafny's own `/` agrees with it for a
non-negative dividend; for a negative one they differ unless the division is exact. The vertical
Middle offset `-overFlow / 2` can have a negative dividend.
Both ratios are integers: `height / img.Height` on line 76 and `width / img.Width` on line 106.
The `(float)` cast on line 107 multiplies by that integer ratio and is modelled as the exact
integer product. An integer product up to 2^24 is exact in `float`, because every integer up to
2^24 has an exact IEEE single-precision value; this comes from the float format, not from a lemma.
Under that bound on the extents and both scaled products, `GeometryProperties.ExactWhenProductsFit`
shows that no `int` overflows. The bound holds, for example, for a 6000x4000 photo onto any target up to 4096x4096 (`PhotoProductsFit`), and for
every input whose extents are all at most 4096 (`WithinExactRange`).

A resizer of this kind intends the scale factor to be the exact ratio of the extents, with one
rounding rule on both axes, so that the draw covers the canvas and keeps the source's shape. The
code does not do this: its ratios are truncated integers. One consequence, under the code's
arithmetic: 400x200 onto 300x300 overflows by 100 pixels, not 300 (`GeometryProperties.WideExample`).
By contrast, 100x100 onto 200x100 is no exact fit under either arithmetic: a 1:1 source cannot fill
a 2:1 frame, and the code and the corrected geometry draw the same rectangle
(`GeometryProperties.SquareOntoWideExample`, `CoverFit.SquareOntoWideCorrected`). The
`ImageResizer` module follows the code. The intended geometry is defined and proved separately,
in module `CoverFit` (see Findings).

Modules:
- `Wrappers`: `Option` (a null reference) and `Result` (a thrown exception).
- `CSharpInt`: C# truncating division and the arithmetic facts used about it.
- `ImageResizer`: the class. Geometry as functions (`Resolve` is the one `DrawImage` rectangle,
  `Convert` the resulting canvas). `GetEncoderInfo` as a first-match search. `SaveJpeg` and
  `ConvertFile` as methods that return the `Image.Save` call they make.
- `GeometryProperties`: the case and anchor lemmas, coverage, worked examples, integer ranges.
- `CoverFit`: the corrected geometry, with exact ratios and round-half-away-from-zero.

## Model

| member | source | states |
|---|---|---|
| CSharpInt.TruncDiv | library/ImageResizer.cs:76 | C# `int` division: the remainder `a - q*b` has the sign of the dividend and is smaller than the divisor, i.e. the quotient truncates toward zero |
| ImageResizer.ScaledWidth | library/ImageResizer.cs:76-77 | `temp` is the source width times the truncated height ratio: between 0 and `img.width*height`, at least `img.width` when upscaling height, and 0 exactly when the target is shorter than the source |
| ImageResizer.ScaledHeight | library/ImageResizer.cs:106-107 | the recomputed `temp` is the source height times the truncated width ratio, with the same bounds, zero exactly when the target is narrower than the source |
| ImageResizer.HorizontalOffset | library/ImageResizer.cs:89-101 | for a non-negative overflow the horizontal offset lies between `-overFlow` and 0 |
| ImageResizer.VerticalOffset | library/ImageResizer.cs:108-120 | the vertical offset lies between 0 and `-overFlow`, on whichever side the sign of the overflow puts it (the overflow may be negative) |
| ImageResizer.Resolve | library/ImageResizer.cs:76-121 | the single draw rectangle always spans the canvas horizontally; at most one axis is offset; one axis is drawn at exactly the canvas extent; draw sizes are non-negative |
| ImageResizer.Convert | library/ImageResizer.cs:68-124 | the returned bitmap is exactly `width` x `height` and carries exactly one draw, the `Resolve` rectangle, for all nine anchor pairs |
| ImageResizer.GetEncoderInfo | library/ImageResizer.cs:59-66 | returns None exactly when no encoder has the mime type; otherwise an encoder from the list with that mime type, and no earlier encoder has it |
| ImageResizer.SaveJpeg | library/ImageResizer.cs:39-54 | fails with the out-of-range error exactly when quality is below 0 or above 100; otherwise saves to the path with the encoder `GetEncoderInfo` finds for "image/jpeg" and one quality parameter equal to `quality` |
| ImageResizer.ConvertFile | library/ImageResizer.cs:15-31 | the quality guard never fires (the result is always `Success`); saves the converted `width` x `height` canvas; JPEG goes through the JPEG encoder with quality 100, any other format through a plain save in that format |
| GeometryProperties.ExactFitIsIdentity | library/ImageResizer.cs:76-84 | if `img.width * (height / img.height) == width`, the rectangle is `(0, 0, width, height)` whatever the anchors |
| GeometryProperties.SameSizeIsIdentity | library/ImageResizer.cs:76-84 | a source already at `width` x `height` is drawn at `(0, 0, width, height)` for every anchor pair |
| GeometryProperties.TooWideRect | library/ImageResizer.cs:86-101 | when the scaled width exceeds the target, the overflow is positive, y is 0, the draw is `temp` x `height`, x is 0 / `-(overFlow/2)` truncated / `-overFlow` for Left / Middle / Right, and the vertical anchor is irrelevant |
| GeometryProperties.TooTallRect | library/ImageResizer.cs:103-121 | otherwise the draw is `width` x `img.height*(width/img.width)`, x is 0, y is 0 / `(-overFlow)/2` truncated / `-overFlow` for Top / Middle / Bottom, and the horizontal anchor is irrelevant |
| GeometryProperties.HorizontalAnchorOrder | library/ImageResizer.cs:90-101 | for a positive overflow: offset(Right) < offset(Middle) <= offset(Left) = 0, Right is `-overFlow`, and Middle is half the overflow rounded toward zero |
| GeometryProperties.VerticalAnchorOrder | library/ImageResizer.cs:108-120 | Top is 0, Bottom is `-overFlow`, Middle lies between them at half of `-overFlow` rounded toward zero, for either sign of the overflow |
| GeometryProperties.MiddleOffsetsAgree | library/ImageResizer.cs:92-115 | `0 - overFlow / 2` and `-overFlow / 2` agree under truncating division; with Euclidean division they would differ for every odd positive overflow |
| GeometryProperties.CoversIff | library/ImageResizer.cs:76-121 | the draw covers the whole canvas if and only if one of the two truncated scalings reaches its target extent |
| GeometryProperties.WideExample | library/ImageResizer.cs:76-101 | 400x200 onto 300x300, centred, is drawn at `(-50, 0, 400, 300)` |
| GeometryProperties.SquareOntoWideExample | library/ImageResizer.cs:76-121 | 100x100 onto 200 wide by 100 high, centred vertically, is not an exact fit: it is drawn at `(0, -50, 200, 200)` |
| GeometryProperties.OddOverflowExample | library/ImageResizer.cs:103-116 | 10x13 onto 15 wide by 10 high, Middle, overflows by 3 and is moved up by 1 (truncation), not 2 |
| GeometryProperties.ExactWhenProductsFit | library/ImageResizer.cs:76-121 | when the extents and both scaled products are at most 2^24 (what the float product of line 107 needs to be exact), every DrawImage argument lies within plus or minus 2^24, so no `int` overflows |
| GeometryProperties.PhotoProductsFit | library/ImageResizer.cs:76-107 | for a 6000x4000 source and any target up to 4096x4096, both scaled products are at most 2^24 |
| GeometryProperties.WithinExactRange | library/ImageResizer.cs:76-121 | with all extents at most 4096, both scaled products and every DrawImage argument lie within plus or minus 2^24 |
| GeometryProperties.DownscaleDrawsNothing | library/ImageResizer.cs:76-121 | shrinking on both axes draws the image with height 0, so the canvas is not covered |
| GeometryProperties.TooTallGapExample | library/ImageResizer.cs:103-121 | 300x200 onto 400x300, centred, is drawn at `(0, 50, 400, 200)`, which does not cover the canvas |
| CoverFit.RoundDiv | library/ImageResizer.cs:76-77 | the corrected ratio step: `n/d` rounded to nearest with halves away from zero, i.e. `d(2q-1) <= 2n < d(2q+1)` |
| CoverFit.Resolve | library/ImageResizer.cs:76-121 | the corrected rectangle covers the canvas for every input and anchor, crops one axis only, and keeps the source aspect ratio up to half a pixel of rounding |
| CoverFit.RoundDivExact | library/ImageResizer.cs:76-77 | an exact multiple `n == t * d` rounds to `t` |
| CoverFit.SameAspectIsIdentity | library/ImageResizer.cs:76-84 | a source with exactly the target's aspect ratio (`img.width * height == width * img.height`) is drawn at `(0, 0, width, height)` for every anchor |
| CoverFit.SquareOntoWideCorrected | library/ImageResizer.cs:76-84 | 100x100 onto 200 wide by 100 high, centred vertically: the corrected draw is `(0, -50, 200, 200)`, the same as the as-written one, so this input is no exact fit under either arithmetic |
| CoverFit.DownscaleExample | library/ImageResizer.cs:76-121 | 1000x800 to 200x100, centred: corrected `(0, -30, 200, 160)`, as written `(0, 50, 200, 0)` |
| CoverFit.TooTallGapCorrected | library/ImageResizer.cs:103-121 | 300x200 onto 400x300, centred: corrected `(-25, 0, 450, 300)` |
| CoverFit.WideExampleCorrected | library/ImageResizer.cs:76-101 | 400x200 onto 300x300, centred: corrected `(-150, 0, 600, 300)`; the as-written draw breaks the aspect bound |

## Left out

- Pixel rendering: `Graphics.DrawImage`, `SmoothingMode` and `InterpolationMode` (lines 71-74) are library internals. A draw is recorded as its rectangle.
- File and directory I/O: `Image.FromFile` (line 17) becomes the source's size. Directory creation (lines 21-23) is not modelled; as written, line 23 reads `CreateDirec tory` and does not compile. The `Save` calls (lines 28 and 53) are recorded as a `SaveCall` value, not performed.
- The encoder registry `ImageCodecInfo.GetImageEncoders()` (line 62) becomes the parameter `encoders`. Of each codec only the mime type and a name are kept.
- `EncoderParameter`/`EncoderParameters` (lines 45-51) are kept only as the one quality parameter stored in a one-element array.
- A null JPEG codec (no "image/jpeg" encoder) is recorded as `None` in the save call; the exception `Image.Save` would then throw is not modelled.
- `using` blocks and disposal (lines 17, 19, 71) are resource lifetime and are not modelled.
- Float precision of the cast on line 107 is not modelled: the product is exact integer arithmetic. An integer product up to 2^24 is exact in IEEE single precision; under that bound `GeometryProperties.ExactWhenProductsFit` shows that no `int` overflows.
- 32-bit `int` overflow is not modelled: integers are unbounded. Under the same product bound nothing overflows.
- C# enum variables can hold values outside their declared members, and then the if/else-if chains (lines 90-101, 109-120) draw nothing. The model's alignment types have exactly three values, so `Convert` always draws once.
- Non-positive target sizes: `new Bitmap(width, height)` (line 70) throws for them and the source image always has positive extents, so the geometry members require positive sizes instead of modelling that exception.
- ImageResizer.ConvertFile: uses the as-written geometry `ImageResizer.Convert`, because that is what the code does. The corrected `CoverFit.Resolve` is defined and proved alongside it and is not wired into the file pipeline.

## Findings

| source | as written | input that shows it | evidently intended | confidence | as-written member | corrected member |
|---|---|---|---|---|---|---|
| library/ImageResizer.cs:76-77 | both ratios are `int` divisions, so shrinking on both axes makes both 0 and the image is drawn with height 0 | 1000x800 to 200x100, Middle/Middle: `DrawImage(img, 0, 50, 200, 0)`, a blank canvas | scale by the exact ratio and round once | high, not executed | GeometryProperties.DownscaleDrawsNothing | CoverFit.Resolve |
| library/ImageResizer.cs:103-121 | the too-tall branch can draw an image shorter than the canvas, leaving bands | 300x200 onto 400x300, Middle/Middle: drawn 400x200 at y = 50 | the draw covers the canvas | high, not executed | GeometryProperties.TooTallGapExample | CoverFit.Resolve |
| library/ImageResizer.cs:76-101 | the truncated ratio stretches the image non-uniformly | 400x200 onto 300x300, Middle/Middle: drawn 400x300 | keep the 2:1 shape, drawn 600x300 at x = -150 | high, not executed | GeometryProperties.WideExample | CoverFit.Resolve |
