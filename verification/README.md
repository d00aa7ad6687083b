# GIFConverter settings and encoder-command model

GIFConverter is an Electron desktop tool that turns short MP4/QuickTime clips
into GIFs with ffmpeg. This Dafny project models its deterministic core:

- the renderer's output-settings controller (class `GIFConverter` in
  `renderer/app.js`), here the class `Renderer.GifConverter`. It covers:
  - fitting a frame into the fixed 250 x 80 box;
  - the aspect lock;
  - the single-step colour/fps auto-tune;
  - the crop rectangle drawn with the mouse;
  - the batch queue, its drop filter and splice removal;
  - progress rounding;
  - the options object sent for conversion.
- the main process's `convert-to-gif` command construction
  (module `ConvertCommand`). The filter chain is built in the order crop,
  scale, fps. It is embedded in the palette pass and the GIF pass, with
  defaults 15 fps, 256 colours and `bayer:bayer_scale=5`.
- the `get-video-info` text parsing (module `VideoProbe`). It reads the
  leftmost `Duration: HH:MM:SS.ss` and `N[.F] fps` in the encoder banner, and
  turns the structured probe's `r_frame_rate` field `num/den` into a rate.

All arithmetic is exact.
- `Math.round(x)` is `floor(x + 1/2)` (`Dimensions.Round`).
- A scale such as `250 / width` is kept as a fraction, and a rounded quotient
  is computed on integers (`Dimensions.RoundDiv`).
- `min(250 / w, 80 / h)` is decided by comparing `250 * h` with `80 * w`.
- Durations are kept in hundredths of a second.

Supporting modules:
- `Text`: JavaScript's `join`/`split` with a one-character separator, with
  round trips both ways, and decimal rendering and reading.
- `Wrappers`: `Option` and `Result`.

A page control's value is a field of the class: `outputWidth`,
`outputHeight`, `fps`, `colors`, `dither` and `maintainAspect`. In the source,
the crop tool's drag state (`isDrawing`, `startX`, `startY`) is closure
locals; here it is fields of the class. Where a handler awaits the main
process, the awaited value is a parameter:
- the probe result of `loadVideo`;
- the size estimate of `estimateFileSize`;
- the dialog's paths of `selectMultipleFiles`.

The aspect lock always uses the source video's ratio, even with a crop active.

## Model

| member | source | states |
|---|---|---|
| Text.Split | main.js:172 | `split` yields at least one piece and no piece holds the separator; text without the separator is one piece |
| Text.JoinSplit | main.js:172 | joining the pieces of a split gives back the text |
| Text.SplitJoin | main.js:305 | splitting the join of separator-free parts gives back exactly the parts |
| Text.DigitsValue | main.js:214-215 | the value `parseInt` reads from k decimal digits is below 10^k |
| Text.NatToDecimal | main.js:290 | an interpolated number is non-empty decimal digits without a leading zero |
| Text.IntToDecimal | main.js:290 | an interpolated integer is digits, preceded by `-` when negative |
| Text.DecimalRoundTrip | main.js:290 | reading back an interpolated number gives the number |
| Text.DecimalHasNo | main.js:305 | interpolated numbers contain no `,`, `:` or `/`, so they never break the chain or option syntax |
| Dimensions.Round | renderer/app.js:460 | `Math.round`: the result is the nearest integer, halves up |
| Dimensions.RoundDiv | renderer/app.js:319-320 | a rounded quotient satisfies 2dr <= 2n+d < 2dr+2d, and is non-negative for a non-negative numerator |
| Dimensions.RoundDivIsRound | renderer/app.js:319-320 | the integer rounded quotient equals `Math.round` of the exact quotient |
| Dimensions.RoundDivUnique | renderer/app.js:319-320 | the rounding conditions determine the rounded value |
| Dimensions.FitInBox | renderer/app.js:310-321 | a frame inside 250 x 80 is kept; a scaled one is within the box and no larger than the source; the binding side is exactly 250 or 80, and the other side is the nearest integer to the source ratio, halves up (2wr <= 2*250h + w < 2wr + 2w when the width binds) |
| Dimensions.WidthBindsIsMin | renderer/app.js:315-317 | the width binds exactly when 250 / w <= 80 / h, so the scale used is the minimum of the two |
| Dimensions.FitWidthBindsIsRound | renderer/app.js:315-320 | when the width binds, the fitted frame is `Math.round` of each side times 250 / w |
| Dimensions.FitHeightBindsIsRound | renderer/app.js:315-320 | when the height binds, the fitted frame is `Math.round` of each side times 80 / h |
| Dimensions.LockedHeight | renderer/app.js:335-340 | the recomputed height is the nearest integer to newWidth * sh / sw, halves up, and is non-negative for a non-negative width |
| Dimensions.LockedWidth | renderer/app.js:341-344 | the recomputed width is the nearest integer to newHeight * sw / sh, halves up, and is non-negative for a non-negative height |
| Dimensions.LockedHeightIsRound | renderer/app.js:335-340 | the recomputed height is `Math.round(newWidth / (sw / sh))` |
| Dimensions.LockedWidthIsRound | renderer/app.js:335-344 | the recomputed width is `Math.round(newHeight * (sw / sh))` |
| Dimensions.FitIsAspectLocked | renderer/app.js:314-344 | typing the fitted binding side back in with the aspect lock on reproduces the fitted other side |
| Dimensions.FitIdempotent | renderer/app.js:314-321 | fitting a fitted frame changes nothing |
| Text.Join | main.js:305 | `join` with a one-character separator; Text.SplitJoin and Text.JoinSplit state its round trips with `split` |
| ConvertCommand.Truthy | main.js:289-299 | JavaScript truthiness of a number field: defined, not `NaN` and not zero; ConvertCommand.FilterOrder states the conditions built on it |
| ConvertCommand.OrDefault | main.js:299-305 | the `or` default of the fps and colours fields: the field when truthy, else the default (15 fps, 256 colours); ConvertCommand.BuildFilters and ConvertCommand.BuildCommands state the defaults reaching the commands |
| ConvertCommand.HasCrop | main.js:289 | the crop condition: x and y defined, both sides truthy; ConvertCommand.FilterOrder states that the crop filter is emitted exactly then |
| ConvertCommand.HasScale | main.js:294 | the scale condition: both output sides truthy; ConvertCommand.FilterOrder states that the scale filter is emitted exactly then |
| ConvertCommand.CropFilter | main.js:290 | the crop template; ConvertCommand.CropFilterFields states how it reads back |
| ConvertCommand.ScaleFilter | main.js:295 | the scale template; ConvertCommand.ScaleFilterFields states how it reads back |
| ConvertCommand.FpsFilter | main.js:299 | the fps template; ConvertCommand.FpsFilterFields states how it reads back |
| ConvertCommand.PaletteGen | main.js:305 | the palette generator template; ConvertCommand.PaletteGenFields states its name and that it holds no comma |
| ConvertCommand.CropFilterFields | main.js:289-290 | the crop filter is named `crop` and its options read back as width, height, x, y, in that order, with no comma |
| ConvertCommand.ScaleFilterFields | main.js:294-295 | the scale filter is named `scale` and its options read back as width, height, `flags=lanczos`, with no comma |
| ConvertCommand.FpsFilterFields | main.js:299 | the fps filter is named `fps` with the rate as its option, with no comma |
| ConvertCommand.CropFilterText | main.js:290 | the crop filter is `crop=` followed by width, height, x, y joined with `:` |
| ConvertCommand.CropHasNoComma | main.js:290 | the crop filter holds no comma |
| ConvertCommand.ScaleFilterText | main.js:295 | the scale filter is `scale=` followed by width, height and `flags=lanczos` joined with `:` |
| ConvertCommand.ScaleHasNoComma | main.js:295 | the scale filter holds no comma |
| ConvertCommand.PaletteGenFields | main.js:305 | the palette generator is named `palettegen` and holds no comma |
| ConvertCommand.Filters | main.js:286-299 | the chain has one to three filters |
| ConvertCommand.FilterOrder | main.js:286-299 | the filter names are crop (exactly when x, y are defined and both sides are nonzero), then scale (exactly when both output sides are nonzero), then fps, always last |
| ConvertCommand.FiltersHaveNoComma | main.js:286-299 | no filter holds a comma |
| ConvertCommand.BuildFilters | main.js:286-299 | the conditional pushes build exactly that filter list, fps 15 by default |
| ConvertCommand.ChainReadsBack | main.js:305 | the joined chain reads back as the filter list, and with `palettegen` appended as the list followed by `palettegen` |
| ConvertCommand.PalettePassSplits | main.js:305 | the palette pass's filter text reads back as the filter list followed by `palettegen` |
| ConvertCommand.JoinSnoc | main.js:305 | appending `,palettegen=...` to the joined chain is the join of the list with palettegen appended |
| ConvertCommand.BuildCommands | main.js:281-323 | the chain reads back as the filter list; both argument lists embed it; the palette pass's filter text reads back as the list followed by `palettegen` (256 colours by default); the GIF pass feeds the chain to `paletteuse` (dither `bayer:bayer_scale=5` by default) |
| VideoProbe.DigitRun | main.js:207 | the digit run starting at a position is all digits and maximal |
| VideoProbe.TwoDigitsAt | main.js:205 | a `\d{2}` group at a position; VideoProbe.FieldReadsBack states that written fields are recognised |
| VideoProbe.DurationAt | main.js:205 | `Duration: (\d{2}):(\d{2}):(\d{2}\.\d{2})` at a position; VideoProbe.DurationFound states that the leftmost such position is used, VideoProbe.DurationRoundTrip that a written duration matches |
| VideoProbe.FpsSuffixAt | main.js:207 | the literal ` fps` at a position |
| VideoProbe.FractionRun | main.js:207 | the optional `\.\d+` group: a point followed by the whole digit run, or nothing |
| VideoProbe.FpsAt | main.js:207 | `(\d+(?:\.\d+)?) fps` at a position, with backtracking: the whole digit run, then a whole fraction or none, then ` fps`; VideoProbe.FpsFound, VideoProbe.FpsRoundTrip and VideoProbe.FpsFractionRoundTrip state its use |
| VideoProbe.FieldReadsBack | main.js:214-215 | two digits written for n < 100 form a field that reads back as n |
| VideoProbe.FieldValue | main.js:214-215 | `parseInt` of a two-digit field, below 100; VideoProbe.FieldReadsBack states that written digits read back |
| VideoProbe.FirstHit | main.js:205-207 | the position found is a hit at or after the start |
| VideoProbe.FirstHitLeftmost | main.js:205-207 | no hit lies before the one found, and none is found only when there is no hit at all |
| VideoProbe.FirstMatch | main.js:205-207 | the pattern matches at the position found |
| VideoProbe.FirstMatchLeftmost | main.js:205-207 | the position found is the leftmost match, and none is found only when the pattern matches nowhere |
| VideoProbe.DecimalFraction | main.js:218 | k digits after a decimal point denote their value divided by 10^k, which lies in [0, 1) |
| VideoProbe.DurationCentis | main.js:214-215 | the duration at a match, in hundredths; VideoProbe.DurationRoundTrip states that written fields read back as hours * 3600 + minutes * 60 + seconds |
| VideoProbe.FpsValue | main.js:218 | the rate at a match; VideoProbe.FpsRoundTrip and VideoProbe.FpsFractionRoundTrip state that a written rate reads back |
| VideoProbe.ParseDuration | main.js:205 | the leftmost duration; stated by VideoProbe.DurationFound |
| VideoProbe.ParseFps | main.js:207 | the leftmost rate; stated by VideoProbe.FpsFound |
| VideoProbe.ProbeFromBanner | main.js:203-225 | the fallback probe; stated by VideoProbe.ProbeOutcome |
| VideoProbe.DurationFound | main.js:205-215 | there is no duration exactly when the pattern occurs nowhere; otherwise it is the value of the leftmost occurrence |
| VideoProbe.FpsFound | main.js:207-218 | there is no rate exactly when the `N[.F] fps` pattern occurs nowhere; otherwise it is the value of the leftmost occurrence |
| VideoProbe.ProbeOutcome | main.js:203-225 | failure exactly when the duration or the dimensions are missing; otherwise the dimensions as found, the leftmost duration in seconds (hundredths / 100), and the leftmost rate, or 30 fps when no rate occurs |
| VideoProbe.DurationRoundTrip | main.js:205-215 | a banner starting `Duration: HH:MM:SS.ss` reads back as hours*3600 + minutes*60 + seconds, in hundredths |
| VideoProbe.ProbeReadsDuration | main.js:214-225 | the probe reports such a banner's duration in seconds, with the given dimensions |
| VideoProbe.FpsRoundTrip | main.js:207-218 | a banner starting `N fps` reads back as rate N |
| VideoProbe.FpsFractionRoundTrip | main.js:207-218 | a banner starting `N.F fps` reads back as N plus the fraction .F |
| VideoProbe.FrameRate | main.js:169-174 | an absent or empty `r_frame_rate` gives 30 |
| VideoProbe.NumberOf | main.js:172 | `Number` of a text; VideoProbe.NumberOfDecimal states its value on written natural numbers |
| VideoProbe.NumberOfDecimal | main.js:172 | `Number` of a written natural number is that number |
| VideoProbe.JsTruthy | main.js:173 | the `den ?` test: a number, not `NaN` and not zero; VideoProbe.FrameRateOfFraction states both branches |
| VideoProbe.FrameRateOfFraction | main.js:171-173 | `num/den` gives num / den when den is nonzero and num when den is zero |
| VideoProbe.FrameRateOfWhole | main.js:171-173 | a rate without a denominator gives that number |
| Renderer.NormalizeCrop | renderer/app.js:144-155 | a selection exists iff both scaled sides exceed 10; then its sides are at least 10; x, y are the rounded scaled minimum of the endpoints; width, height are the rounded scaled absolute differences; the origin is non-negative for non-negative inputs |
| Renderer.CropFromSpan | renderer/app.js:144-155 | the same, for a drag given by its left/top edge and its extents |
| Renderer.CropFromAnyCorner | renderer/app.js:144-147 | dragging from any of the four corners to the opposite one gives the same selection |
| Renderer.TuneKnobs | renderer/app.js:391-402 | a tuning pass never raises colours or fps and changes at most one; under budget nothing changes; over budget colours above 128 become 128 with fps kept, otherwise fps above 10 becomes 10 with colours kept |
| Renderer.TuneSettles | renderer/app.js:389-402 | after two over-budget passes colours <= 128 and fps <= 10, and a further pass changes nothing |
| Renderer.IsAcceptedVideo | renderer/app.js:239 | the drop filter's test: the MIME type is `video/mp4` or `video/quicktime`; Renderer.AcceptedVideos states the filter |
| Renderer.AcceptedVideos | renderer/app.js:238-240 | a file is kept iff it was dropped and is MP4 or QuickTime |
| Renderer.AcceptedVideosAppend | renderer/app.js:238-240 | the filter keeps drop order: it distributes over concatenation |
| Renderer.AllAcceptedKept | renderer/app.js:238-240 | a drop of only accepted videos is kept whole |
| Renderer.SpliceStart | renderer/app.js:288 | `splice`'s start position is within the queue's length |
| Renderer.SpliceOne | renderer/app.js:288 | on a valid index exactly that item is removed and the rest keep their order; a large index changes nothing; a non-empty queue otherwise loses one item |
| Renderer.GifConverter.constructor | renderer/app.js:5-14 | nothing loaded, no crop, an empty queue; controls at their initial values |
| Renderer.GifConverter.MouseDown | renderer/app.js:113-119 | a drag starts at the pointer only when the video has a width |
| Renderer.GifConverter.MouseUp | renderer/app.js:130-160 | ending a drag stores the normalised selection when it is large enough and otherwise keeps the old one; stored selections stay at least 10 x 10 |
| Renderer.GifConverter.ClearCrop | renderer/app.js:198-204 | the selection is removed |
| Renderer.GifConverter.LoadBatchFiles | renderer/app.js:272-276 | the queue becomes the paths and the batch section is shown |
| Renderer.GifConverter.SelectMultipleFiles | renderer/app.js:213-222 | one path is returned for loading, several become the queue, none changes nothing |
| Renderer.GifConverter.HandleDrop | renderer/app.js:234-249 | the accepted files are dispatched the same way; the queue only gains accepted dropped paths |
| Renderer.GifConverter.RemoveBatchItem | renderer/app.js:287-294 | the queue is spliced at the index; a valid index shortens it by one; the section is hidden exactly when the queue becomes empty |
| Renderer.GifConverter.AdjustDimensions | renderer/app.js:303-327 | with a video loaded the output size is the source fitted into the box; otherwise nothing changes |
| Renderer.GifConverter.LoadVideo | renderer/app.js:251-270 | the path is recorded even when probing fails; on success the information is stored and the size fitted |
| Renderer.GifConverter.HandleDimensionChange | renderer/app.js:329-348 | with the lock on and a video loaded, the edited side stays and the other is recomputed from the source ratio; a width edit over a zero source height, or a height edit over a zero source width, writes 0; with the lock off or no video nothing changes |
| Renderer.GifConverter.SuggestOptimizations | renderer/app.js:389-416 | colours and fps change as one tuning pass; the size is fitted into the box exactly when it exceeds it, whether or not the tuning fired |
| Renderer.GifConverter.OnEstimate | renderer/app.js:375-382 | the budget is megabytes times 1024 * 1024; an over-budget estimate or an over-size frame triggers one tuning pass |
| Renderer.GifConverter.UpdateProgress | renderer/app.js:458-464 | a non-zero percentage is stored rounded, and stays within 0..100 for input in (0, 100] |
| Renderer.GifConverter.ConversionOptions | renderer/app.js:427-442 | the options carry the crop exactly when a selection exists, so the crop filter is emitted exactly then; the scale filter is emitted exactly when both sides are non-zero; the output size, fps, colours and dither are the controls' values, so the dither reaches the GIF pass's `paletteuse` |
| Renderer.GifConverter.ConversionFilters | renderer/app.js:427-442 | the chain built from those options starts with the crop of the selection's x, y, width and height when one exists, has the scale filter of the output width and height when both are non-zero, and ends with the fps control's rate (15 when zero) |

## Left out

- Window creation, app lifecycle, open/save dialogs and IPC wiring. These are GUI and OS plumbing. Dialog results and awaited replies are parameters.
- Encoder binary discovery, the version probe, process spawning, exit codes and deletion of the palette temp file. These are external processes and file I/O.
- The temp palette path is a parameter of `ConvertCommand.BuildCommands`. The directory it is in is not modelled.
- Progress messages from the GIF pass are not modelled. They are random numbers by design.
- The `estimate-gif-size` handler is not modelled. It is a floating-point heuristic built on `Math.log2`. The estimate it returns is a parameter of `Renderer.GifConverter.OnEstimate`.
- Canvas drawing, drag-over styling, DOM text such as labels, crop info and MB text with `toFixed`, and the mouse-move preview are not modelled. This is UI work.
- The trailing `setTimeout` re-estimate in `suggestOptimizations` is not modelled. It is asynchronous scheduling.
- `selectSingleFile` is not modelled. It is a dialog followed by `loadVideo`, which is modelled.
- Parsing of the structured probe's JSON is not modelled, apart from `r_frame_rate`. It relies on a foreign `JSON.parse`.
- The `Video: .+?(\d{3,5})x(\d{3,5})` pattern is an opaque "dimensions found or not" input of `VideoProbe.ProbeFromBanner`.
- VideoProbe.FrameRate: `Number()` is modelled only for the empty text and plain digit strings. Signs, decimal points, exponents and whitespace are treated as NaN.
- Arithmetic is exact rationals, not IEEE doubles. Where a double would round differently (very long fractions, huge sizes), the model gives the exact value.
- Renderer.GifConverter.HandleDimensionChange: a width edit over a zero source width, or a height edit over a zero source height, leaves the other field unchanged. The source writes `Infinity` or `NaN` into it there, which a natural-number field cannot hold.
- Negative, empty or non-numeric typed dimensions are not modelled. The output size fields are natural numbers.
- Text.DigitsValue: the empty digit string is 0. The duration and rate patterns never hand it an empty string.
