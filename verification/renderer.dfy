/** The renderer's output-settings controller (renderer/app.js, class
    `GIFConverter`): the fields behind the settings controls, the crop
    rectangle drawn with the mouse, the batch queue, and the handlers that
    update them. DOM text, canvas drawing and IPC calls are not part of it;
    where a handler waits on the main process, the awaited value is a
    parameter. */
module Renderer {
  import opened Wrappers
  import opened Dimensions
  import VideoProbe
  import opened ConvertCommand

  datatype CropRect = CropRect(x: int, y: int, width: int, height: int)

  datatype Dimension = Width | Height

  /** A file dropped on the drop zone: its MIME type and its path. */
  datatype DroppedFile = DroppedFile(mimeType: string, path: string)

  /** The two settings the auto-tune pass may lower. */
  datatype Knobs = Knobs(colors: int, fps: int)

  const ColorsCap: int := 128
  const FpsCap: int := 10
  const MinCropSide: real := 10.0

  function Min(a: int, b: int): int {
    if a <= b then a else b
  }

  // Crop normalisation (mouse-up handler)

  /** The selection stored when a drag from (startX, startY) to (endX, endY) on
      the overlay ends; the scales convert overlay pixels to video pixels. A
      drag whose scaled sides are not both larger than 10 stores nothing. */
  function NormalizeCrop(startX: int, startY: int, endX: int, endY: int, scaleX: real, scaleY: real)
    : (r: Option<CropRect>)
    ensures r.Some? <==>
              Abs(endX - startX) as real * scaleX > MinCropSide && Abs(endY - startY) as real * scaleY > MinCropSide
    ensures r.Some? ==> r.value.width >= 10 && r.value.height >= 10
    ensures r.Some? ==> r.value.x == Round(Min(startX, endX) as real * scaleX)
                        && r.value.y == Round(Min(startY, endY) as real * scaleY)
                        && r.value.width == Round(Abs(endX - startX) as real * scaleX)
                        && r.value.height == Round(Abs(endY - startY) as real * scaleY)
    ensures r.Some? && startX >= 0 && endX >= 0 && scaleX >= 0.0 ==> r.value.x >= 0
    ensures r.Some? && startY >= 0 && endY >= 0 && scaleY >= 0.0 ==> r.value.y >= 0
  {
    CropFromSpan(Min(startX, endX), Abs(endX - startX), Min(startY, endY), Abs(endY - startY), scaleX, scaleY)
  }

  /** The selection for a drag spanning `width` pixels right of `left` and
      `height` pixels below `top`. */
  function CropFromSpan(left: int, width: nat, top: int, height: nat, scaleX: real, scaleY: real)
    : (r: Option<CropRect>)
    ensures r.Some? <==> width as real * scaleX > MinCropSide && height as real * scaleY > MinCropSide
    ensures r.Some? ==> r.value.width >= 10 && r.value.height >= 10
    ensures r.Some? ==> r.value.x == Round(left as real * scaleX) && r.value.y == Round(top as real * scaleY)
                        && r.value.width == Round(width as real * scaleX)
                        && r.value.height == Round(height as real * scaleY)
    ensures r.Some? && left >= 0 && scaleX >= 0.0 ==> r.value.x >= 0
    ensures r.Some? && top >= 0 && scaleY >= 0.0 ==> r.value.y >= 0
  {
    var cropWidth := width as real * scaleX;
    var cropHeight := height as real * scaleY;
    if cropWidth > MinCropSide && cropHeight > MinCropSide then
      NonNegativeProduct(left, scaleX);
      NonNegativeProduct(top, scaleY);
      Some(CropRect(Round(left as real * scaleX), Round(top as real * scaleY), Round(cropWidth), Round(cropHeight)))
    else
      None
  }

  lemma NonNegativeProduct(a: int, s: real)
    ensures a >= 0 && s >= 0.0 ==> a as real * s >= 0.0
  {
    if a >= 0 && s >= 0.0 {
      Dimensions.RealMulMono(s, 0.0, a as real);
    }
  }

  /** Dragging from any corner of a rectangle to the opposite one gives the same selection. */
  lemma CropFromAnyCorner(x0: int, y0: int, x1: int, y1: int, scaleX: real, scaleY: real)
    ensures NormalizeCrop(x1, y1, x0, y0, scaleX, scaleY) == NormalizeCrop(x0, y0, x1, y1, scaleX, scaleY)
    ensures NormalizeCrop(x1, y0, x0, y1, scaleX, scaleY) == NormalizeCrop(x0, y0, x1, y1, scaleX, scaleY)
    ensures NormalizeCrop(x0, y1, x1, y0, scaleX, scaleY) == NormalizeCrop(x0, y0, x1, y1, scaleX, scaleY)
  {
    assert Abs(x0 - x1) == Abs(x1 - x0) && Abs(y0 - y1) == Abs(y1 - y0);
    assert Min(x0, x1) == Min(x1, x0) && Min(y0, y1) == Min(y1, y0);
    var r := CropFromSpan(Min(x0, x1), Abs(x1 - x0), Min(y0, y1), Abs(y1 - y0), scaleX, scaleY);
    assert NormalizeCrop(x0, y0, x1, y1, scaleX, scaleY) == r;
    assert NormalizeCrop(x1, y1, x0, y0, scaleX, scaleY) == r;
    assert NormalizeCrop(x1, y0, x0, y1, scaleX, scaleY) == r;
    assert NormalizeCrop(x0, y1, x1, y0, scaleX, scaleY) == r;
  }

  // Single-step auto-tune (suggestOptimizations, colour and fps branch)

  /** One tuning pass: over budget, colours above 128 drop to 128; failing
      that, fps above 10 drops to 10; nothing else changes. */
  function TuneKnobs(k: Knobs, overBudget: bool): (r: Knobs)
    ensures r.colors <= k.colors && r.fps <= k.fps
    ensures r.colors == k.colors || r.fps == k.fps
    ensures !overBudget ==> r == k
    ensures overBudget && k.colors > ColorsCap ==> r.colors == ColorsCap && r.fps == k.fps
    ensures overBudget && k.colors <= ColorsCap && k.fps > FpsCap ==> r.fps == FpsCap && r.colors == k.colors
    ensures overBudget && k.colors <= ColorsCap && k.fps <= FpsCap ==> r == k
  {
    if overBudget && k.colors > ColorsCap then Knobs(ColorsCap, k.fps)
    else if overBudget && k.fps > FpsCap then Knobs(k.colors, FpsCap)
    else k
  }

  /** Repeated over-budget passes settle after at most two: colours at most
      128, fps at most 10, and a further pass changes nothing. */
  lemma TuneSettles(k: Knobs)
    ensures var twice := TuneKnobs(TuneKnobs(k, true), true);
      twice.colors <= ColorsCap && twice.fps <= FpsCap && TuneKnobs(twice, true) == twice
  {
  }

  // Batch queue

  predicate IsAcceptedVideo(f: DroppedFile) {
    f.mimeType == "video/mp4" || f.mimeType == "video/quicktime"
  }

  /** The dropped files whose MIME type is MP4 or QuickTime, in drop order. */
  function AcceptedVideos(files: seq<DroppedFile>): (r: seq<DroppedFile>)
    ensures |r| <= |files|
    ensures forall f :: f in r <==> f in files && IsAcceptedVideo(f)
    decreases |files|
  {
    if files == [] then []
    else (if IsAcceptedVideo(files[0]) then [files[0]] else []) + AcceptedVideos(files[1..])
  }

  /** Filtering keeps order: the filter of a concatenation is the concatenation of the filters. */
  lemma {:induction false} AcceptedVideosAppend(a: seq<DroppedFile>, b: seq<DroppedFile>)
    ensures AcceptedVideos(a + b) == AcceptedVideos(a) + AcceptedVideos(b)
    decreases |a|
  {
    if a != [] {
      assert (a + b)[1..] == a[1..] + b;
      AcceptedVideosAppend(a[1..], b);
    } else {
      assert a + b == b;
    }
  }

  /** A drop made only of accepted videos is kept whole. */
  lemma {:induction false} AllAcceptedKept(files: seq<DroppedFile>)
    requires forall i | 0 <= i < |files| :: IsAcceptedVideo(files[i])
    ensures AcceptedVideos(files) == files
    decreases |files|
  {
    if files != [] {
      AllAcceptedKept(files[1..]);
    }
  }

  /** The paths of the files, in order. */
  function Paths(files: seq<DroppedFile>): seq<string>
  {
    seq(|files|, i requires 0 <= i < |files| => files[i].path)
  }

  /** The position `Array.prototype.splice(index, 1)` starts at: a negative
      index counts from the end (clamped at 0), a large one clamps to the length. */
  function SpliceStart(length: nat, index: int): (start: nat)
    ensures start <= length
  {
    if index < 0 then (if length + index < 0 then 0 else length + index)
    else if index < length then index
    else length
  }

  /** `queue.splice(index, 1)`: remove the item at the start position, if any. */
  function SpliceOne(queue: seq<string>, index: int): (r: seq<string>)
    ensures 0 <= index < |queue| ==>
              |r| == |queue| - 1 && r[..index] == queue[..index] && r[index..] == queue[index + 1..]
              && multiset(r) + multiset{queue[index]} == multiset(queue)
    ensures index >= |queue| ==> r == queue
    ensures queue != [] && index < |queue| ==> |r| == |queue| - 1
  {
    var start := SpliceStart(|queue|, index);
    if start < |queue| then
      assert queue == queue[..start] + [queue[start]] + queue[start + 1..];
      queue[..start] + queue[start + 1..]
    else
      queue
  }

  /** The application object: the settings controls, the crop tool's state,
      the loaded video and the batch queue. */
  class GifConverter {
    var currentVideo: Option<string>
    var videoInfo: Option<VideoProbe.VideoInfo>
    var cropSelection: Option<CropRect>
    var batchQueue: seq<string>
    var batchSectionVisible: bool
    var outputWidth: nat
    var outputHeight: nat
    var maintainAspect: bool
    var fps: int
    var colors: int
    var dither: string
    var progressPercent: int
    // the crop tool's drag state
    var isDrawing: bool
    var startX: int
    var startY: int

    /** A stored crop selection is never smaller than 10 x 10. */
    ghost predicate Valid()
      reads this`cropSelection
    {
      cropSelection.Some? ==> cropSelection.value.width >= 10 && cropSelection.value.height >= 10
    }

    /** A fresh controller: nothing loaded, no crop, an empty queue, and the
        controls at the page's initial values. */
    constructor (width: nat, height: nat, initialFps: int, initialColors: int, initialDither: string, aspect: bool)
      ensures Valid()
      ensures currentVideo.None? && videoInfo.None? && cropSelection.None?
      ensures batchQueue == [] && !batchSectionVisible && !isDrawing
      ensures outputWidth == width && outputHeight == height && maintainAspect == aspect
      ensures fps == initialFps && colors == initialColors && dither == initialDither
      ensures progressPercent == 0
    {
      currentVideo, videoInfo, cropSelection := None, None, None;
      batchQueue, batchSectionVisible := [], false;
      outputWidth, outputHeight, maintainAspect := width, height, aspect;
      fps, colors, dither := initialFps, initialColors, initialDither;
      progressPercent := 0;
      isDrawing, startX, startY := false, 0, 0;
    }

    /** Mouse-down on the crop overlay starts a drag once the video has a size. */
    method MouseDown(offsetX: int, offsetY: int, videoWidth: nat)
      modifies this`isDrawing, this`startX, this`startY
      ensures videoWidth == 0 ==> isDrawing == old(isDrawing) && startX == old(startX) && startY == old(startY)
      ensures videoWidth != 0 ==> isDrawing && startX == offsetX && startY == offsetY
    {
      if videoWidth == 0 {
        return;
      }
      isDrawing := true;
      startX, startY := offsetX, offsetY;
    }

    /** Mouse-up ends the drag and stores the normalised selection when it is large enough. */
    method MouseUp(offsetX: int, offsetY: int, scaleX: real, scaleY: real)
      requires Valid()
      modifies this`isDrawing, this`cropSelection
      ensures Valid()
      ensures !old(isDrawing) ==> isDrawing == old(isDrawing) && cropSelection == old(cropSelection)
      ensures old(isDrawing) ==> !isDrawing
      ensures old(isDrawing) ==>
                cropSelection == (if NormalizeCrop(startX, startY, offsetX, offsetY, scaleX, scaleY).Some?
                                  then NormalizeCrop(startX, startY, offsetX, offsetY, scaleX, scaleY)
                                  else old(cropSelection))
    {
      if !isDrawing {
        return;
      }
      isDrawing := false;
      var selection := NormalizeCrop(startX, startY, offsetX, offsetY, scaleX, scaleY);
      if selection.Some? {
        cropSelection := selection;
      }
    }

    method ClearCrop()
      modifies this`cropSelection
      ensures Valid() && cropSelection.None?
    {
      cropSelection := None;
    }

    /** `loadBatchFiles`: the queue becomes the given paths and the batch section is shown. */
    method LoadBatchFiles(paths: seq<string>)
      modifies this`batchQueue, this`batchSectionVisible
      ensures batchQueue == paths && batchSectionVisible
    {
      batchQueue := paths;
      batchSectionVisible := true;
    }

    /** `selectMultipleFiles` after the dialog answered: a single path is
        returned to be loaded as the current video, several become the batch
        queue, none changes nothing. */
    method SelectMultipleFiles(filePaths: seq<string>) returns (toLoad: Option<string>)
      modifies this`batchQueue, this`batchSectionVisible
      ensures |filePaths| == 1 ==> toLoad == Some(filePaths[0])
      ensures |filePaths| != 1 ==> toLoad.None?
      ensures |filePaths| >= 2 ==> batchQueue == filePaths && batchSectionVisible
      ensures |filePaths| < 2 ==> batchQueue == old(batchQueue) && batchSectionVisible == old(batchSectionVisible)
    {
      toLoad := None;
      if |filePaths| > 0 {
        if |filePaths| == 1 {
          toLoad := Some(filePaths[0]);
        } else {
          LoadBatchFiles(filePaths);
        }
      }
    }

    /** `handleDrop`: keep the MP4 and QuickTime files, then dispatch their
        paths the way a multiple selection is dispatched. */
    method HandleDrop(files: seq<DroppedFile>) returns (toLoad: Option<string>)
      modifies this`batchQueue, this`batchSectionVisible
      ensures |AcceptedVideos(files)| == 1 ==> toLoad == Some(AcceptedVideos(files)[0].path)
      ensures |AcceptedVideos(files)| != 1 ==> toLoad.None?
      ensures |AcceptedVideos(files)| >= 2 ==> batchQueue == Paths(AcceptedVideos(files)) && batchSectionVisible
      ensures |AcceptedVideos(files)| < 2 ==>
                batchQueue == old(batchQueue) && batchSectionVisible == old(batchSectionVisible)
      ensures forall p :: p in batchQueue ==> p in old(batchQueue) || exists f :: f in files && IsAcceptedVideo(f) && f.path == p
    {
      toLoad := SelectMultipleFiles(Paths(AcceptedVideos(files)));
    }

    /** `removeBatchItem`: splice the item out; hide the section when the queue empties. */
    method RemoveBatchItem(index: int)
      modifies this`batchQueue, this`batchSectionVisible
      ensures batchQueue == SpliceOne(old(batchQueue), index)
      ensures batchSectionVisible == (old(batchSectionVisible) && batchQueue != [])
      ensures 0 <= index < |old(batchQueue)| ==> |batchQueue| == |old(batchQueue)| - 1
      ensures 0 <= index < |old(batchQueue)| ==> (batchSectionVisible <==> old(batchSectionVisible) && |old(batchQueue)| > 1)
    {
      batchQueue := SpliceOne(batchQueue, index);
      if |batchQueue| == 0 {
        batchSectionVisible := false;
      }
    }

    /** `adjustDimensions`: with a video loaded, the output size becomes the
        source size fitted into the 250 x 80 box. */
    method AdjustDimensions()
      modifies this`outputWidth, this`outputHeight
      ensures videoInfo.None? ==> outputWidth == old(outputWidth) && outputHeight == old(outputHeight)
      ensures videoInfo.Some? ==>
                Dims(outputWidth, outputHeight) == FitInBox(videoInfo.value.width, videoInfo.value.height)
      ensures videoInfo.Some? ==> outputWidth <= MaxWidth && outputHeight <= MaxHeight
    {
      if videoInfo.None? {
        return;
      }
      var fitted := FitInBox(videoInfo.value.width, videoInfo.value.height);
      outputWidth, outputHeight := fitted.width, fitted.height;
    }

    /** `loadVideo` after the probe answered: the path is recorded first; on
        success the information is stored and the dimensions adjusted, on
        failure nothing else changes. */
    method LoadVideo(filePath: string, probe: Result<VideoProbe.VideoInfo>)
      modifies this`currentVideo, this`videoInfo, this`outputWidth, this`outputHeight
      ensures currentVideo == Some(filePath)
      ensures probe.Success? ==> videoInfo == Some(probe.value)
                                 && Dims(outputWidth, outputHeight) == FitInBox(probe.value.width, probe.value.height)
      ensures probe.Failure? ==> videoInfo == old(videoInfo)
                                 && outputWidth == old(outputWidth) && outputHeight == old(outputHeight)
    {
      currentVideo := Some(filePath);
      if probe.Failure? {
        return;
      }
      videoInfo := Some(probe.value);
      AdjustDimensions();
    }

    /** `handleDimensionChange`: with the aspect lock on and a video loaded,
        editing one side recomputes the other from the source's aspect ratio.
        A zero source side makes the ratio 0 or infinite: a width edit over a
        zero source height, or a height edit over a zero source width, writes 0. */
    method HandleDimensionChange(changed: Dimension)
      modifies this`outputWidth, this`outputHeight
      ensures !maintainAspect || videoInfo.None? ==>
                outputWidth == old(outputWidth) && outputHeight == old(outputHeight)
      ensures maintainAspect && videoInfo.Some? && changed == Width ==>
                var source := Dims(videoInfo.value.width, videoInfo.value.height);
                outputWidth == old(outputWidth)
                && outputHeight == (if source.width > 0 && source.height > 0 then LockedHeight(old(outputWidth), source)
                                    else if source.width > 0 then 0
                                    else old(outputHeight))
      ensures maintainAspect && videoInfo.Some? && changed == Height ==>
                var source := Dims(videoInfo.value.width, videoInfo.value.height);
                outputHeight == old(outputHeight)
                && outputWidth == (if source.width > 0 && source.height > 0 then LockedWidth(old(outputHeight), source)
                                   else if source.height > 0 then 0
                                   else old(outputWidth))
    {
      if !maintainAspect || videoInfo.None? {
        return;
      }
      var source := Dims(videoInfo.value.width, videoInfo.value.height);
      if changed == Width {
        if source.width > 0 && source.height > 0 {
          outputHeight := LockedHeight(outputWidth, source);
        } else if source.width > 0 {
          // newWidth / Infinity
          outputHeight := 0;
        }
      } else {
        if source.width > 0 && source.height > 0 {
          outputWidth := LockedWidth(outputHeight, source);
        } else if source.height > 0 {
          // newHeight * 0
          outputWidth := 0;
        }
      }
    }

    /** `suggestOptimizations`: one tuning pass over colours and fps when the
        estimate is over budget, and, independently, a fit of the given size
        into the box when it exceeds it. */
    method SuggestOptimizations(currentSize: real, maxSize: real, width: nat, height: nat)
      modifies this`colors, this`fps, this`outputWidth, this`outputHeight
      ensures Knobs(colors, fps) == TuneKnobs(old(Knobs(colors, fps)), currentSize > maxSize)
      ensures width > MaxWidth || height > MaxHeight ==> Dims(outputWidth, outputHeight) == FitInBox(width, height)
      ensures width > MaxWidth || height > MaxHeight ==> outputWidth <= MaxWidth && outputHeight <= MaxHeight
      ensures width <= MaxWidth && height <= MaxHeight ==>
                outputWidth == old(outputWidth) && outputHeight == old(outputHeight)
    {
      if currentSize > maxSize {
        if colors > ColorsCap {
          colors := ColorsCap;
        } else if fps > FpsCap {
          fps := FpsCap;
        }
      }
      if width > MaxWidth || height > MaxHeight {
        var fitted := FitInBox(width, height);
        outputWidth, outputHeight := fitted.width, fitted.height;
      }
    }

    /** The continuation of `estimateFileSize` once the estimate arrives: the
        budget is the slider's megabytes times 1024 * 1024, and a size over
        budget or a frame over the box triggers one tuning pass. */
    method OnEstimate(estimatedBytes: int, maxSizeMegabytes: real, width: nat, height: nat)
      modifies this`colors, this`fps, this`outputWidth, this`outputHeight
      ensures var over := estimatedBytes as real > maxSizeMegabytes * 1048576.0;
        Knobs(colors, fps) == TuneKnobs(old(Knobs(colors, fps)), over)
      ensures width > MaxWidth || height > MaxHeight ==> Dims(outputWidth, outputHeight) == FitInBox(width, height)
      ensures width <= MaxWidth && height <= MaxHeight ==>
                outputWidth == old(outputWidth) && outputHeight == old(outputHeight)
    {
      var maxSize := maxSizeMegabytes * 1024.0 * 1024.0;
      if estimatedBytes as real > maxSize || width > MaxWidth || height > MaxHeight {
        SuggestOptimizations(estimatedBytes as real, maxSize, width, height);
      }
    }

    /** `updateProgress`: a non-zero percentage is shown rounded. */
    method UpdateProgress(percent: real)
      modifies this`progressPercent
      ensures percent == 0.0 ==> progressPercent == old(progressPercent)
      ensures percent != 0.0 ==> progressPercent == Round(percent)
      ensures 0.0 < percent <= 100.0 ==> 0 <= progressPercent <= 100
    {
      if percent != 0.0 {
        progressPercent := Round(percent);
      }
    }

    /** The options `convertToGIF` sends for the loaded video: the output
        size, fps, colours and dither from the controls, and the crop fields
        only when a selection exists. */
    function ConversionOptions(outputPath: string): (o: ConvertOptions)
      reads this`currentVideo, this`cropSelection, this`outputWidth, this`outputHeight
      reads this`fps, this`colors, this`dither
      requires currentVideo.Some? && Valid()
      ensures o.inputPath == currentVideo.value && o.outputPath == outputPath
      ensures HasCrop(o) <==> cropSelection.Some?
      ensures HasScale(o) <==> outputWidth > 0 && outputHeight > 0
      ensures OrDefault(o.fps, DefaultFps) == (if fps != 0 then fps else DefaultFps)
      ensures OrDefault(o.colors, DefaultColors) == (if colors != 0 then colors else DefaultColors)
      ensures o.outputWidth == Some(outputWidth) && o.outputHeight == Some(outputHeight)
      ensures o.fps == Some(fps) && o.colors == Some(colors) && o.dither == dither
    {
      var base := ConvertOptions(currentVideo.value, outputPath, None, None, None, None,
                                 Some(outputWidth), Some(outputHeight), Some(fps), Some(colors), dither);
      if cropSelection.Some? then
        base.(cropX := Some(cropSelection.value.x), cropY := Some(cropSelection.value.y),
              cropWidth := Some(cropSelection.value.width), cropHeight := Some(cropSelection.value.height))
      else
        base
    }

    /** The filter chain the main process builds from these options: the
        selection's crop first when one exists, then the output size's scale
        filter when both sides are non-zero, and the fps control last (15 when zero). */
    lemma ConversionFilters(outputPath: string)
      requires currentVideo.Some? && Valid()
      ensures var filters := Filters(ConversionOptions(outputPath));
        && |filters| == (if cropSelection.Some? then 1 else 0) + (if outputWidth > 0 && outputHeight > 0 then 2 else 1)
        && (cropSelection.Some? ==>
              filters[0] == CropFilter(cropSelection.value.width, cropSelection.value.height,
                                       cropSelection.value.x, cropSelection.value.y))
        && (outputWidth > 0 && outputHeight > 0 ==> filters[|filters| - 2] == ScaleFilter(outputWidth, outputHeight))
        && filters[|filters| - 1] == FpsFilter(if fps != 0 then fps else DefaultFps)
    {
    }
  }
}
