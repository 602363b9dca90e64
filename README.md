# Pothole severity: a verified model

The repository is a pothole detection service. A segmentation detector runs on
an uploaded road image or video, and the service reports how much of the road is
damaged. This project models the service's three computational parts in Dafny
and proves what each one computes.

- **Video aggregation** (`process_video` in
  `detection/services/video_processing_old.py`). The frame loop keeps two
  persistent bitmaps:
  - a road bitmap: every pixel above 50 in some channel of some frame that got
    a detector result
  - a damage bitmap: every pixel ever covered by a detection mask, warped by
    the inter-frame homography when one was computed

  It also keeps a registry of pothole cells, where each box's centre is
  floor-divided into 10×10 pixel cells, plus a frame counter and a severity
  total. From these it derives per-frame and running damage ratios and, at the
  end, the run summary.
  - `VideoModel` holds the loop as a pure specification: a `FrameStep` for one
    frame, a `Run` over all frames, and a `VideoSpec` for the whole call.
  - `VideoProcessing` holds the loop in its imperative form: an
    `AggregationState` class whose two `array2<bool>` accumulators are updated
    in place. Each of its methods is proved to move the state exactly as
    `VideoModel` says. `ProcessVideo` is proved equal to `VideoSpec`, which
    uses the corrected summary (see "## Findings"). Wherever the code as
    written (`VideoSpecAsWritten`) returns a result, `ProcessVideo` returns
    that same result.
- **Image severity** (`predict_pothole` in
  `detection/services/image_processing_old.py`). The loop pairs masks with
  confidences and ORs every mask into a combined mask. It skips a mask without
  contours. For the others it adds the largest contour's area to the total and
  records a numbered detection with its share of the image. Severity is the
  total area as a percentage of the image.
  - `ImageProcessing.Scan` is the specification.
  - `ImageProcessing.ScanPairs` and `ImageProcessing.PredictPothole` are the
    loop, proved against it.
- **Upload dispatch** (`PotholeDetectionView.post` in `detection/views.py`).
  The view rejects a missing file. It replaces spaces in the name, takes the
  lower-cased extension as POSIX `os.path.splitext` does, and routes the file
  to the image or the video branch. The answer of each branch becomes the JSON
  reply, with the `"Pothole"`/`"No pothole"` or
  `"Potholes"`/`"No pothole detected"` label. This part is pure: it lives in
  `UploadDispatch`.

Some supporting modules:
- `Raster` has boolean grids over `seq<seq<bool>>`: blank grids, pointwise OR,
  unions, pixel counts and the guarded percentage.
- `Motion` covers match selection: sorting matches by distance, keeping at most
  50, and the "more than 10 matches" homography decision.
- `Wrappers` defines `Option`.

Everything the source gets from OpenCV, from the detector or from the upload
service is an input of the model:
- the frames' pixels, the detector results and the keypoint features
- the warp result
- contour areas
- upload URLs

A mask is read as the boolean grid of its nonzero pixels, which is how every
`> 0` and every `bitwise_or` in the source uses it.

The code never adds anything to `total_severity`, so the reported average is
always 0; the model keeps that behaviour, and
`VideoModel.AverageSeverityAlwaysZero` proves it.

## Model

| member | source | states |
|---|---|---|
| Raster.Blank | detection/services/video_processing_old.py:28-33 | the fresh accumulator is an h×w grid with no pixel set |
| Raster.Or | detection/services/video_processing_old.py:120 | `bitwise_or` keeps the first grid's shape, and a pixel is set iff it is set in either grid |
| Raster.Union | detection/services/video_processing_old.py:99-104 | ORing a list of masks into a blank h×w grid gives an h×w grid |
| Raster.UnionAt | detection/services/video_processing_old.py:99-104 | a pixel of the union is set iff some mask in the list has it set |
| Raster.Count | detection/services/video_processing_old.py:123-124 | `np.sum(g > 0)`: the number of set pixels; properties in CountZero, CountMono, CountOrAtMost and CountMarked |
| Raster.CountZero | detection/services/video_processing_old.py:123-124 | a grid with no pixel set counts 0 pixels |
| Raster.CountMono | detection/services/video_processing_old.py:123-124 | if one grid is covered by another of the same shape, its pixel count is no larger |
| Raster.CountOrAtMost | detection/services/video_processing_old.py:120-124 | the count after an OR is at most the sum of the two counts |
| Raster.OrCovers | detection/services/video_processing_old.py:117-120 | merging never clears a pixel, so the count of the accumulator never drops |
| Raster.Percent | detection/services/video_processing_old.py:126-135 | the guarded ratio is 0 when the denominator is 0, nonnegative, and `num/den*100` otherwise |
| Raster.PercentAtMostHundred | detection/services/video_processing_old.py:131-135 | a numerator no larger than the denominator gives at most 100 |
| Raster.PercentOfWhole | detection/services/video_processing_old.py:126-130 | a positive count over itself gives exactly 100 |
| Raster.CountMarked | detection/services/video_processing_old.py:123-124 | the loop over the array counts exactly the set pixels of the grid it holds |
| Motion.SortByDistance | detection/services/video_processing_old.py:56 | `sorted(matches, key=distance)` as an insertion sort; SortByDistanceSorted proves it ascending and a permutation |
| Motion.SortByDistanceSorted | detection/services/video_processing_old.py:56 | the sorted matches are ascending by distance and a permutation of the input |
| Motion.SelectMatches | detection/services/video_processing_old.py:56 | `sorted(...)[:50]` keeps min(n, 50) matches |
| Motion.SelectMatchesBest | detection/services/video_processing_old.py:56 | every kept match comes from the input, the kept ones are ascending, and no dropped match is closer than any kept one |
| Motion.HomographyAttempted | detection/services/video_processing_old.py:52-58 | whether `findHomography` is called for the frame; AttemptedIff states the condition without the cut to 50 |
| Motion.AttemptedIff | detection/services/video_processing_old.py:52-58 | `findHomography` is called iff a previous frame with descriptors exists, the current frame has keypoints and descriptors, and there are more than 10 matches; the cut to 50 never changes this |
| Motion.AlignedMask | detection/services/video_processing_old.py:108-111 | the merged mask is the warped one when a homography was attempted and found, and the unwarped mask otherwise |
| VideoModel.RoadPixels | detection/services/video_processing_old.py:114-116 | a pixel is road iff one of its three channels exceeds 50; the grid has the frame's shape |
| VideoModel.PotholeIdOf | detection/services/video_processing_old.py:87-92 | a cell index is the floor of the box centre's coordinate sum over 20, so a cell spans 20 units of coordinate sum, negative coordinates included |
| VideoModel.IdsOf | detection/services/video_processing_old.py:85-95 | the cells of one frame's boxes; IdsOfMembers, RegisterGrowth, SameCellCountsOnce and OneCellAcrossFrames carry its properties |
| VideoModel.IdsOfMembers | detection/services/video_processing_old.py:85-95 | a cell is registered from a box list iff some box lies in it, and a list adds at most as many cells as it has boxes |
| VideoModel.RegisterGrowth | detection/services/video_processing_old.py:94-95 | registering never removes a cell, adds at most one per box, and adds nothing when every box's cell is already there |
| VideoModel.SameCellCountsOnce | detection/services/video_processing_old.py:90-95 | two boxes in the same cell raise the distinct count by at most one |
| VideoModel.FrameMask | detection/services/video_processing_old.py:82-104 | `binary_mask` is an h×w grid |
| VideoModel.FrameMaskAt | detection/services/video_processing_old.py:99-104 | a pixel of `binary_mask` is set iff some detection mask has it set; with no masks the mask is blank |
| VideoModel.Initial | detection/services/video_processing_old.py:24-33 | the initial accumulators have the video's shape; `AggregationState.constructor` builds exactly this aggregate |
| VideoModel.Merge | detection/services/video_processing_old.py:85-120 | merging a frame keeps the accumulators' shapes |
| VideoModel.AlignedFrameMask | detection/services/video_processing_old.py:99-111 | for a well-formed frame, the (possibly warped) frame mask is an h×w grid |
| VideoModel.FrameStep | detection/services/video_processing_old.py:41-135 | one iteration keeps the accumulators' shapes |
| VideoModel.Run | detection/services/video_processing_old.py:41-184 | the whole loop keeps the accumulators' shapes |
| VideoModel.CurrentDamage | detection/services/video_processing_old.py:126-130 | `current_damage`: the aligned mask's count over the road count, guarded by Percent; see NoRoadNoDamage and FullMaskIsHundredPercent |
| VideoModel.TotalDamage | detection/services/video_processing_old.py:131-135 | `total_damage`: the damage count over the road count, guarded by Percent; see TotalDamageCanExceedHundred, TotalDamageBoundedWhenCovered and LastTotalIsFinalRatio |
| VideoModel.AverageSeverity | detection/services/video_processing_old.py:189 | `avg_severity`: the severity total over the frame count, 0 without frames; AverageSeverityAlwaysZero shows it is always 0 |
| VideoModel.SummaryAsWritten | detection/services/video_processing_old.py:189-209 | the returned summary as written, `UnboundTotalDamage` when no `total_damage` was assigned; see EmptyVideoSummaryCrashes and SummaryCorrected |
| VideoModel.Summary | detection/services/video_processing_old.py:189-209 | the summary with `total_damage` starting at 0; SummaryCorrected relates it to SummaryAsWritten |
| VideoModel.VideoSpec | detection/services/video_processing_old.py:8-209 | the whole call with the corrected summary: the open error, or the summary of `Run`; ProcessVideo is proved equal to it |
| VideoModel.VideoSpecAsWritten | detection/services/video_processing_old.py:8-209 | the whole call as written; VideoSpecAgrees relates it to VideoSpec |
| VideoModel.FrameStepEffect | detection/services/video_processing_old.py:46-76 | every frame read advances `frame_count` and becomes the previous frame; a frame with an empty result list changes nothing else |
| VideoModel.FrameStepMerges | detection/services/video_processing_old.py:85-135 | a frame with results ORs its road pixels into the road bitmap and its aligned mask into the damage bitmap pixel by pixel, registers its boxes' cells, and records the running ratio of the new accumulators |
| VideoModel.FrameWithoutMaskKeepsDamage | detection/services/video_processing_old.py:99-120 | a frame whose result has no mask pixel leaves the damage bitmap unchanged, warped or not |
| VideoModel.FrameStepDamageAtMost | detection/services/video_processing_old.py:120-124 | one frame adds at most as many damage pixels as its aligned mask marks |
| VideoModel.TotalDamageCanExceedHundred | detection/services/video_processing_old.py:131-135 | the running ratio is not bounded by 100: damage outside the road counts against it |
| VideoModel.TotalDamageBoundedWhenCovered | detection/services/video_processing_old.py:131-135 | when the road covers all damage, the running ratio is at most 100 |
| VideoModel.NoRoadNoDamage | detection/services/video_processing_old.py:126-135 | without road pixels, both ratios are 0 |
| VideoModel.FullMaskIsHundredPercent | detection/services/video_processing_old.py:126-130 | a frame mask equal to the road bitmap gives a current ratio of exactly 100 |
| VideoModel.RunCountsFrames | detection/services/video_processing_old.py:41-46 | `frame_count` is the number of frames read |
| VideoModel.RunKeepsSeverity | detection/services/video_processing_old.py:25 | nothing in the loop changes `total_severity` |
| VideoModel.AverageSeverityAlwaysZero | detection/services/video_processing_old.py:189 | the reported average severity is 0 for every video |
| VideoModel.FrameStepGrows | detection/services/video_processing_old.py:95-120 | one frame never clears a road or damage pixel and never drops a registered cell |
| VideoModel.RunGrows | detection/services/video_processing_old.py:41-120 | the state after any prefix of the frames is contained in the final state |
| VideoModel.GrowsCounts | detection/services/video_processing_old.py:123-124 | containment implies road count, damage count and distinct pothole count never decrease |
| VideoModel.LastTotalIsFinalRatio | detection/services/video_processing_old.py:131-135 | the last `total_damage` equals the ratio of the final accumulators; it is unassigned exactly when no frame has results, and then both accumulators are blank |
| VideoModel.EmptyVideoSummaryCrashes | detection/services/video_processing_old.py:204-209 | as written, the summary of a video that opens but yields no frame reads an unassigned `total_damage` |
| VideoModel.SummaryCorrected | detection/services/video_processing_old.py:189-209 | the corrected summary agrees with the one as written wherever that is defined, reports the final ratio and the number of distinct cells, and reports 0 and 0 when no frame had results |
| VideoModel.VideoSpecAgrees | detection/services/video_processing_old.py:8-209 | as written, the call fails exactly when the video opens and no frame has a detector result; everywhere else it agrees with the corrected call |
| VideoModel.OneCellAcrossFrames | detection/services/video_processing_old.py:85-95 | when every box of every frame lies in one cell, the whole run adds at most that cell, so the distinct count rises by at most one |
| VideoModel.NoFramesNoIds | detection/services/video_processing_old.py:74-95 | without a detector result in any frame, no cell is registered |
| VideoProcessing.AggregationState.constructor | detection/services/video_processing_old.py:24-33 | the new state's snapshot is the initial aggregate, over fresh h×w arrays |
| VideoProcessing.AggregationState.CountFrame | detection/services/video_processing_old.py:46 | the counter advances by one and nothing else changes |
| VideoProcessing.AggregationState.RegisterBoxes | detection/services/video_processing_old.py:85-95 | the registry becomes the old one plus the boxes' cells, and nothing else changes |
| VideoProcessing.AggregationState.MarkRoad | detection/services/video_processing_old.py:113-117 | the road array becomes the OR of its old contents and the frame's road pixels, and nothing else changes |
| VideoProcessing.AggregationState.MergeDamage | detection/services/video_processing_old.py:119-120 | the damage array becomes the OR of its old contents and the mask, and nothing else changes |
| VideoProcessing.AggregationState.ProcessFrame | detection/services/video_processing_old.py:78-135 | the state after a frame with results is `Merge` of the old state, and the two returned ratios are the current and running damage of the new state |
| VideoProcessing.CombineMasks | detection/services/video_processing_old.py:82-104 | the mask-ORing loop computes `FrameMask` |
| VideoProcessing.ProcessVideo | detection/services/video_processing_old.py:8-209 | the in-place loop returns exactly `VideoSpec`: the open error, or the corrected summary of the run; wherever the code as written returns a result, it returns that result |
| ImageProcessing.Zip | detection/services/image_processing_old.py:60 | `zip` stops at the shorter list and pairs equal positions |
| ImageProcessing.LargestArea | detection/services/image_processing_old.py:74-75 | the chosen area is one of the contours' areas and no contour is larger |
| ImageProcessing.PairMasks | detection/services/image_processing_old.py:60-63 | the masks ORed into `combined_mask` are the paired masks, in order |
| ImageProcessing.CombinedMask | detection/services/image_processing_old.py:57-63 | `combined_mask` is an h×w grid |
| ImageProcessing.PercentOfImage | detection/services/image_processing_old.py:79 | `pothole_percentage`: an area as a percentage of the image; PercentOfImageBounds bounds it |
| ImageProcessing.Scan | detection/services/image_processing_old.py:60-87 | the loop's tally of the total area and the detections, None on a division by zero; ScanFails, ScanNumbering, ScanGaps and ScanTotal carry its properties, and ScanPairs computes it |
| ImageProcessing.Severity | detection/services/image_processing_old.py:100 | `severity_percentage`, 0 for an empty image; ScanTotal equates it with the sum of the detections' percentages |
| ImageProcessing.ImageSpec | detection/services/image_processing_old.py:36-135 | the answer: the early no-mask report, the division by zero, or the report of the scan; see NoMasksReport, NoContoursStillDetected and PredictPothole |
| ImageProcessing.NoMasksReport | detection/services/image_processing_old.py:36-44 | without results, or without masks, the answer is "no pothole" with severity 0, no URL and no detections |
| ImageProcessing.ScanFails | detection/services/image_processing_old.py:69-79 | the loop divides by zero iff the image area is 0 and some mask has a contour |
| ImageProcessing.ScanNumbering | detection/services/image_processing_old.py:60-87 | detections are numbered 1..n in strictly increasing order; each one comes from a mask with contours, carries that pair's confidence and its area as a percentage of the image, and the image area is positive |
| ImageProcessing.ScanGaps | detection/services/image_processing_old.py:60-71 | number k is recorded iff mask k has at least one contour |
| ImageProcessing.ScanTotal | detection/services/image_processing_old.py:74-100 | the total area is the sum of the largest contour areas of the masks with contours, and severity is the sum of the recorded percentages |
| ImageProcessing.PercentOfImageBounds | detection/services/image_processing_old.py:79 | a share of the image is nonnegative, and at most 100 when the area fits in the image |
| ImageProcessing.CombinedMaskAt | detection/services/image_processing_old.py:57-63 | a pixel of the combined mask is set iff some paired mask has it set, including masks that end up skipped |
| ImageProcessing.NoContoursStillDetected | detection/services/image_processing_old.py:69-135 | when masks exist but none has a contour, the answer still says "pothole detected", with severity 0 and no detections |
| ImageProcessing.ScanPairs | detection/services/image_processing_old.py:55-98 | the loop returns exactly `Scan`, and on success the combined mask is the union of all paired masks |
| ImageProcessing.PredictPothole | detection/services/image_processing_old.py:36-135 | the result is exactly `ImageSpec`, and a report comes with the combined mask of the masks |
| UploadDispatch.Normalize | detection/views.py:18 | spaces become underscores, and every other character and the length stay |
| UploadDispatch.Lower | detection/views.py:19 | lower-casing works character by character and keeps the length |
| UploadDispatch.LastIndexOf | detection/views.py:19 | the last position of a character, or -1, as `splitext` finds the separator and the dot; its ensures bounds it and LastIndexOfIsLast shows no later occurrence |
| UploadDispatch.LastIndexOfIsLast | detection/views.py:19 | the found position holds the character and no later position does |
| UploadDispatch.ExtStart | detection/views.py:19 | where POSIX `splitext` starts the extension: the last dot after the last `/`, when a non-dot precedes it in the base name, otherwise the end; see SplitExtParts and ExtStartLower |
| UploadDispatch.SplitExt | detection/views.py:19 | `os.path.splitext`: root and extension; SplitExtParts carries its properties |
| UploadDispatch.Ext | detection/views.py:19 | `os.path.splitext(name)[1]`; see SplitExtParts and ExtOfLower |
| UploadDispatch.SplitExtParts | detection/views.py:19 | root plus extension is the name; a non-empty extension starts with the last dot, lies after the last separator, and follows a non-dot character of the last component |
| UploadDispatch.ExtOfLower | detection/views.py:19 | taking the extension commutes with lower-casing |
| UploadDispatch.Classify | detection/views.py:22-47 | an extension is an image iff it is `.jpg`, `.jpeg` or `.png`, a video iff it is `.mp4`, `.avi` or `.mov`, and unsupported otherwise |
| UploadDispatch.KindOf | detection/views.py:17-22 | the branch a file name takes: the lowered extension of the space-normalised name, classified; see KindIgnoresCase, KindOfByLastDot, DotFileUnsupported and NoDotUnsupported |
| UploadDispatch.KindIgnoresCase | detection/views.py:18-22 | names equal up to ASCII case get the same branch |
| UploadDispatch.KindOfByLastDot | detection/views.py:17-22 | for a name without `/`, the branch is decided by the text from its last dot, provided a non-dot character precedes that dot |
| UploadDispatch.UpperCaseImage | detection/views.py:19-22 | `.JPG` is classified as an image |
| UploadDispatch.DotFileUnsupported | detection/views.py:19-74 | a name whose only dot is its first character has no extension and is unsupported |
| UploadDispatch.NoDotUnsupported | detection/views.py:19-74 | a name without a dot is unsupported |
| UploadDispatch.Post | detection/views.py:13-74 | the reply of the view; NoFileRejected, UnsupportedIff, ImageReplyShape, VideoReplyShape and StatusCases carry its properties |
| UploadDispatch.NoFileRejected | detection/views.py:14-15 | without a file, the reply is 400 "No file uploaded" |
| UploadDispatch.UnsupportedIff | detection/views.py:22-74 | the reply is 400 "Unsupported file format" iff a file is present and its extension is in neither list |
| UploadDispatch.ImageReplyShape | detection/views.py:22-44 | an image is answered with 500 "Failed to upload image" iff its upload URL is missing or empty; otherwise it gets the service's severity with default 0, the service's URL, and "Pothole" iff the severity is positive |
| UploadDispatch.VideoReplyShape | detection/views.py:47-70 | a video is answered with 500 "Failed to upload video" iff its upload URL is missing or empty; otherwise it gets the average severity with default 0, the service's URL or the uploaded one when the key is absent, and "Potholes" iff the severity is positive |
| UploadDispatch.StatusCases | detection/views.py:13-74 | every reply is a 200 or one of the four errors with its status, and the status is 200 exactly for an image or video reply |

## Left out

- ORB keypoints, brute-force matching and `findHomography` are not computed. Each frame supplies its keypoint count, whether it has descriptors, its matches and the warp outcome (`None` for a failed `findHomography`). The model decides whether the warp is used.
- `warpPerspective`, `cv2.resize` and any interpolation are left out: the warped mask is an input, and masks are taken at frame size. The source's resize of a mask is not modelled.
- The warp oracle is constrained only to have the frame's shape and to map a blank mask to a blank one. Nothing else ties it to the mask it warps.
- Drawing is left out: contours, labels, the confidence text, the half-scaled "Total Damage" label, overlays, and writing the output video or image. None of it affects the reported numbers.
- `findContours` and `contourArea` are not computed: each mask supplies the areas of its contours.
- `model.predict` is not modelled: its result list, with masks, boxes and confidences, is an input.
- Capture and file side effects are parameters: opening and reading the capture, `imread`, downloads, Cloudinary uploads and file removal. The upload URL is an input.
- The download and read failures of `predict_pothole` (lines 27-33 of `image_processing_old.py`) are not modelled. They come before the modelled loop.
- Floating-point arithmetic is not modelled: ratios are exact reals. The rounding to two decimals of severity, percentages and confidences is left out, and so are the `pothole_areas` display strings.
- Box corner truncation (`int(...)` on float coordinates) is taken as done: a box's corners are integers, and the floor divisions after it are modelled exactly.
- The `hasattr(masks, "data")` test is left out: a result's masks are either absent or a list.
- Shape-mismatch errors of `bitwise_or` are not modelled. `Raster.Or` ignores pixels outside the first grid, and `VideoProcessing.ProcessVideo` requires every frame and mask to have the video's shape, as a capture delivers.
- The capture closing before its last frame (`while cap.isOpened()`, line 41) is not modelled; the frame list is the full sequence `cap.read()` yields.
- `UploadDispatch.Lower` lower-cases ASCII letters only. That is exact for the extensions compared, but not the full Unicode `str.lower`.
- `UploadDispatch.Post` takes each service's answer as a parameter. `views.py` imports the newer `image_processing` and `video_processing` modules, and those modules are not part of this model. The `print` debugging lines are left out.
- `UploadDispatch.ImageReplyShape` and `UploadDispatch.VideoReplyShape` do not model a non-numeric severity: a `None` severity would raise a `TypeError` in the comparison with 0.
- VideoProcessing.ProcessVideo: when the video opens and no frame has a detector result, it returns the corrected summary, with a damaged-road percentage of 0. The code as written raises `UnboundLocalError` there (see "## Findings"). In every other case it returns what the code as written returns.
- `Motion.SelectMatches`: the stability of Python's `sorted` among equal distances is not stated; the contract states ascending order, permutation and best-kept.
- `UploadDispatch.UpperCaseImage`: states only the one literal extension `.JPG`. The general case rule is `UploadDispatch.KindIgnoresCase`.
- The model loader, `urls.py`, the newer service modules and the frontend are not part of this model.

## Findings

| source | as written | input that shows it | evidently intended | confidence | as-written member | corrected member |
|---|---|---|---|---|---|---|
| detection/services/video_processing_old.py:206 | `total_damage` is assigned only inside the loop, after the empty-results `continue`, but the summary always reads it | a video that opens but yields no frame, or whose every frame has an empty detector result list: `UnboundLocalError` | report a damaged-road percentage of 0, as `avg_severity` does for zero frames | not executed | VideoModel.EmptyVideoSummaryCrashes | VideoModel.SummaryCorrected |
