/**
 * The pure specification of `process_video`: what one video frame does to the
 * aggregation state (road accumulator, damage accumulator, pothole registry,
 * frame counter, severity total), what a whole video does, and the summary
 * returned at the end. The imperative run in module VideoProcessing is proved
 * to compute exactly this.
 */
module VideoModel {
  import opened Wrappers
  import opened Raster
  import opened Motion

  /** A pixel is road when some colour channel is brighter than this. */
  const RoadBrightnessCutoff: int := 50
  /** Box centres are quantised to cells of this many pixels in each direction. */
  const CellSize: int := 10

  /** One BGR pixel of a decoded frame (each channel 0..255). */
  datatype Pixel = Pixel(b: int, g: int, r: int)

  type Frame = seq<seq<Pixel>>

  predicate IsFrameShape(f: Frame, h: nat, w: nat) {
    |f| == h && forall i :: 0 <= i < h ==> |f[i]| == w
  }

  /** `(frame[:,:,0] > 50) | (frame[:,:,1] > 50) | (frame[:,:,2] > 50)` at one pixel. */
  predicate IsRoadPixel(p: Pixel) {
    p.b > RoadBrightnessCutoff || p.g > RoadBrightnessCutoff || p.r > RoadBrightnessCutoff
  }

  /** The frame's road pixels as a raster. */
  function RoadPixels(f: Frame): (g: Grid)
    ensures |g| == |f| && forall i :: 0 <= i < |f| ==> |g[i]| == |f[i]|
    ensures forall i, j :: 0 <= i < |f| && 0 <= j < |f[i]| ==> (g[i][j] <==> IsRoadPixel(f[i][j]))
  {
    seq(|f|, i requires 0 <= i < |f| => seq(|f[i]|, j requires 0 <= j < |f[i]| => IsRoadPixel(f[i][j])))
  }

  /** A detector bounding box, corners already truncated to whole pixels. */
  datatype Box = Box(x1: int, y1: int, x2: int, y2: int)

  /** A grid cell identity of the dedup registry. */
  type PotholeId = (int, int)

  /**
   * `((x1 + x2) // 2 // 10, (y1 + y2) // 2 // 10)`: the cell of the box centre.
   * `/` by a positive divisor floors, as Python's `//` does.
   */
  function PotholeIdOf(b: Box): (id: PotholeId)
    ensures 2 * CellSize * id.0 <= b.x1 + b.x2 < 2 * CellSize * (id.0 + 1)
    ensures 2 * CellSize * id.1 <= b.y1 + b.y2 < 2 * CellSize * (id.1 + 1)
  {
    (((b.x1 + b.x2) / 2) / CellSize, ((b.y1 + b.y2) / 2) / CellSize)
  }

  /** The cells of a frame's boxes. */
  function IdsOf(boxes: seq<Box>): set<PotholeId> {
    if |boxes| == 0 then {} else IdsOf(boxes[..|boxes| - 1]) + {PotholeIdOf(boxes[|boxes| - 1])}
  }

  /** The registry additions of a frame are exactly the cells of its boxes, never more than one per box. */
  lemma {:induction false} IdsOfMembers(boxes: seq<Box>)
    ensures forall id :: id in IdsOf(boxes) <==> exists k :: 0 <= k < |boxes| && PotholeIdOf(boxes[k]) == id
    ensures |IdsOf(boxes)| <= |boxes|
  {
    if |boxes| > 0 {
      var init := boxes[..|boxes| - 1];
      IdsOfMembers(init);
      assert forall k :: 0 <= k < |init| ==> init[k] == boxes[k];
    }
  }

  /**
   * Registering boxes only adds cells, at most one per box; a box whose cell
   * is already registered changes nothing.
   */
  lemma RegisterGrowth(ids: set<PotholeId>, boxes: seq<Box>)
    ensures ids <= ids + IdsOf(boxes)
    ensures |ids + IdsOf(boxes)| <= |ids| + |boxes|
    ensures (forall k :: 0 <= k < |boxes| ==> PotholeIdOf(boxes[k]) in ids) ==> ids + IdsOf(boxes) == ids
  {
    IdsOfMembers(boxes);
    assert |ids + IdsOf(boxes)| <= |ids| + |IdsOf(boxes)|;
  }

  /** Two boxes whose centres fall in one cell enlarge the registry by at most one. */
  lemma SameCellCountsOnce(ids: set<PotholeId>, b1: Box, b2: Box)
    requires PotholeIdOf(b1) == PotholeIdOf(b2)
    ensures |ids + IdsOf([b1, b2])| <= |ids| + 1
  {
    assert [b1, b2][..1] == [b1];
    assert [b1][..0] == [];
    assert IdsOf([b1]) == {PotholeIdOf(b1)};
    assert IdsOf([b1, b2]) == {PotholeIdOf(b1)};
  }

  /** `results_list[0]`: the detector's boxes and masks for one frame (either may be absent). */
  datatype Detections = Detections(boxes: Option<seq<Box>>, masks: Option<seq<Grid>>)

  /**
   * Everything the outside world contributes to one frame: the pixels, the
   * keypoint summary, the descriptor matches against the previous frame, the
   * homography oracle's warped frame mask (None when no homography is found)
   * and the detector's result list.
   */
  datatype FrameInput = FrameInput(
    pixels: Frame,
    features: Features,
    matches: seq<Match>,
    warped: Option<Grid>,
    results: seq<Detections>)

  predicate MasksShaped(d: Detections, h: nat, w: nat) {
    d.masks.Some? ==> forall k :: 0 <= k < |d.masks.value| ==> IsShape(d.masks.value[k], h, w)
  }

  /**
   * All rasters of a frame are `h` by `w`, and the warp oracle behaves as
   * `warpPerspective` does on a blank mask: it gives a blank one.
   */
  predicate WellFormedFrame(f: FrameInput, h: nat, w: nat) {
    IsFrameShape(f.pixels, h, w) &&
    (f.warped.Some? ==> IsShape(f.warped.value, h, w)) &&
    (|f.results| > 0 ==> MasksShaped(f.results[0], h, w)) &&
    (|f.results| > 0 && f.warped.Some? && NoneMarked(FrameMask(f.results[0], h, w)) ==>
       NoneMarked(f.warped.value))
  }

  predicate WellFormedFrames(frames: seq<FrameInput>, h: nat, w: nat) {
    forall k :: 0 <= k < |frames| ==> WellFormedFrame(frames[k], h, w)
  }

  /** `binary_mask` before alignment: the OR of every detection mask, blank when there are none. */
  function FrameMask(d: Detections, h: nat, w: nat): (m: Grid)
    ensures IsShape(m, h, w)
  {
    if d.masks.Some? then Union(d.masks.value, h, w) else Blank(h, w)
  }

  /** A pixel of the frame mask is marked exactly when some detection mask marks it. */
  lemma FrameMaskAt(d: Detections, h: nat, w: nat, i: nat, j: nat)
    requires i < h && j < w
    ensures FrameMask(d, h, w)[i][j] <==>
      d.masks.Some? && exists k :: 0 <= k < |d.masks.value| && At(d.masks.value[k], i, j)
  {
    if d.masks.Some? {
      UnionAt(d.masks.value, h, w, i, j);
    }
  }

  /** The five pieces of state `process_video` keeps across frames. */
  datatype Aggregate = Aggregate(
    road: Grid,
    damage: Grid,
    ids: set<PotholeId>,
    frameCount: nat,
    totalSeverity: real)

  predicate Shaped(a: Aggregate, h: nat, w: nat) {
    IsShape(a.road, h, w) && IsShape(a.damage, h, w)
  }

  function Initial(h: nat, w: nat): (a: Aggregate)
    ensures Shaped(a, h, w)
  {
    Aggregate(Blank(h, w), Blank(h, w), {}, 0, 0.0)
  }

  /** Lines 85 to 120 for a frame with a detector result: registry, road and damage updates. */
  function Merge(a: Aggregate, f: Frame, d: Detections, aligned: Grid): (r: Aggregate)
    ensures SameShape(r.road, a.road) && SameShape(r.damage, a.damage)
  {
    a.(ids := a.ids + IdsOf(d.boxes.GetOr([])),
       road := Or(a.road, RoadPixels(f)),
       damage := Or(a.damage, aligned))
  }

  /** `current_damage`: the aligned frame mask against the road seen so far. */
  function CurrentDamage(aligned: Grid, a: Aggregate): real {
    Percent(Count(aligned), Count(a.road))
  }

  /** `total_damage`: the damage accumulator against the road accumulator. */
  function TotalDamage(a: Aggregate): real {
    Percent(Count(a.damage), Count(a.road))
  }

  /** The loop state: the aggregate, the previous frame's features and the last `total_damage` computed. */
  datatype RunState = RunState(agg: Aggregate, prev: Option<Features>, lastTotal: Option<real>)

  function InitialRun(h: nat, w: nat): RunState {
    RunState(Initial(h, w), None, None)
  }

  /** The aligned frame mask of a frame that has a detector result. */
  function AlignedFrameMask(s: RunState, f: FrameInput, h: nat, w: nat): (m: Grid)
    requires |f.results| > 0
    ensures WellFormedFrame(f, h, w) ==> IsShape(m, h, w)
  {
    AlignedMask(FrameMask(f.results[0], h, w), HomographyAttempted(s.prev, f.features, f.matches), f.warped)
  }

  /** One iteration of the frame loop (lines 42 to 135). */
  function FrameStep(s: RunState, f: FrameInput, h: nat, w: nat): (r: RunState)
    ensures SameShape(r.agg.road, s.agg.road) && SameShape(r.agg.damage, s.agg.damage)
  {
    var counted := s.agg.(frameCount := s.agg.frameCount + 1);
    if |f.results| == 0 then
      RunState(counted, Some(f.features), s.lastTotal)
    else
      var merged := Merge(counted, f.pixels, f.results[0], AlignedFrameMask(s, f, h, w));
      RunState(merged, Some(f.features), Some(TotalDamage(merged)))
  }

  /** The loop over every frame of the video, in order. */
  function Run(s: RunState, frames: seq<FrameInput>, h: nat, w: nat): (r: RunState)
    ensures SameShape(r.agg.road, s.agg.road) && SameShape(r.agg.damage, s.agg.damage)
    decreases |frames|
  {
    if |frames| == 0 then s
    else FrameStep(Run(s, frames[..|frames| - 1], h, w), frames[|frames| - 1], h, w)
  }

  /** `avg_severity`: the severity total over the frame count, 0 for a video without frames. */
  function AverageSeverity(a: Aggregate): real {
    if a.frameCount > 0 then a.totalSeverity / (a.frameCount as real) else 0.0
  }

  /** What `process_video` returns. */
  datatype VideoOutcome =
    | VideoError(error: string)
      /** The summary reads `total_damage`, which no frame assigned (an `UnboundLocalError`). */
    | UnboundTotalDamage
    | Report(averageSeverity: real, damagedRoadPercentage: real, videoUrl: Option<string>, totalPotholesDetected: nat)

  /** Lines 189 to 209 as written: the damaged-road figure is the last `total_damage` assigned. */
  function SummaryAsWritten(s: RunState, videoUrl: Option<string>): VideoOutcome {
    if s.lastTotal.None? then UnboundTotalDamage
    else Report(AverageSeverity(s.agg), s.lastTotal.value, videoUrl, |s.agg.ids|)
  }

  /**
   * Lines 189 to 209 with `total_damage` starting at 0 before the loop, as
   * `avg_severity` does for a video without frames.
   */
  function Summary(s: RunState, videoUrl: Option<string>): VideoOutcome {
    Report(AverageSeverity(s.agg), s.lastTotal.GetOr(0.0), videoUrl, |s.agg.ids|)
  }

  /** The source video as the capture sees it. */
  datatype Video = Unopenable | Opened(height: nat, width: nat, frames: seq<FrameInput>)

  predicate WellFormedVideo(v: Video) {
    v.Opened? ==> WellFormedFrames(v.frames, v.height, v.width)
  }

  /** `process_video` from opening the capture to the returned summary. */
  function VideoSpec(v: Video, videoUrl: Option<string>): VideoOutcome {
    if v.Unopenable? then VideoError("Unable to open video file")
    else Summary(Run(InitialRun(v.height, v.width), v.frames, v.height, v.width), videoUrl)
  }

  // ---------------------------------------------------------------------------
  // Properties of one frame

  /**
   * One frame: the counter always advances, the frame's features become the
   * previous ones and the severity total stays; a frame without a detector
   * result leaves road, damage, registry and the last ratio alone.
   */
  lemma FrameStepEffect(s: RunState, f: FrameInput, h: nat, w: nat)
    ensures FrameStep(s, f, h, w).agg.frameCount == s.agg.frameCount + 1
    ensures FrameStep(s, f, h, w).prev == Some(f.features)
    ensures FrameStep(s, f, h, w).agg.totalSeverity == s.agg.totalSeverity
    ensures |f.results| == 0 ==>
      var r := FrameStep(s, f, h, w);
      r.agg.road == s.agg.road && r.agg.damage == s.agg.damage && r.agg.ids == s.agg.ids &&
      r.lastTotal == s.lastTotal
  {
  }

  /**
   * A frame with a detector result: a road pixel is marked exactly when it
   * was marked or is bright, a damage pixel exactly when it was marked or the
   * aligned frame mask marks it, the registry gains the boxes' cells, and the
   * last ratio becomes the ratio of the new accumulators.
   */
  lemma FrameStepMerges(s: RunState, f: FrameInput, h: nat, w: nat)
    requires Shaped(s.agg, h, w) && WellFormedFrame(f, h, w) && |f.results| > 0
    ensures
      var r := FrameStep(s, f, h, w).agg;
      var m := AlignedFrameMask(s, f, h, w);
      (forall i, j :: 0 <= i < h && 0 <= j < w ==>
        (r.road[i][j] <==> s.agg.road[i][j] || IsRoadPixel(f.pixels[i][j])) &&
        (r.damage[i][j] <==> s.agg.damage[i][j] || m[i][j])) &&
      r.ids == s.agg.ids + IdsOf(f.results[0].boxes.GetOr([])) &&
      FrameStep(s, f, h, w).lastTotal == Some(TotalDamage(r))
  {
  }

  /**
   * A frame whose detector result has no mask pixel (no masks, or only empty
   * ones) leaves the damage accumulator as it was, whether or not its mask
   * was warped.
   */
  lemma FrameWithoutMaskKeepsDamage(s: RunState, f: FrameInput, h: nat, w: nat)
    requires Shaped(s.agg, h, w) && WellFormedFrame(f, h, w) && |f.results| > 0
    requires f.results[0].masks.None? ||
      forall k, i, j :: 0 <= k < |f.results[0].masks.value| && 0 <= i < h && 0 <= j < w ==>
        !At(f.results[0].masks.value[k], i, j)
    ensures FrameStep(s, f, h, w).agg.damage == s.agg.damage
  {
    var d := f.results[0];
    forall i, j | 0 <= i < h && 0 <= j < w
      ensures !FrameMask(d, h, w)[i][j]
    {
      FrameMaskAt(d, h, w, i, j);
    }
    var m := AlignedFrameMask(s, f, h, w);
    assert NoneMarked(m);
    OrNoneMarked(s.agg.damage, m);
  }

  /** One frame adds at most as many damage pixels as its aligned mask marks. */
  lemma FrameStepDamageAtMost(s: RunState, f: FrameInput, h: nat, w: nat)
    requires Shaped(s.agg, h, w) && WellFormedFrame(f, h, w) && |f.results| > 0
    ensures Count(FrameStep(s, f, h, w).agg.damage) <= Count(s.agg.damage) + Count(AlignedFrameMask(s, f, h, w))
  {
    CountOrAtMost(s.agg.damage, AlignedFrameMask(s, f, h, w));
  }

  /**
   * The ratios are unbounded as written: damage pixels need not be road
   * pixels, so `total_damage` can exceed 100. A dark two-pixel frame whose
   * detector marks both pixels, one of which is bright, reports 200.
   */
  lemma TotalDamageCanExceedHundred()
    ensures
      var f := FrameInput([[Pixel(0, 0, 0), Pixel(200, 200, 200)]], Features(0, false), [], None,
                          [Detections(None, Some([[[true, true]]]))]);
      WellFormedFrame(f, 1, 2) && FrameStep(InitialRun(1, 2), f, 1, 2).lastTotal == Some(200.0)
  {
    var f := FrameInput([[Pixel(0, 0, 0), Pixel(200, 200, 200)]], Features(0, false), [], None,
                        [Detections(None, Some([[[true, true]]]))]);
    var ms := [[[true, true]]];
    assert Union(ms, 1, 2) == [[true, true]] by {
      assert ms[..0] == [];
      var u := Union(ms, 1, 2);
      assert u[0][0] && u[0][1];
      assert u[0] == [true, true];
    }
    var r := FrameStep(InitialRun(1, 2), f, 1, 2).agg;
    assert r.road == [[false, true]] by {
      assert r.road[0][1] && !r.road[0][0];
      assert r.road[0] == [false, true];
    }
    assert r.damage == [[true, true]];
    assert Count(r.road) == 1 by {
      assert [[false, true]][..0] == [];
      assert [false, true][..1] == [false];
      assert [false][..0] == [];
    }
    assert Count(r.damage) == 2 by {
      assert [[true, true]][..0] == [];
      assert [true, true][..1] == [true];
      assert [true][..0] == [];
    }
  }

  /** When the damage accumulator lies within the road accumulator, `total_damage` is at most 100. */
  lemma TotalDamageBoundedWhenCovered(a: Aggregate)
    requires Covers(a.damage, a.road) && Count(a.road) > 0
    ensures TotalDamage(a) <= 100.0
  {
    CountMono(a.damage, a.road);
    PercentAtMostHundred(Count(a.damage), Count(a.road));
  }

  /** With no road pixel seen yet, both ratios are 0: the guard prevents a division by zero. */
  lemma NoRoadNoDamage(aligned: Grid, a: Aggregate)
    requires forall i, j :: 0 <= i < |a.road| && 0 <= j < |a.road[i]| ==> !a.road[i][j]
    ensures CurrentDamage(aligned, a) == 0.0 && TotalDamage(a) == 0.0
  {
    CountZero(a.road);
  }

  /** A frame mask covering exactly the road seen so far reports a current damage of 100. */
  lemma FullMaskIsHundredPercent(aligned: Grid, a: Aggregate)
    requires SameShape(aligned, a.road) && Covers(aligned, a.road) && Covers(a.road, aligned)
    requires Count(a.road) > 0
    ensures CurrentDamage(aligned, a) == 100.0
  {
    CountMono(aligned, a.road);
    CountMono(a.road, aligned);
    PercentOfWhole(Count(a.road));
  }

  // ---------------------------------------------------------------------------
  // Properties of a whole run

  /** Every frame read is counted, whether or not the detector returned anything. */
  lemma {:induction false} RunCountsFrames(s: RunState, frames: seq<FrameInput>, h: nat, w: nat)
    ensures Run(s, frames, h, w).agg.frameCount == s.agg.frameCount + |frames|
  {
    if |frames| > 0 {
      RunCountsFrames(s, frames[..|frames| - 1], h, w);
    }
  }

  /** No step adds to the severity total. */
  lemma {:induction false} RunKeepsSeverity(s: RunState, frames: seq<FrameInput>, h: nat, w: nat)
    ensures Run(s, frames, h, w).agg.totalSeverity == s.agg.totalSeverity
  {
    if |frames| > 0 {
      RunKeepsSeverity(s, frames[..|frames| - 1], h, w);
    }
  }

  /** So the average severity of every run is 0. */
  lemma AverageSeverityAlwaysZero(frames: seq<FrameInput>, h: nat, w: nat)
    ensures AverageSeverity(Run(InitialRun(h, w), frames, h, w).agg) == 0.0
  {
    RunKeepsSeverity(InitialRun(h, w), frames, h, w);
  }

  /** State `b` extends state `a`: no pixel unmarked, no cell dropped. */
  predicate Grows(a: Aggregate, b: Aggregate) {
    Covers(a.road, b.road) && Covers(a.damage, b.damage) && a.ids <= b.ids
  }

  /** A single frame never unmarks a pixel or drops a cell. */
  lemma FrameStepGrows(s: RunState, f: FrameInput, h: nat, w: nat)
    ensures Grows(s.agg, FrameStep(s, f, h, w).agg)
  {
    if |f.results| > 0 {
      OrCovers(s.agg.road, RoadPixels(f.pixels));
      OrCovers(s.agg.damage, AlignedFrameMask(s, f, h, w));
    }
  }

  lemma GrowsRefl(a: Aggregate)
    ensures Grows(a, a)
  {
  }

  lemma GrowsTrans(a: Aggregate, b: Aggregate, c: Aggregate)
    requires Grows(a, b) && Grows(b, c)
    ensures Grows(a, c)
  {
  }

  /** The last frame of a run extends the state the earlier frames left. */
  lemma RunLastStepGrows(s: RunState, frames: seq<FrameInput>, h: nat, w: nat)
    requires |frames| > 0
    ensures Grows(Run(s, frames[..|frames| - 1], h, w).agg, Run(s, frames, h, w).agg)
  {
    FrameStepGrows(Run(s, frames[..|frames| - 1], h, w), frames[|frames| - 1], h, w);
  }

  /**
   * The accumulators and the registry are append-only over a run: the state
   * after any prefix of the frames is covered by the state after all of them.
   */
  lemma {:induction false} RunGrows(s: RunState, frames: seq<FrameInput>, k: nat, h: nat, w: nat)
    requires k <= |frames|
    ensures Grows(Run(s, frames[..k], h, w).agg, Run(s, frames, h, w).agg)
    decreases |frames|
  {
    if k < |frames| {
      var init := frames[..|frames| - 1];
      assert init[..k] == frames[..k];
      RunGrows(s, init, k, h, w);
      RunLastStepGrows(s, frames, h, w);
      GrowsTrans(Run(s, frames[..k], h, w).agg, Run(s, init, h, w).agg, Run(s, frames, h, w).agg);
    } else {
      assert frames[..k] == frames;
      GrowsRefl(Run(s, frames, h, w).agg);
    }
  }

  /** A state that extends another has at least as many marked pixels and registered cells. */
  lemma GrowsCounts(a: Aggregate, b: Aggregate)
    requires Grows(a, b)
    ensures Count(a.road) <= Count(b.road)
    ensures Count(a.damage) <= Count(b.damage)
    ensures |a.ids| <= |b.ids|
  {
    CountMono(a.road, b.road);
    CountMono(a.damage, b.damage);
    assert b.ids == a.ids + (b.ids - a.ids);
  }

  /**
   * The last `total_damage` of a run, when there is one, is the ratio of the
   * final accumulators; when no frame reached the ratio computation, both
   * accumulators are still blank.
   */
  lemma {:induction false} LastTotalIsFinalRatio(frames: seq<FrameInput>, h: nat, w: nat)
    ensures var r := Run(InitialRun(h, w), frames, h, w);
      r.lastTotal.Some? ==> r.lastTotal.value == TotalDamage(r.agg)
    ensures var r := Run(InitialRun(h, w), frames, h, w);
      r.lastTotal.None? ==> r.agg.road == Blank(h, w) && r.agg.damage == Blank(h, w)
    ensures var r := Run(InitialRun(h, w), frames, h, w);
      r.lastTotal.None? <==> forall k :: 0 <= k < |frames| ==> |frames[k].results| == 0
  {
    if |frames| > 0 {
      var n := |frames| - 1;
      var init := frames[..n];
      LastTotalIsFinalRatio(init, h, w);
      assert forall k :: 0 <= k < n ==> init[k] == frames[k];
    }
  }

  /**
   * The summary as written crashes on a video that opens but yields no frame:
   * `total_damage` is never assigned.
   */
  lemma EmptyVideoSummaryCrashes(h: nat, w: nat, videoUrl: Option<string>)
    ensures SummaryAsWritten(Run(InitialRun(h, w), [], h, w), videoUrl) == UnboundTotalDamage
  {
  }

  /**
   * The corrected summary agrees with the one as written whenever the latter
   * is defined, and the one as written is undefined exactly when no frame
   * had a detector result. Its damaged-road figure is always the ratio of the
   * final accumulators, 0 when no frame had a detector result, and its
   * pothole count is the number of registered cells.
   */
  lemma SummaryCorrected(frames: seq<FrameInput>, h: nat, w: nat, videoUrl: Option<string>)
    ensures var r := Run(InitialRun(h, w), frames, h, w);
      (SummaryAsWritten(r, videoUrl) == UnboundTotalDamage <==>
         forall k :: 0 <= k < |frames| ==> |frames[k].results| == 0) &&
      (SummaryAsWritten(r, videoUrl) == UnboundTotalDamage || SummaryAsWritten(r, videoUrl) == Summary(r, videoUrl))
    ensures var r := Run(InitialRun(h, w), frames, h, w);
      Summary(r, videoUrl) == Report(AverageSeverity(r.agg), TotalDamage(r.agg), videoUrl, |r.agg.ids|)
    ensures var r := Run(InitialRun(h, w), frames, h, w);
      (forall k :: 0 <= k < |frames| ==> |frames[k].results| == 0) ==>
        Summary(r, videoUrl) == Report(AverageSeverity(r.agg), 0.0, videoUrl, 0)
  {
    LastTotalIsFinalRatio(frames, h, w);
    var r := Run(InitialRun(h, w), frames, h, w);
    if r.lastTotal.None? {
      CountZero(r.agg.road);
      NoFramesNoIds(frames, h, w);
    }
  }

  /** `process_video` as written: the summary reads the last `total_damage` assigned. */
  function VideoSpecAsWritten(v: Video, videoUrl: Option<string>): VideoOutcome {
    if v.Unopenable? then VideoError("Unable to open video file")
    else SummaryAsWritten(Run(InitialRun(v.height, v.width), v.frames, v.height, v.width), videoUrl)
  }

  /**
   * The call as written fails exactly when the video opens and no frame has a
   * detector result; everywhere else it gives what the corrected call gives.
   */
  lemma VideoSpecAgrees(v: Video, videoUrl: Option<string>)
    ensures VideoSpecAsWritten(v, videoUrl) == UnboundTotalDamage <==>
      v.Opened? && forall k :: 0 <= k < |v.frames| ==> |v.frames[k].results| == 0
    ensures VideoSpecAsWritten(v, videoUrl) != UnboundTotalDamage ==>
      VideoSpecAsWritten(v, videoUrl) == VideoSpec(v, videoUrl)
  {
    if v.Opened? {
      SummaryCorrected(v.frames, v.height, v.width, videoUrl);
    }
  }

  /**
   * The same cell seen again on later frames is counted once: when every box
   * of every frame lies in cell `c`, the whole run adds at most `c` to the
   * registry.
   */
  lemma {:induction false} OneCellAcrossFrames(s: RunState, frames: seq<FrameInput>, h: nat, w: nat, c: PotholeId)
    requires forall k, b ::
      0 <= k < |frames| && |frames[k].results| > 0 && b in frames[k].results[0].boxes.GetOr([]) ==>
        PotholeIdOf(b) == c
    ensures Run(s, frames, h, w).agg.ids <= s.agg.ids + {c}
    ensures |Run(s, frames, h, w).agg.ids| <= |s.agg.ids| + 1
  {
    if |frames| > 0 {
      var n := |frames| - 1;
      var init := frames[..n];
      assert forall k :: 0 <= k < n ==> init[k] == frames[k];
      OneCellAcrossFrames(s, init, h, w, c);
      var f := frames[n];
      if |f.results| > 0 {
        var boxes := f.results[0].boxes.GetOr([]);
        IdsOfMembers(boxes);
        assert IdsOf(boxes) <= {c};
      }
    }
    SubsetCardinality(Run(s, frames, h, w).agg.ids, s.agg.ids + {c});
  }

  lemma SubsetCardinality(a: set<PotholeId>, b: set<PotholeId>)
    requires a <= b
    ensures |a| <= |b|
  {
    assert b == a + (b - a);
  }

  /** Without a detector result in any frame, the registry stays empty. */
  lemma {:induction false} NoFramesNoIds(frames: seq<FrameInput>, h: nat, w: nat)
    requires forall k :: 0 <= k < |frames| ==> |frames[k].results| == 0
    ensures Run(InitialRun(h, w), frames, h, w).agg.ids == {}
  {
    if |frames| > 0 {
      var n := |frames| - 1;
      var init := frames[..n];
      assert forall i :: 0 <= i < n ==> init[i] == frames[i];
      NoFramesNoIds(init, h, w);
    }
  }
}
