/**
 * `process_video` as the loop it is: one `AggregationState` per run holds the
 * road and damage accumulators as arrays updated in place, the registry of
 * pothole cells and the two counters; each method is proved to move the
 * state exactly as VideoModel says.
 */
module VideoProcessing {
  import opened Wrappers
  import opened Raster
  import opened Motion
  import opened VideoModel

  class AggregationState {
    const height: nat
    const width: nat
    /** `global_road_mask`: every pixel ever judged road. */
    const road: array2<bool>
    /** `global_pothole_mask`: every pixel ever judged damage. */
    const damage: array2<bool>
    /** `unique_potholes`. */
    var potholeIds: set<PotholeId>
    var frameCount: nat
    var totalSeverity: real

    ghost predicate Valid()
      reads this
    {
      road.Length0 == height && road.Length1 == width &&
      damage.Length0 == height && damage.Length1 == width &&
      road != damage
    }

    /** The state as a value. */
    ghost function Snapshot(): (a: Aggregate)
      reads this, road, damage
      requires Valid()
      ensures Shaped(a, height, width)
    {
      Aggregate(GridOf(road), GridOf(damage), potholeIds, frameCount, totalSeverity)
    }

    /** Lines 24 to 33: counters at zero, empty registry, blank accumulators. */
    constructor (h: nat, w: nat)
      ensures Valid() && height == h && width == w
      ensures fresh(road) && fresh(damage)
      ensures Snapshot() == Initial(h, w)
    {
      height, width := h, w;
      road := new bool[h, w]((_, _) => false);
      damage := new bool[h, w]((_, _) => false);
      potholeIds := {};
      frameCount := 0;
      totalSeverity := 0.0;
      new;
      GridOfIs(road, Blank(h, w));
      GridOfIs(damage, Blank(h, w));
    }

    /** `frame_count += 1`. */
    method CountFrame()
      requires Valid()
      modifies this
      ensures Valid()
      ensures Snapshot() == old(Snapshot()).(frameCount := old(frameCount) + 1)
    {
      frameCount := frameCount + 1;
    }

    /** Lines 86 to 95: each box's cell joins the registry unless it is already there. */
    method RegisterBoxes(boxes: seq<Box>)
      requires Valid()
      modifies this
      ensures Valid()
      ensures Snapshot() == old(Snapshot()).(ids := old(potholeIds) + IdsOf(boxes))
    {
      for k := 0 to |boxes|
        invariant potholeIds == old(potholeIds) + IdsOf(boxes[..k])
        invariant frameCount == old(frameCount) && totalSeverity == old(totalSeverity)
      {
        assert boxes[..k + 1][..k] == boxes[..k];
        var id := PotholeIdOf(boxes[k]);
        if id !in potholeIds {
          potholeIds := potholeIds + {id};
        }
      }
      assert boxes[..|boxes|] == boxes;
    }

    /** Lines 114 to 117: `global_road_mask[new_road_pixels] = 255`. */
    method MarkRoad(frame: Frame)
      requires Valid() && IsFrameShape(frame, height, width)
      modifies road
      ensures Valid()
      ensures Snapshot() == old(Snapshot()).(road := Or(old(GridOf(road)), RoadPixels(frame)))
    {
      ghost var before := GridOf(road);
      for i := 0 to height
        invariant forall r, c :: 0 <= r < i && 0 <= c < width ==>
          road[r, c] == (before[r][c] || IsRoadPixel(frame[r][c]))
        invariant forall r, c :: i <= r < height && 0 <= c < width ==> road[r, c] == before[r][c]
      {
        for j := 0 to width
          invariant forall r, c :: 0 <= r < i && 0 <= c < width ==>
            road[r, c] == (before[r][c] || IsRoadPixel(frame[r][c]))
          invariant forall c :: 0 <= c < j ==> road[i, c] == (before[i][c] || IsRoadPixel(frame[i][c]))
          invariant forall r, c :: i <= r < height && 0 <= c < width && (i < r || j <= c) ==>
            road[r, c] == before[r][c]
        {
          if IsRoadPixel(frame[i][j]) {
            road[i, j] := true;
          }
        }
      }
      GridOfIs(road, Or(before, RoadPixels(frame)));
    }

    /** Line 120: `global_pothole_mask = cv2.bitwise_or(global_pothole_mask, binary_mask)`. */
    method MergeDamage(mask: Grid)
      requires Valid() && IsShape(mask, height, width)
      modifies damage
      ensures Valid()
      ensures Snapshot() == old(Snapshot()).(damage := Or(old(GridOf(damage)), mask))
    {
      ghost var before := GridOf(damage);
      for i := 0 to height
        invariant forall r, c :: 0 <= r < i && 0 <= c < width ==> damage[r, c] == (before[r][c] || mask[r][c])
        invariant forall r, c :: i <= r < height && 0 <= c < width ==> damage[r, c] == before[r][c]
      {
        for j := 0 to width
          invariant forall r, c :: 0 <= r < i && 0 <= c < width ==> damage[r, c] == (before[r][c] || mask[r][c])
          invariant forall c :: 0 <= c < j ==> damage[i, c] == (before[i][c] || mask[i][c])
          invariant forall r, c :: i <= r < height && 0 <= c < width && (i < r || j <= c) ==>
            damage[r, c] == before[r][c]
        {
          if mask[i][j] {
            damage[i, j] := true;
          }
        }
      }
      GridOfIs(damage, Or(before, mask));
    }

    /**
     * Lines 82 to 135 for a frame with a detector result: register the boxes,
     * OR the masks into `binary_mask`, take the warped mask when a homography
     * was attempted and found, mark the road, merge the damage, and compute
     * `current_damage` and `total_damage`.
     */
    method ProcessFrame(frame: Frame, d: Detections, attempted: bool, warped: Option<Grid>)
      returns (current: real, total: real)
      requires Valid() && IsFrameShape(frame, height, width) && MasksShaped(d, height, width)
      requires warped.Some? ==> IsShape(warped.value, height, width)
      modifies this, road, damage
      ensures Valid()
      ensures var aligned := AlignedMask(FrameMask(d, height, width), attempted, warped);
        Snapshot() == Merge(old(Snapshot()), frame, d, aligned) &&
        current == CurrentDamage(aligned, Snapshot()) &&
        total == TotalDamage(Snapshot())
    {
      if d.boxes.Some? {
        RegisterBoxes(d.boxes.value);
      } else {
        assert IdsOf([]) == {};
      }
      var binary := CombineMasks(d, height, width);
      binary := AlignedMask(binary, attempted, warped);
      MarkRoad(frame);
      MergeDamage(binary);
      var roadPixels := CountMarked(road);
      var damagePixels := CountMarked(damage);
      current := Percent(Count(binary), roadPixels);
      total := Percent(damagePixels, roadPixels);
    }
  }

  /** Lines 99 to 104: `binary_mask` starts blank and every detection mask is ORed into it. */
  method CombineMasks(d: Detections, h: nat, w: nat) returns (binary: Grid)
    ensures binary == FrameMask(d, h, w)
  {
    binary := Blank(h, w);
    if d.masks.Some? {
      var ms := d.masks.value;
      for k := 0 to |ms|
        invariant binary == Union(ms[..k], h, w)
      {
        assert ms[..k + 1][..k] == ms[..k];
        binary := Or(binary, ms[k]);
      }
      assert ms[..|ms|] == ms;
    }
  }

  /**
   * `process_video` from opening the capture to the returned summary, with
   * `total_damage` starting at 0: the frame loop keeps the previous frame's
   * features for the homography decision and skips the accumulation for a
   * frame whose detector result list is empty.
   */
  method ProcessVideo(video: Video, videoUrl: Option<string>) returns (r: VideoOutcome)
    requires WellFormedVideo(video)
    ensures r == VideoSpec(video, videoUrl)
    ensures VideoSpecAsWritten(video, videoUrl) != UnboundTotalDamage ==> r == VideoSpecAsWritten(video, videoUrl)
  {
    VideoSpecAgrees(video, videoUrl);
    if video.Unopenable? {
      return VideoError("Unable to open video file");
    }
    var h, w, frames := video.height, video.width, video.frames;
    var st := new AggregationState(h, w);
    var prev: Option<Features> := None;
    var lastTotal: Option<real> := None;
    for k := 0 to |frames|
      invariant st.Valid() && st.height == h && st.width == w
      invariant fresh(st.road) && fresh(st.damage)
      invariant RunState(st.Snapshot(), prev, lastTotal) == Run(InitialRun(h, w), frames[..k], h, w)
    {
      assert frames[..k + 1][..k] == frames[..k];
      var f := frames[k];
      st.CountFrame();
      var attempted := HomographyAttempted(prev, f.features, f.matches);
      prev := Some(f.features);
      if |f.results| == 0 {
        continue;
      }
      var _, total := st.ProcessFrame(f.pixels, f.results[0], attempted, f.warped);
      lastTotal := Some(total);
    }
    assert frames[..|frames|] == frames;
    var average := if st.frameCount > 0 then st.totalSeverity / (st.frameCount as real) else 0.0;
    r := Report(average, lastTotal.GetOr(0.0), videoUrl, |st.potholeIds|);
  }
}
