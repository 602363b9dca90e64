/**
 * `predict_pothole` from the detector's answer to the returned report: the
 * early return without masks, the loop over (mask, confidence) pairs that
 * numbers the potholes, ORs every mask into the combined mask, skips masks
 * without a contour and sums the largest contour area of the others, and the
 * severity as a percentage of the image area. `findContours` and
 * `contourArea` are foreign: each mask arrives with the areas of its
 * contours.
 */
module ImageProcessing {
  import opened Wrappers
  import opened Raster

  /** `cv2.contourArea` never returns a negative area. */
  type Area = x: real | 0.0 <= x

  /** One detector mask, read with `> 0`, and the areas of the contours found in it. */
  datatype MaskData = MaskData(pixels: Grid, contourAreas: seq<Area>)

  /** `results_list[i]`: the masks (absent when nothing was segmented) and the box confidences. */
  datatype Inference = Inference(masks: Option<seq<MaskData>>, confidences: seq<real>)

  /** One entry of `pothole_detections`. */
  datatype Detection = Detection(number: nat, confidence: real, percentage: real)

  /** What `predict_pothole` returns once the image is read. */
  datatype ImageOutcome =
    | ImageReport(potholeDetected: bool, severity: real, imageUrl: Option<string>, detections: seq<Detection>)
      /** `area / image_area` with an empty image and a mask that has a contour (a `ZeroDivisionError`). */
    | DivisionByZero

  /** One element of `zip(masks, confidences)`. */
  type Pair = (MaskData, real)

  /** `zip(masks, confidences)`: as many pairs as the shorter of the two. */
  function Zip(ms: seq<MaskData>, cs: seq<real>): (ps: seq<Pair>)
    ensures |ps| == (if |ms| < |cs| then |ms| else |cs|)
    ensures forall k :: 0 <= k < |ps| ==> ps[k] == (ms[k], cs[k])
  {
    var n := if |ms| < |cs| then |ms| else |cs|;
    seq(n, k requires 0 <= k < n => (ms[k], cs[k]))
  }

  /** `cv2.contourArea(max(contours, key=cv2.contourArea))`: the largest of the areas. */
  function LargestArea(areas: seq<Area>): (a: Area)
    requires |areas| > 0
    ensures exists k :: 0 <= k < |areas| && areas[k] == a
    ensures forall k :: 0 <= k < |areas| ==> areas[k] <= a
  {
    if |areas| == 1 then areas[0]
    else
      var m := LargestArea(areas[..|areas| - 1]);
      var last := areas[|areas| - 1];
      assert forall k :: 0 <= k < |areas| - 1 ==> areas[..|areas| - 1][k] == areas[k];
      if m < last then last else m
  }

  /** `(area / image_area) * 100`. */
  function PercentOfImage(area: real, imageArea: nat): real
    requires imageArea > 0
  {
    area / (imageArea as real) * 100.0
  }

  /** The loop's accumulators: `total_pothole_area` and `pothole_detections`. */
  datatype Tally = Tally(total: real, detections: seq<Detection>)

  /**
   * The loop over the pairs, in order: pair `k` (from 0) is pothole `k + 1`;
   * a mask without a contour is skipped; otherwise its largest contour area
   * is added and a detection recorded. None when a division by a zero image
   * area is reached.
   */
  function Scan(ps: seq<Pair>, imageArea: nat): Option<Tally>
    decreases |ps|
  {
    if |ps| == 0 then Some(Tally(0.0, []))
    else
      var before := Scan(ps[..|ps| - 1], imageArea);
      var m := ps[|ps| - 1].0;
      if before.None? || |m.contourAreas| == 0 then before
      else if imageArea == 0 then None
      else
        var area := LargestArea(m.contourAreas);
        Some(Tally(before.value.total + area,
                   before.value.detections + [Detection(|ps|, ps[|ps| - 1].1, PercentOfImage(area, imageArea))]))
  }

  /** Line 100: `(total_pothole_area / image_area) * 100 if image_area > 0 else 0`. */
  function Severity(total: real, imageArea: nat): real {
    if imageArea > 0 then total / (imageArea as real) * 100.0 else 0.0
  }

  /** The binarised masks of the pairs, in order. */
  function PairMasks(ps: seq<Pair>): (gs: seq<Grid>)
    ensures |gs| == |ps| && forall k :: 0 <= k < |ps| ==> gs[k] == ps[k].0.pixels
  {
    seq(|ps|, k requires 0 <= k < |ps| => ps[k].0.pixels)
  }

  /** The early return of lines 38 to 44 applies: no result, or a first result without masks. */
  predicate NoMasks(results: seq<Inference>) {
    |results| == 0 || results[0].masks.None?
  }

  function PairsOf(results: seq<Inference>): seq<Pair>
    requires !NoMasks(results)
  {
    Zip(results[0].masks.value, results[0].confidences)
  }

  /**
   * Lines 36 to 100 and the returned dictionary, for an `h` by `w` image whose
   * processed copy was uploaded to `imageUrl`.
   */
  function ImageSpec(results: seq<Inference>, h: nat, w: nat, imageUrl: Option<string>): ImageOutcome {
    if NoMasks(results) then ImageReport(false, 0.0, None, [])
    else
      var t := Scan(PairsOf(results), h * w);
      if t.None? then DivisionByZero
      else ImageReport(true, Severity(t.value.total, h * w), imageUrl, t.value.detections)
  }

  /** `combined_mask` at the end of the loop. */
  function CombinedMask(results: seq<Inference>, h: nat, w: nat): (g: Grid)
    ensures IsShape(g, h, w)
  {
    if NoMasks(results) then Blank(h, w) else Union(PairMasks(PairsOf(results)), h, w)
  }

  // ---------------------------------------------------------------------------
  // Properties

  /** Without masks the report is negative, with severity 0, no URL and no detections. */
  lemma NoMasksReport(results: seq<Inference>, h: nat, w: nat, imageUrl: Option<string>)
    requires NoMasks(results)
    ensures ImageSpec(results, h, w, imageUrl) == ImageReport(false, 0.0, None, [])
  {
  }

  /** The division by zero happens exactly for an empty image with some mask that has a contour. */
  lemma {:induction false} ScanFails(ps: seq<Pair>, imageArea: nat)
    ensures Scan(ps, imageArea).None? <==>
      imageArea == 0 && exists k :: 0 <= k < |ps| && |ps[k].0.contourAreas| > 0
  {
    if |ps| > 0 {
      var init := ps[..|ps| - 1];
      ScanFails(init, imageArea);
      assert forall k :: 0 <= k < |init| ==> init[k] == ps[k];
    }
  }

  /**
   * The recorded potholes: at most one per pair, numbered by position from 1
   * in strictly increasing order, each with its pair's confidence and the
   * largest contour area of its mask as a percentage of the image.
   */
  lemma {:induction false} ScanNumbering(ps: seq<Pair>, imageArea: nat)
    requires Scan(ps, imageArea).Some?
    ensures var ds := Scan(ps, imageArea).value.detections;
      |ds| <= |ps| &&
      (forall i, j :: 0 <= i < j < |ds| ==> ds[i].number < ds[j].number) &&
      (forall i :: 0 <= i < |ds| ==>
        1 <= ds[i].number <= |ps| &&
        |ps[ds[i].number - 1].0.contourAreas| > 0 && imageArea > 0 &&
        ds[i].confidence == ps[ds[i].number - 1].1 &&
        ds[i].percentage == PercentOfImage(LargestArea(ps[ds[i].number - 1].0.contourAreas), imageArea))
  {
    if |ps| > 0 {
      var init := ps[..|ps| - 1];
      ScanNumbering(init, imageArea);
      assert forall k :: 0 <= k < |init| ==> init[k] == ps[k];
    }
  }

  /** Some detection of `ds` carries number `k`. */
  predicate Recorded(ds: seq<Detection>, k: nat) {
    exists i :: 0 <= i < |ds| && ds[i].number == k
  }

  lemma RecordedAppend(ds: seq<Detection>, d: Detection, k: nat)
    ensures Recorded(ds + [d], k) <==> Recorded(ds, k) || d.number == k
  {
    var e := ds + [d];
    if Recorded(ds, k) {
      var i :| 0 <= i < |ds| && ds[i].number == k;
      assert e[i] == ds[i];
    }
    if d.number == k {
      assert e[|ds|] == d;
    }
  }

  /** The step of the loop on its last pair, as the detections see it. */
  lemma ScanLast(ps: seq<Pair>, imageArea: nat)
    requires |ps| > 0 && Scan(ps, imageArea).Some?
    ensures Scan(ps[..|ps| - 1], imageArea).Some?
    ensures var before := Scan(ps[..|ps| - 1], imageArea).value.detections;
      var ds := Scan(ps, imageArea).value.detections;
      if |ps[|ps| - 1].0.contourAreas| == 0 then ds == before
      else |ds| == |before| + 1 && ds[..|before|] == before && ds[|before|].number == |ps|
  {
  }

  /** Pothole `k` is recorded exactly when mask `k - 1` has a contour: a mask without one leaves a gap. */
  lemma {:induction false} ScanGaps(ps: seq<Pair>, imageArea: nat, k: nat)
    requires Scan(ps, imageArea).Some? && 1 <= k <= |ps|
    ensures Recorded(Scan(ps, imageArea).value.detections, k) <==> |ps[k - 1].0.contourAreas| > 0
  {
    var init := ps[..|ps| - 1];
    ScanLast(ps, imageArea);
    var before := Scan(init, imageArea).value.detections;
    var ds := Scan(ps, imageArea).value.detections;
    if |ps[|ps| - 1].0.contourAreas| > 0 {
      assert ds == before + [ds[|before|]];
      RecordedAppend(before, ds[|before|], k);
    }
    if k < |ps| {
      ScanGaps(init, imageArea, k);
      assert init[k - 1] == ps[k - 1];
    } else {
      ScanNumbering(init, imageArea);
      assert !Recorded(before, k);
    }
  }

  /** The largest contour areas of the masks that have a contour, added up: the reference for the total. */
  function ContourAreaSum(ps: seq<Pair>): real {
    if |ps| == 0 then 0.0
    else
      var last := ps[|ps| - 1].0.contourAreas;
      ContourAreaSum(ps[..|ps| - 1]) + (if |last| > 0 then LargestArea(last) else 0.0)
  }

  /** The sum of the recorded percentages. */
  function PercentageSum(ds: seq<Detection>): real {
    if |ds| == 0 then 0.0 else PercentageSum(ds[..|ds| - 1]) + ds[|ds| - 1].percentage
  }

  /**
   * `total_pothole_area` is the sum of the largest contour areas, and the
   * severity is the sum of the individual percentages.
   */
  lemma {:induction false} ScanTotal(ps: seq<Pair>, imageArea: nat)
    requires Scan(ps, imageArea).Some?
    ensures Scan(ps, imageArea).value.total == ContourAreaSum(ps)
    ensures Severity(Scan(ps, imageArea).value.total, imageArea) ==
      PercentageSum(Scan(ps, imageArea).value.detections)
  {
    if |ps| > 0 {
      var init := ps[..|ps| - 1];
      ScanTotal(init, imageArea);
      var m := ps[|ps| - 1].0;
      if |m.contourAreas| > 0 {
        var before := Scan(init, imageArea).value;
        var ds := Scan(ps, imageArea).value.detections;
        var area := LargestArea(m.contourAreas);
        assert ds[..|ds| - 1] == before.detections;
        SharesAdd(before.total, area, imageArea as real);
      }
    }
  }

  /** Percentages of one whole add up. */
  lemma SharesAdd(x: real, y: real, a: real)
    requires a > 0.0
    ensures (x + y) / a * 100.0 == x / a * 100.0 + y / a * 100.0
  {
    assert (x + y) / a == x / a + y / a;
  }

  /** Each percentage is non-negative, and at most 100 exactly when its area fits in the image. */
  lemma PercentOfImageBounds(area: real, imageArea: nat)
    requires imageArea > 0 && 0.0 <= area
    ensures 0.0 <= PercentOfImage(area, imageArea)
    ensures PercentOfImage(area, imageArea) <= 100.0 <==> area <= imageArea as real
  {
    var a := imageArea as real;
    var p := PercentOfImage(area, imageArea);
    assert p * a == area * 100.0;
    if area <= a {
      assert p * a <= 100.0 * a;
    } else {
      assert p * a > 100.0 * a;
    }
  }

  /**
   * A pixel of the combined mask is marked exactly when the mask of some
   * zipped pair marks it, whether or not that mask has a contour.
   */
  lemma CombinedMaskAt(results: seq<Inference>, h: nat, w: nat, i: nat, j: nat)
    requires !NoMasks(results) && i < h && j < w
    ensures CombinedMask(results, h, w)[i][j] <==>
      exists k :: 0 <= k < |PairsOf(results)| && At(PairsOf(results)[k].0.pixels, i, j)
  {
    var ps := PairsOf(results);
    UnionAt(PairMasks(ps), h, w, i, j);
    if exists k :: 0 <= k < |ps| && At(ps[k].0.pixels, i, j) {
      var k :| 0 <= k < |ps| && At(ps[k].0.pixels, i, j);
      assert At(PairMasks(ps)[k], i, j);
    }
  }

  /**
   * Masks without any contour still count as a detection outcome: the report
   * says a pothole was detected, with severity 0 and no detections listed.
   */
  lemma NoContoursStillDetected(results: seq<Inference>, h: nat, w: nat, imageUrl: Option<string>)
    requires !NoMasks(results)
    requires forall k :: 0 <= k < |PairsOf(results)| ==> |PairsOf(results)[k].0.contourAreas| == 0
    ensures ImageSpec(results, h, w, imageUrl) == ImageReport(true, 0.0, imageUrl, [])
  {
    NoContoursEmpty(PairsOf(results), h * w);
  }

  lemma {:induction false} NoContoursEmpty(ps: seq<Pair>, imageArea: nat)
    requires forall k :: 0 <= k < |ps| ==> |ps[k].0.contourAreas| == 0
    ensures Scan(ps, imageArea) == Some(Tally(0.0, []))
  {
    if |ps| > 0 {
      var init := ps[..|ps| - 1];
      assert forall k :: 0 <= k < |init| ==> init[k] == ps[k];
      NoContoursEmpty(init, imageArea);
    }
  }

  // ---------------------------------------------------------------------------
  // The loop

  /** One more pair: the loop's accumulators after pair `i`, from those before it. */
  lemma ScanStep(ps: seq<Pair>, i: nat, imageArea: nat)
    requires i < |ps|
    ensures var before := Scan(ps[..i], imageArea);
      var m := ps[i].0;
      Scan(ps[..i + 1], imageArea) ==
        if before.None? || |m.contourAreas| == 0 then before
        else if imageArea == 0 then None
        else Some(Tally(before.value.total + LargestArea(m.contourAreas),
          before.value.detections + [Detection(i + 1, ps[i].1, PercentOfImage(LargestArea(m.contourAreas), imageArea))]))
  {
    assert ps[..i + 1][..i] == ps[..i];
  }

  /** One more pair: the combined mask after pair `i`, from the one before it. */
  lemma UnionStep(ps: seq<Pair>, i: nat, h: nat, w: nat)
    requires i < |ps|
    ensures Union(PairMasks(ps[..i + 1]), h, w) == Or(Union(PairMasks(ps[..i]), h, w), ps[i].0.pixels)
  {
    assert PairMasks(ps[..i + 1])[..i] == PairMasks(ps[..i]);
  }

  /** A division by zero on a prefix of the pairs is a division by zero on all of them. */
  lemma ScanFailsOnPrefix(ps: seq<Pair>, i: nat, imageArea: nat)
    requires i <= |ps| && Scan(ps[..i], imageArea).None?
    ensures Scan(ps, imageArea).None?
  {
    ScanFails(ps[..i], imageArea);
    ScanFails(ps, imageArea);
    var k :| 0 <= k < i && |ps[..i][k].0.contourAreas| > 0;
    assert ps[..i][k] == ps[k];
  }

  /** The report once the loop has run over all pairs. */
  lemma SpecOfScan(results: seq<Inference>, h: nat, w: nat, imageUrl: Option<string>)
    requires !NoMasks(results)
    ensures var t := Scan(PairsOf(results), h * w);
      ImageSpec(results, h, w, imageUrl) ==
        if t.None? then DivisionByZero
        else ImageReport(true, Severity(t.value.total, h * w), imageUrl, t.value.detections)
    ensures CombinedMask(results, h, w) == Union(PairMasks(PairsOf(results)), h, w)
  {
  }

  /**
   * Lines 55 to 98: the loop over the pairs, accumulating the total area,
   * the detections and the combined mask; it stops at a division by zero.
   */
  method ScanPairs(ps: seq<Pair>, h: nat, w: nat, imageArea: nat) returns (t: Option<Tally>, combined: Grid)
    ensures t == Scan(ps, imageArea)
    ensures t.Some? ==> combined == Union(PairMasks(ps), h, w)
  {
    combined := Blank(h, w);
    var total: real := 0.0;
    var detections: seq<Detection> := [];
    for i := 0 to |ps|
      invariant Scan(ps[..i], imageArea) == Some(Tally(total, detections))
      invariant combined == Union(PairMasks(ps[..i]), h, w)
    {
      ScanStep(ps, i, imageArea);
      UnionStep(ps, i, h, w);
      var (mask, confidence) := ps[i];
      combined := Or(combined, mask.pixels);
      if |mask.contourAreas| == 0 {
        continue;
      }
      var area := LargestArea(mask.contourAreas);
      if imageArea == 0 {
        ScanFailsOnPrefix(ps, i + 1, imageArea);
        return None, combined;
      }
      total := total + area;
      detections := detections + [Detection(i + 1, confidence, area / (imageArea as real) * 100.0)];
    }
    assert ps[..|ps|] == ps;
    t := Some(Tally(total, detections));
  }

  /**
   * `predict_pothole` from `model.predict` on: returns the report and the
   * combined mask drawn on the processed image.
   */
  method PredictPothole(results: seq<Inference>, h: nat, w: nat, imageUrl: Option<string>)
    returns (r: ImageOutcome, combined: Grid)
    ensures r == ImageSpec(results, h, w, imageUrl)
    ensures r.ImageReport? ==> combined == CombinedMask(results, h, w)
  {
    if |results| == 0 || results[0].masks.None? {
      return ImageReport(false, 0.0, None, []), Blank(h, w);
    }
    var imageArea := h * w;
    var t;
    t, combined := ScanPairs(PairsOf(results), h, w, imageArea);
    SpecOfScan(results, h, w, imageUrl);
    if t.None? {
      return DivisionByZero, combined;
    }
    var severity := if imageArea > 0 then t.value.total / (imageArea as real) * 100.0 else 0.0;
    r := ImageReport(true, severity, imageUrl, t.value.detections);
  }
}
