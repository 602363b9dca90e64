/**
 * The part of the motion compensator that the pipeline decides by itself:
 * which descriptor matches are kept and whether a homography is attempted.
 * Keypoint extraction, descriptor matching, the homography estimate and the
 * warp are foreign numerics; they reach the model as per-frame inputs.
 */
module Motion {
  import opened Wrappers

  /** At most this many of the best matches are kept. */
  const MaxKeptMatches: nat := 50
  /** A homography is attempted only with strictly more kept matches than this. */
  const MinHomographyMatches: nat := 10

  /**
   * What `orb.detectAndCompute` gives for one frame, as far as the pipeline
   * tests it: how many keypoints, and whether a descriptor array came back.
   */
  datatype Features = Features(keypoints: nat, hasDescriptors: bool)

  /** One descriptor match (`cv2.DMatch`); the Hamming distance is a whole number. */
  datatype Match = Match(queryIdx: nat, trainIdx: nat, distance: nat)

  predicate SortedByDistance(s: seq<Match>) {
    forall i, j :: 0 <= i < j < |s| ==> s[i].distance <= s[j].distance
  }

  /** Every match of `s` is at least as far as `d`. */
  predicate AllAtLeast(s: seq<Match>, d: nat) {
    forall i :: 0 <= i < |s| ==> d <= s[i].distance
  }

  /** Places `m` before the first match of `s` that is not closer than it. */
  function InsertByDistance(m: Match, s: seq<Match>): seq<Match> {
    if |s| == 0 then [m]
    else if m.distance <= s[0].distance then [m] + s
    else [s[0]] + InsertByDistance(m, s[1..])
  }

  /** `sorted(matches, key=lambda x: x.distance)`. */
  function SortByDistance(s: seq<Match>): seq<Match> {
    if |s| == 0 then [] else InsertByDistance(s[0], SortByDistance(s[1..]))
  }

  /** Inserting adds exactly `m`. */
  lemma {:induction false} InsertByDistanceMultiset(m: Match, s: seq<Match>)
    ensures multiset(InsertByDistance(m, s)) == multiset(s) + multiset{m}
  {
    if |s| > 0 && m.distance > s[0].distance {
      assert s == [s[0]] + s[1..];
      InsertByDistanceMultiset(m, s[1..]);
    }
  }

  /** Inserting keeps any lower bound common to `m` and `s`. */
  lemma {:induction false} InsertByDistanceAtLeast(m: Match, s: seq<Match>, d: nat)
    requires AllAtLeast(s, d) && d <= m.distance
    ensures AllAtLeast(InsertByDistance(m, s), d)
  {
    if |s| > 0 && m.distance > s[0].distance {
      InsertByDistanceAtLeast(m, s[1..], d);
    }
  }

  /** Inserting into an ordered list keeps it ordered. */
  lemma {:induction false} InsertByDistanceSorted(m: Match, s: seq<Match>)
    requires SortedByDistance(s)
    ensures SortedByDistance(InsertByDistance(m, s))
  {
    if |s| > 0 && m.distance > s[0].distance {
      var rest := InsertByDistance(m, s[1..]);
      InsertByDistanceSorted(m, s[1..]);
      InsertByDistanceAtLeast(m, s[1..], s[0].distance);
      assert forall j :: 0 <= j < |rest| ==> s[0].distance <= rest[j].distance;
    }
  }

  /** Sorting orders by distance and is a permutation of its input. */
  lemma {:induction false} SortByDistanceSorted(s: seq<Match>)
    ensures SortedByDistance(SortByDistance(s))
    ensures multiset(SortByDistance(s)) == multiset(s)
  {
    if |s| > 0 {
      assert s == [s[0]] + s[1..];
      SortByDistanceSorted(s[1..]);
      InsertByDistanceSorted(s[0], SortByDistance(s[1..]));
      InsertByDistanceMultiset(s[0], SortByDistance(s[1..]));
    }
  }

  /** How many matches are kept out of `n`. */
  function KeptCount(n: nat): nat {
    if n < MaxKeptMatches then n else MaxKeptMatches
  }

  /** `sorted(matches, key=lambda x: x.distance)[:50]`. */
  function SelectMatches(s: seq<Match>): (r: seq<Match>)
    ensures |r| == KeptCount(|s|)
  {
    SortByDistanceSorted(s);
    var sorted := SortByDistance(s);
    assert |sorted| == |multiset(sorted)| == |s|;
    sorted[..KeptCount(|s|)]
  }

  /** In an ordered list, every match before position `k` is at least as close as every one from `k` on. */
  lemma PrefixCloser(t: seq<Match>, k: nat)
    requires SortedByDistance(t) && k <= |t|
    ensures forall x, y :: x in t[..k] && y in t[k..] ==> x.distance <= y.distance
  {
    forall x, y | x in t[..k] && y in t[k..]
      ensures x.distance <= y.distance
    {
      var i :| 0 <= i < k && t[..k][i] == x;
      var j :| 0 <= j < |t| - k && t[k..][j] == y;
      assert t[i] == x && t[k + j] == y;
    }
  }

  /**
   * The kept matches are the closest ones, in order, drawn from the input,
   * and every dropped match is at least as far as every kept one.
   */
  lemma SelectMatchesBest(s: seq<Match>)
    ensures SortedByDistance(SelectMatches(s))
    ensures multiset(SelectMatches(s)) <= multiset(s)
    ensures forall x, y :: x in SelectMatches(s) && y in multiset(s) - multiset(SelectMatches(s)) ==>
      x.distance <= y.distance
  {
    SortByDistanceSorted(s);
    var sorted := SortByDistance(s);
    var k := KeptCount(|s|);
    var r := SelectMatches(s);
    assert |sorted| == |multiset(sorted)| == |s|;
    assert r == sorted[..k];
    assert multiset(s) - multiset(r) == multiset(sorted[k..]) by {
      assert sorted == sorted[..k] + sorted[k..];
    }
    PrefixCloser(sorted, k);
    assert SortedByDistance(r);
    assert multiset(r) <= multiset(s) by {
      assert sorted == sorted[..k] + sorted[k..];
    }
    forall x, y | x in r && y in multiset(s) - multiset(r)
      ensures x.distance <= y.distance
    {
      assert y in sorted[k..];
    }
  }

  /**
   * Whether `findHomography` is called for the current frame: a previous
   * frame was read, the current frame has keypoints and descriptors, the
   * previous one has descriptors, and more than ten matches are kept.
   */
  function HomographyAttempted(prev: Option<Features>, cur: Features, matches: seq<Match>): bool {
    prev.Some? && cur.keypoints > 0 && cur.hasDescriptors && prev.value.hasDescriptors &&
    |SelectMatches(matches)| > MinHomographyMatches
  }

  /** Keeping at most fifty matches never changes the decision: it is "more than ten matches". */
  lemma AttemptedIff(prev: Option<Features>, cur: Features, matches: seq<Match>)
    ensures HomographyAttempted(prev, cur, matches) <==>
      prev.Some? && prev.value.hasDescriptors && cur.keypoints > 0 && cur.hasDescriptors &&
      |matches| > MinHomographyMatches
  {
  }

  /**
   * The mask merged into the damage accumulator: the warped one when a
   * homography was attempted and found, otherwise the unwarped frame mask.
   */
  function AlignedMask<G>(mask: G, attempted: bool, warped: Option<G>): (r: G)
    ensures r == mask || (attempted && warped == Some(r))
    ensures !attempted || warped.None? ==> r == mask
    ensures attempted && warped.Some? ==> r == warped.value
  {
    if attempted && warped.Some? then warped.value else mask
  }
}
