/**
 * Binary rasters as the pipeline reads them: every uint8 mask of the source is
 * only ever consulted through the `> 0` test, so a raster here is a grid of
 * booleans, row-major (`g[y][x]`), with `cv2.bitwise_or` as pixel-wise OR and
 * `np.sum(mask > 0)` as the count of marked pixels.
 */
module Raster {

  type Grid = seq<seq<bool>>

  /** `g` has `h` rows of `w` pixels each. */
  predicate IsShape(g: Grid, h: nat, w: nat) {
    |g| == h && forall i :: 0 <= i < h ==> |g[i]| == w
  }

  predicate SameShape(a: Grid, b: Grid) {
    |a| == |b| && forall i :: 0 <= i < |a| ==> |a[i]| == |b[i]|
  }

  /** Every pixel marked in `a` is marked in `b` (and the two have one shape). */
  predicate Covers(a: Grid, b: Grid) {
    SameShape(a, b) &&
    forall i, j :: 0 <= i < |a| && 0 <= j < |a[i]| && a[i][j] ==> b[i][j]
  }

  /** `np.zeros((h, w))`: no pixel marked. */
  function Blank(h: nat, w: nat): (g: Grid)
    ensures IsShape(g, h, w)
    ensures forall i, j :: 0 <= i < h && 0 <= j < w ==> !g[i][j]
  {
    seq(h, _ => seq(w, _ => false))
  }

  /** No pixel of `g` is marked. */
  predicate NoneMarked(g: Grid) {
    forall i, j :: 0 <= i < |g| && 0 <= j < |g[i]| ==> !g[i][j]
  }

  /** Pixel `(i, j)` of `g` exists and is marked. */
  predicate At(g: Grid, i: int, j: int) {
    0 <= i < |g| && 0 <= j < |g[i]| && g[i][j]
  }

  /**
   * `cv2.bitwise_or(a, b) > 0`. OpenCV refuses rasters of different shapes;
   * the model is total instead: the result has the shape of `a`, and pixels
   * of `b` outside that shape are ignored.
   */
  function Or(a: Grid, b: Grid): (c: Grid)
    ensures SameShape(c, a)
    ensures forall i, j :: 0 <= i < |c| && 0 <= j < |c[i]| ==> (c[i][j] <==> a[i][j] || At(b, i, j))
  {
    seq(|a|, i requires 0 <= i < |a| => seq(|a[i]|, j requires 0 <= j < |a[i]| => a[i][j] || At(b, i, j)))
  }

  /** ORing in a grid with no marked pixel changes nothing. */
  lemma OrNoneMarked(a: Grid, b: Grid)
    requires NoneMarked(b)
    ensures Or(a, b) == a
  {
    var c := Or(a, b);
    forall i | 0 <= i < |a|
      ensures c[i] == a[i]
    {
      assert forall j :: 0 <= j < |a[i]| ==> (c[i][j] <==> a[i][j]);
    }
  }

  /** The OR of every grid of `gs`, starting from a blank `h` by `w` raster. */
  function Union(gs: seq<Grid>, h: nat, w: nat): (u: Grid)
    ensures IsShape(u, h, w)
  {
    if |gs| == 0 then Blank(h, w)
    else Or(Union(gs[..|gs| - 1], h, w), gs[|gs| - 1])
  }

  /** A pixel of the union is marked exactly when some member marks it. */
  lemma {:induction false} UnionAt(gs: seq<Grid>, h: nat, w: nat, i: nat, j: nat)
    requires i < h && j < w
    ensures Union(gs, h, w)[i][j] <==> exists k :: 0 <= k < |gs| && At(gs[k], i, j)
  {
    if |gs| > 0 {
      var init := gs[..|gs| - 1];
      UnionAt(init, h, w, i, j);
      if Union(gs, h, w)[i][j] && !At(gs[|gs| - 1], i, j) {
        var k :| 0 <= k < |init| && At(init[k], i, j);
        assert gs[k] == init[k];
      }
      if exists k :: 0 <= k < |gs| && At(gs[k], i, j) {
        var k :| 0 <= k < |gs| && At(gs[k], i, j);
        if k < |gs| - 1 {
          assert init[k] == gs[k];
        }
      }
    }
  }

  /** Marked pixels of one row. */
  function RowCount(r: seq<bool>): (n: nat)
    ensures n <= |r|
  {
    if |r| == 0 then 0 else RowCount(r[..|r| - 1]) + (if r[|r| - 1] then 1 else 0)
  }

  /** `np.sum(g > 0)`: marked pixels of the whole raster. */
  function Count(g: Grid): nat {
    if |g| == 0 then 0 else Count(g[..|g| - 1]) + RowCount(g[|g| - 1])
  }

  lemma {:induction false} RowCountZero(r: seq<bool>)
    ensures RowCount(r) == 0 <==> forall j :: 0 <= j < |r| ==> !r[j]
  {
    if |r| > 0 {
      RowCountZero(r[..|r| - 1]);
      assert forall j :: 0 <= j < |r| - 1 ==> r[..|r| - 1][j] == r[j];
    }
  }

  /** A raster counts zero exactly when none of its pixels is marked. */
  lemma {:induction false} CountZero(g: Grid)
    ensures Count(g) == 0 <==> forall i, j :: 0 <= i < |g| && 0 <= j < |g[i]| ==> !g[i][j]
  {
    if |g| > 0 {
      var init := g[..|g| - 1];
      CountZero(init);
      RowCountZero(g[|g| - 1]);
      assert forall i :: 0 <= i < |g| - 1 ==> init[i] == g[i];
    }
  }

  lemma {:induction false} RowCountMono(a: seq<bool>, b: seq<bool>)
    requires |a| == |b|
    requires forall j :: 0 <= j < |a| && a[j] ==> b[j]
    ensures RowCount(a) <= RowCount(b)
  {
    if |a| > 0 {
      RowCountMono(a[..|a| - 1], b[..|b| - 1]);
    }
  }

  /** Counting is monotone: a raster covering another has at least as many marked pixels. */
  lemma {:induction false} CountMono(a: Grid, b: Grid)
    requires Covers(a, b)
    ensures Count(a) <= Count(b)
  {
    if |a| > 0 {
      var n := |a| - 1;
      assert Covers(a[..n], b[..n]) by {
        assert forall i :: 0 <= i < n ==> a[..n][i] == a[i] && b[..n][i] == b[i];
      }
      CountMono(a[..n], b[..n]);
      RowCountMono(a[n], b[n]);
    }
  }

  lemma {:induction false} RowCountOr(a: seq<bool>, b: seq<bool>, c: seq<bool>)
    requires |a| == |b| == |c|
    requires forall j :: 0 <= j < |c| ==> (c[j] <==> a[j] || b[j])
    ensures RowCount(c) <= RowCount(a) + RowCount(b)
  {
    if |a| > 0 {
      var n := |a| - 1;
      RowCountOr(a[..n], b[..n], c[..n]);
    }
  }

  /** The OR of two rasters has no more marked pixels than the two together. */
  lemma {:induction false} CountOrAtMost(a: Grid, b: Grid)
    requires SameShape(a, b)
    ensures Count(Or(a, b)) <= Count(a) + Count(b)
  {
    if |a| > 0 {
      var n := |a| - 1;
      var c := Or(a, b);
      forall i | 0 <= i < n
        ensures c[..n][i] == Or(a[..n], b[..n])[i]
      {
        assert forall j :: 0 <= j < |c[i]| ==> (At(b[..n], i, j) <==> At(b, i, j));
      }
      assert c[..n] == Or(a[..n], b[..n]);
      CountOrAtMost(a[..n], b[..n]);
      RowCountOr(a[n], b[n], c[n]);
    }
  }

  /** The OR of two rasters covers the first, and the second as well when the two have one shape. */
  lemma OrCovers(a: Grid, b: Grid)
    ensures Covers(a, Or(a, b)) && Count(a) <= Count(Or(a, b))
    ensures SameShape(a, b) ==> Covers(b, Or(a, b)) && Count(b) <= Count(Or(a, b))
  {
    CountMono(a, Or(a, b));
    if SameShape(a, b) {
      CountMono(b, Or(a, b));
    }
  }

  /**
   * `(num / den) * 100 if den > 0 else 0`, the guarded ratio of the source,
   * as a percentage of `den`.
   */
  function Percent(num: nat, den: nat): (r: real)
    ensures den == 0 ==> r == 0.0
    ensures den > 0 ==> r * (den as real) == (num as real) * 100.0
    ensures 0.0 <= r
  {
    if den > 0 then (num as real / den as real) * 100.0 else 0.0
  }

  /** The ratio stays within 100 exactly when the numerator does not exceed the denominator. */
  lemma PercentAtMostHundred(num: nat, den: nat)
    requires den > 0
    ensures Percent(num, den) <= 100.0 <==> num <= den
  {
    var r := Percent(num, den);
    assert r * (den as real) == (num as real) * 100.0;
    if num <= den {
      assert r * (den as real) <= 100.0 * (den as real);
    } else {
      assert r * (den as real) > 100.0 * (den as real);
    }
  }

  /** A whole counted against itself is 100 percent. */
  lemma PercentOfWhole(n: nat)
    requires n > 0
    ensures Percent(n, n) == 100.0
  {
    var x := n as real;
    assert x / x == 1.0;
  }

  /** The raster an array holds, row-major. */
  ghost function GridOf(a: array2<bool>): (g: Grid)
    reads a
    ensures IsShape(g, a.Length0, a.Length1)
    ensures forall i, j :: 0 <= i < a.Length0 && 0 <= j < a.Length1 ==> g[i][j] == a[i, j]
  {
    seq(a.Length0, i requires 0 <= i < a.Length0 reads a =>
      seq(a.Length1, j requires 0 <= j < a.Length1 reads a => a[i, j]))
  }

  /** An array that agrees with `g` at every pixel holds `g`. */
  lemma GridOfIs(a: array2<bool>, g: Grid)
    requires IsShape(g, a.Length0, a.Length1)
    requires forall i, j :: 0 <= i < a.Length0 && 0 <= j < a.Length1 ==> a[i, j] == g[i][j]
    ensures GridOf(a) == g
  {
    var s := GridOf(a);
    forall i | 0 <= i < a.Length0 ensures s[i] == g[i] {
      assert forall j :: 0 <= j < a.Length1 ==> s[i][j] == g[i][j];
    }
  }

  /** `np.sum(a > 0)` over an array. */
  method CountMarked(a: array2<bool>) returns (n: nat)
    ensures n == Count(GridOf(a))
  {
    ghost var g := GridOf(a);
    n := 0;
    for i := 0 to a.Length0
      invariant n == Count(g[..i])
    {
      var inRow := 0;
      for j := 0 to a.Length1
        invariant inRow == RowCount(g[i][..j])
      {
        if a[i, j] {
          inRow := inRow + 1;
        }
        assert g[i][..j + 1][..j] == g[i][..j];
      }
      assert g[i][..a.Length1] == g[i];
      assert g[..i + 1][..i] == g[..i];
      n := n + inRow;
    }
    assert g[..a.Length0] == g;
  }
}
