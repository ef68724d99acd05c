/**
 * Edge thinning and double thresholding of `Canny_detector` (CannyEdge.py:21-71).
 *
 * The gradient magnitude and angle fields come from library calls (Sobel and
 * the Cartesian-to-polar conversion) and are inputs here. Both fields are
 * indexed `[y, x]`: `Length0` is the image height and `Length1` its width.
 * Pixels are visited column by column (`x` in the outer loop, `y` in the
 * inner one) and the magnitude field is changed in place, so a pixel visited
 * later sees the already suppressed values of the pixels visited before it.
 */
module Canny {
  import opened Results

  /** The four axes a gradient direction is sorted into. */
  datatype Axis = Horizontal | Diagonal | Vertical | AntiDiagonal

  datatype Pixel = Pixel(x: int, y: int)

  /** What the discarded `ids` array records for a pixel: 0, 1 or 2. */
  datatype Strength = NonEdge | Weak | Strong

  function Abs(r: real): real {
    if r < 0.0 then -r else r
  }

  /** Weak and strong thresholds, a tenth and a half of the largest magnitude. */
  function Thresholds(maxMag: real): (t: (real, real))
    ensures maxMag >= 0.0 ==> 0.0 <= t.0 <= t.1 <= maxMag
    ensures maxMag == 0.0 ==> t == (0.0, 0.0)
  {
    (maxMag * 0.1, maxMag * 0.5)
  }

  /** Folds a gradient angle in degrees onto a half turn. */
  function Fold(angle: real): (folded: real)
    ensures folded >= 0.0
    ensures 0.0 <= angle <= 180.0 ==> folded == angle
    ensures 180.0 < angle < 360.0 ==> folded == angle - 180.0 < 180.0
  {
    if Abs(angle) > 180.0 then Abs(angle - 180.0) else Abs(angle)
  }

  /** Sorts a folded angle into an axis; beyond 157.5 degrees wraps to horizontal. */
  function AxisOf(folded: real): Axis {
    if folded <= 22.5 then Horizontal
    else if folded <= 67.5 then Diagonal
    else if folded <= 112.5 then Vertical
    else if folded <= 157.5 then AntiDiagonal
    else Horizontal
  }

  /** True when `p` is visited before `q`: columns left to right, each top to bottom. */
  predicate VisitedBefore(p: Pixel, q: Pixel) {
    p.x < q.x || (p.x == q.x && p.y < q.y)
  }

  /**
   * The two neighbours compared along an axis. They lie on either side of `p`,
   * one step away, and the first is always visited before `p` while the second
   * is visited after it.
   */
  function Neighbours(axis: Axis, p: Pixel): (n: (Pixel, Pixel))
    ensures VisitedBefore(n.0, p) && VisitedBefore(p, n.1)
  {
    match axis
    case Horizontal => (Pixel(p.x - 1, p.y), Pixel(p.x + 1, p.y))
    case Diagonal => (Pixel(p.x - 1, p.y - 1), Pixel(p.x + 1, p.y + 1))
    case Vertical => (Pixel(p.x, p.y - 1), Pixel(p.x, p.y + 1))
    case AntiDiagonal => (Pixel(p.x - 1, p.y + 1), Pixel(p.x + 1, p.y - 1))
  }

  /** The neighbours are mirror images about `p`, one step away, along the named axis. */
  lemma NeighboursGeometry(axis: Axis, p: Pixel)
    ensures var n := Neighbours(axis, p);
      && n.0.x + n.1.x == 2 * p.x && n.0.y + n.1.y == 2 * p.y
      && n.0 != p && -1 <= n.0.x - p.x <= 1 && -1 <= n.0.y - p.y <= 1
      && (axis == Vertical <==> n.0.x == p.x)
      && (axis == Horizontal <==> n.0.y == p.y)
      && (axis == Diagonal <==> n.0.x - p.x == n.0.y - p.y == -1)
  {
  }

  predicate InGrid(p: Pixel, width: int, height: int) {
    0 <= p.x < width && 0 <= p.y < height
  }

  /**
   * The suppression decision for one pixel. `first` and `second` hold the
   * neighbours' magnitudes when they lie inside the grid. When the first
   * neighbour already zeroes the pixel, the second is not looked at; the
   * outcome is still "zero exactly when below an in-grid neighbour".
   */
  function SuppressPixel(centre: real, first: Option<real>, second: Option<real>): (r: real)
    ensures r == 0.0 || r == centre
    ensures r == centre <==>
      centre == 0.0 || ((first.None? || first.value <= centre) && (second.None? || second.value <= centre))
  {
    if first.Some? && centre < first.value then 0.0
    else if second.Some? && centre < second.value then 0.0
    else centre
  }

  /** The threshold pass for one magnitude. */
  function Threshold(v: real, weak: real): (r: real)
    ensures r == 0.0 || r >= weak
    ensures r == 0.0 || r == v
    ensures v >= weak ==> r == v
  {
    if v < weak then 0.0 else v
  }

  /** The weak/strong classification the threshold pass writes into `ids`. */
  function Classify(v: real, weak: real, strong: real): Strength {
    if v < weak then NonEdge
    else if strong > v >= weak then Weak
    else Strong
  }

  lemma ClassifyByThresholds(v: real, maxMag: real)
    requires maxMag >= 0.0
    ensures var (weak, strong) := Thresholds(maxMag);
      && (Classify(v, weak, strong) == Strong <==> v >= strong)
      && (Classify(v, weak, strong) == Weak <==> weak <= v < strong)
      && (Classify(v, weak, strong) == NonEdge <==> v < weak)
      && (Classify(v, weak, strong) != NonEdge ==> Threshold(v, weak) == v)
  {
  }

  /** Opposite gradient directions (a half turn apart) are sorted into the same axis. */
  lemma OppositeDirectionsShareAxis(angle: real)
    requires 0.0 <= angle < 180.0
    ensures AxisOf(Fold(angle + 180.0)) == AxisOf(Fold(angle))
  {
  }

  /** An angle field with values in [0, 360) folds into [0, 180]. */
  lemma FoldRange(angle: real)
    requires 0.0 <= angle < 360.0
    ensures 0.0 <= Fold(angle) <= 180.0
  {
  }

  // ---------------------------------------------------------------------
  // Grids as values

  predicate IsGrid(g: seq<seq<real>>, height: int, width: int) {
    |g| == height && forall y :: 0 <= y < height ==> |g[y]| == width
  }

  /** The contents of a field, row by row. */
  ghost function Grid(a: array2<real>): (g: seq<seq<real>>)
    reads a
    ensures IsGrid(g, a.Length0, a.Length1)
    ensures forall y, x :: 0 <= y < a.Length0 && 0 <= x < a.Length1 ==> g[y][x] == a[y, x]
  {
    seq(a.Length0, y requires 0 <= y < a.Length0 reads a =>
      seq(a.Length1, x requires 0 <= x < a.Length1 reads a => a[y, x]))
  }

  /**
   * The result of suppression at pixel (x, y): the decision is taken on the
   * pixel's original magnitude against the first neighbour's final value
   * (it was visited, and possibly zeroed, earlier) and the second
   * neighbour's original value (it is visited later).
   */
  ghost predicate SuppressedAt(height: int, width: int, orig: seq<seq<real>>, ang: seq<seq<real>>,
                               out: seq<seq<real>>, x: int, y: int)
    requires IsGrid(orig, height, width) && IsGrid(ang, height, width) && IsGrid(out, height, width)
    requires 0 <= x < width && 0 <= y < height
  {
    var n := Neighbours(AxisOf(Fold(ang[y][x])), Pixel(x, y));
    out[y][x] == SuppressPixel(orig[y][x],
      if InGrid(n.0, width, height) then Some(out[n.0.y][n.0.x]) else None,
      if InGrid(n.1, width, height) then Some(orig[n.1.y][n.1.x]) else None)
  }

  /** `SuppressedAt` only looks at the pixel itself and its first neighbour in `out`. */
  lemma SuppressedAtFrame(height: int, width: int, orig: seq<seq<real>>, ang: seq<seq<real>>,
                          out: seq<seq<real>>, out': seq<seq<real>>, x: int, y: int)
    requires IsGrid(orig, height, width) && IsGrid(ang, height, width)
    requires IsGrid(out, height, width) && IsGrid(out', height, width)
    requires 0 <= x < width && 0 <= y < height
    requires SuppressedAt(height, width, orig, ang, out, x, y)
    requires out'[y][x] == out[y][x]
    requires var n := Neighbours(AxisOf(Fold(ang[y][x])), Pixel(x, y)).0;
      InGrid(n, width, height) ==> out'[n.y][n.x] == out[n.y][n.x]
    ensures SuppressedAt(height, width, orig, ang, out', x, y)
  {
  }

  /** `out` is what the suppression loops leave behind, given `orig` and `ang`. */
  ghost predicate Suppressed(height: int, width: int, orig: seq<seq<real>>, ang: seq<seq<real>>,
                             out: seq<seq<real>>)
  {
    && IsGrid(orig, height, width) && IsGrid(ang, height, width) && IsGrid(out, height, width)
    && forall y, x :: 0 <= y < height && 0 <= x < width ==> SuppressedAt(height, width, orig, ang, out, x, y)
  }

  /** `after` is `before` with every magnitude below `weak` zeroed. */
  ghost predicate Thresholded(height: int, width: int, before: seq<seq<real>>, weak: real,
                              after: seq<seq<real>>)
  {
    && IsGrid(before, height, width) && IsGrid(after, height, width)
    && forall y, x :: 0 <= y < height && 0 <= x < width ==> after[y][x] == Threshold(before[y][x], weak)
  }

  ghost predicate IsMax(height: int, width: int, g: seq<seq<real>>, m: real)
    requires IsGrid(g, height, width)
  {
    && (exists y, x :: 0 <= y < height && 0 <= x < width && g[y][x] == m)
    && (forall y, x :: 0 <= y < height && 0 <= x < width ==> g[y][x] <= m)
  }

  // ---------------------------------------------------------------------
  // Properties of the suppression result

  /** Suppression only ever zeroes a pixel; a survivor is at least its in-grid neighbours. */
  lemma SuppressedSurvivor(height: int, width: int, orig: seq<seq<real>>, ang: seq<seq<real>>,
                           out: seq<seq<real>>, x: int, y: int)
    requires Suppressed(height, width, orig, ang, out)
    requires 0 <= x < width && 0 <= y < height
    ensures out[y][x] == 0.0 || out[y][x] == orig[y][x]
    ensures var n := Neighbours(AxisOf(Fold(ang[y][x])), Pixel(x, y));
      out[y][x] != 0.0 ==>
        && (InGrid(n.0, width, height) ==> out[n.0.y][n.0.x] <= out[y][x])
        && (InGrid(n.1, width, height) ==> orig[n.1.y][n.1.x] <= out[y][x])
  {
    assert SuppressedAt(height, width, orig, ang, out, x, y);
  }

  /** Two suppression results for the same inputs agree at (x, y). */
  lemma {:induction false} SuppressedAgreeAt(height: int, width: int, orig: seq<seq<real>>,
                                             ang: seq<seq<real>>, out1: seq<seq<real>>,
                                             out2: seq<seq<real>>, x: int, y: int)
    requires Suppressed(height, width, orig, ang, out1) && Suppressed(height, width, orig, ang, out2)
    requires 0 <= x < width && 0 <= y < height
    ensures out1[y][x] == out2[y][x]
    decreases x, y
  {
    var n := Neighbours(AxisOf(Fold(ang[y][x])), Pixel(x, y)).0;
    if InGrid(n, width, height) {
      SuppressedAgreeAt(height, width, orig, ang, out1, out2, n.x, n.y);
    }
    assert SuppressedAt(height, width, orig, ang, out1, x, y);
    assert SuppressedAt(height, width, orig, ang, out2, x, y);
  }

  /**
   * The visiting order determines the suppression result completely: the
   * predicate `Suppressed` describes one outcome, the one the loops compute.
   */
  lemma SuppressedUnique(height: int, width: int, orig: seq<seq<real>>, ang: seq<seq<real>>,
                         out1: seq<seq<real>>, out2: seq<seq<real>>)
    requires Suppressed(height, width, orig, ang, out1) && Suppressed(height, width, orig, ang, out2)
    ensures out1 == out2
  {
    forall y | 0 <= y < height
      ensures out1[y] == out2[y]
    {
      forall x | 0 <= x < width
        ensures out1[y][x] == out2[y][x]
      {
        SuppressedAgreeAt(height, width, orig, ang, out1, out2, x, y);
      }
    }
  }

  /**
   * One row of magnitudes 3, 2, 1 with horizontal gradients. The middle pixel
   * is zeroed by its left neighbour; the right pixel is then compared with the
   * zeroed middle value and survives, although its original left neighbour
   * was larger.
   */
  lemma SequentialSuppressionExample(out: seq<seq<real>>)
    requires Suppressed(1, 3, [[3.0, 2.0, 1.0]], [[0.0, 0.0, 0.0]], out)
    ensures out == [[3.0, 0.0, 1.0]]
  {
    var orig, ang, expected := [[3.0, 2.0, 1.0]], [[0.0, 0.0, 0.0]], [[3.0, 0.0, 1.0]];
    assert IsGrid(expected, 1, 3);
    forall y, x | 0 <= y < 1 && 0 <= x < 3
      ensures SuppressedAt(1, 3, orig, ang, expected, x, y)
    {
      assert AxisOf(Fold(ang[y][x])) == Horizontal;
    }
    SuppressedUnique(1, 3, orig, ang, out, expected);
  }

  // ---------------------------------------------------------------------
  // The loops

  /** `np.max` over a non-empty magnitude field, row by row. */
  method MaxMagnitude(mag: array2<real>) returns (m: real)
    requires mag.Length0 > 0 && mag.Length1 > 0
    ensures exists y, x :: 0 <= y < mag.Length0 && 0 <= x < mag.Length1 && m == mag[y, x]
    ensures forall y, x :: 0 <= y < mag.Length0 && 0 <= x < mag.Length1 ==> mag[y, x] <= m
  {
    m := mag[0, 0];
    ghost var my, mx := 0, 0;
    for y := 0 to mag.Length0
      invariant 0 <= my < mag.Length0 && 0 <= mx < mag.Length1 && m == mag[my, mx]
      invariant forall yy, x :: 0 <= yy < y && 0 <= x < mag.Length1 ==> mag[yy, x] <= m
    {
      for x := 0 to mag.Length1
        invariant 0 <= my < mag.Length0 && 0 <= mx < mag.Length1 && m == mag[my, mx]
        invariant forall yy, xx :: 0 <= yy < y && 0 <= xx < mag.Length1 ==> mag[yy, xx] <= m
        invariant forall xx :: 0 <= xx < x ==> mag[y, xx] <= m
      {
        if mag[y, x] > m {
          m := mag[y, x];
          my, mx := y, x;
        }
      }
    }
  }

  /** Changing only `p` keeps the results of the pixels visited before `p`. */
  lemma VisitKeepsEarlier(height: int, width: int, orig: seq<seq<real>>, ang: seq<seq<real>>,
                          before: seq<seq<real>>, after: seq<seq<real>>, p: Pixel)
    requires IsGrid(orig, height, width) && IsGrid(ang, height, width)
    requires IsGrid(before, height, width) && IsGrid(after, height, width)
    requires forall y, x :: 0 <= y < height && 0 <= x < width && VisitedBefore(Pixel(x, y), p) ==>
      SuppressedAt(height, width, orig, ang, before, x, y)
    requires forall y, x :: 0 <= y < height && 0 <= x < width && Pixel(x, y) != p ==>
      after[y][x] == before[y][x]
    ensures forall y, x :: 0 <= y < height && 0 <= x < width && VisitedBefore(Pixel(x, y), p) ==>
      SuppressedAt(height, width, orig, ang, after, x, y)
  {
    forall y, x | 0 <= y < height && 0 <= x < width && VisitedBefore(Pixel(x, y), p)
      ensures SuppressedAt(height, width, orig, ang, after, x, y)
    {
      var n := Neighbours(AxisOf(Fold(ang[y][x])), Pixel(x, y)).0;
      if InGrid(n, width, height) {
        assert after[n.y][n.x] == before[n.y][n.x];
      }
      SuppressedAtFrame(height, width, orig, ang, before, after, x, y);
    }
  }

  /**
   * The state of the suppression loops just before visiting `p`: the pixels
   * visited before `p` hold their results, the others their original values.
   */
  ghost predicate Progress(height: int, width: int, orig: seq<seq<real>>, ang: seq<seq<real>>,
                           cur: seq<seq<real>>, p: Pixel)
  {
    && IsGrid(orig, height, width) && IsGrid(ang, height, width) && IsGrid(cur, height, width)
    && (forall y, x :: 0 <= y < height && 0 <= x < width && !VisitedBefore(Pixel(x, y), p) ==>
         cur[y][x] == orig[y][x])
    && (forall y, x :: 0 <= y < height && 0 <= x < width && VisitedBefore(Pixel(x, y), p) ==>
         SuppressedAt(height, width, orig, ang, cur, x, y))
  }

  /**
   * One visit of the suppression loops: `after` differs from `before` only
   * at `p`, which takes the decision made against the current values.
   */
  lemma VisitStep(height: int, width: int, orig: seq<seq<real>>, ang: seq<seq<real>>,
                  before: seq<seq<real>>, after: seq<seq<real>>, p: Pixel)
    requires Progress(height, width, orig, ang, before, p)
    requires IsGrid(after, height, width)
    requires InGrid(p, width, height)
    requires forall y, x :: 0 <= y < height && 0 <= x < width && Pixel(x, y) != p ==>
      after[y][x] == before[y][x]
    requires var n := Neighbours(AxisOf(Fold(ang[p.y][p.x])), p);
      after[p.y][p.x] == SuppressPixel(before[p.y][p.x],
        if InGrid(n.0, width, height) then Some(before[n.0.y][n.0.x]) else None,
        if InGrid(n.1, width, height) then Some(before[n.1.y][n.1.x]) else None)
    ensures Progress(height, width, orig, ang, after, Pixel(p.x, p.y + 1))
  {
    VisitKeepsEarlier(height, width, orig, ang, before, after, p);
    var n := Neighbours(AxisOf(Fold(ang[p.y][p.x])), p);
    assert before[p.y][p.x] == orig[p.y][p.x];
    if InGrid(n.0, width, height) {
      assert after[n.0.y][n.0.x] == before[n.0.y][n.0.x];
    }
    if InGrid(n.1, width, height) {
      assert before[n.1.y][n.1.x] == orig[n.1.y][n.1.x];
    }
    assert SuppressedAt(height, width, orig, ang, after, p.x, p.y);
  }

  /** Finishing a column is the same state as starting the next one. */
  lemma NextColumn(height: int, width: int, orig: seq<seq<real>>, ang: seq<seq<real>>,
                   cur: seq<seq<real>>, x: int)
    requires Progress(height, width, orig, ang, cur, Pixel(x, height))
    ensures Progress(height, width, orig, ang, cur, Pixel(x + 1, 0))
  {
  }

  /** Non-maximum suppression in place (CannyEdge.py:30-59). */
  method SuppressNonMaxima(mag: array2<real>, ang: array2<real>)
    requires ang.Length0 == mag.Length0 && ang.Length1 == mag.Length1
    requires ang != mag
    modifies mag
    ensures Suppressed(mag.Length0, mag.Length1, old(Grid(mag)), Grid(ang), Grid(mag))
  {
    var height, width := mag.Length0, mag.Length1;
    ghost var orig := Grid(mag);
    for ix := 0 to width
      invariant Progress(height, width, orig, Grid(ang), Grid(mag), Pixel(ix, 0))
    {
      for iy := 0 to height
        invariant Progress(height, width, orig, Grid(ang), Grid(mag), Pixel(ix, iy))
      {
        SuppressAt(mag, ang, ix, iy, orig);
      }
      NextColumn(height, width, orig, Grid(ang), Grid(mag), ix);
    }
  }

  /** The body of the suppression loops (CannyEdge.py:32-59): the decision for pixel (ix, iy). */
  method SuppressAt(mag: array2<real>, ang: array2<real>, ix: int, iy: int, ghost orig: seq<seq<real>>)
    requires ang.Length0 == mag.Length0 && ang.Length1 == mag.Length1
    requires ang != mag
    requires 0 <= ix < mag.Length1 && 0 <= iy < mag.Length0
    requires Progress(mag.Length0, mag.Length1, orig, Grid(ang), Grid(mag), Pixel(ix, iy))
    modifies mag
    ensures Progress(mag.Length0, mag.Length1, orig, Grid(ang), Grid(mag), Pixel(ix, iy + 1))
  {
    var height, width := mag.Length0, mag.Length1;
    ghost var before := Grid(mag);
    var n := Neighbours(AxisOf(Fold(ang[iy, ix])), Pixel(ix, iy));
    var n1, n2 := n.0, n.1;
    if InGrid(n1, width, height) {
      if mag[iy, ix] < mag[n1.y, n1.x] {
        mag[iy, ix] := 0.0;
        VisitStep(height, width, orig, Grid(ang), before, Grid(mag), Pixel(ix, iy));
        return;
      }
    }
    if InGrid(n2, width, height) {
      if mag[iy, ix] < mag[n2.y, n2.x] {
        mag[iy, ix] := 0.0;
      }
    }
    VisitStep(height, width, orig, Grid(ang), before, Grid(mag), Pixel(ix, iy));
  }

  /** The threshold pass in place (CannyEdge.py:61-70); `ids` is filled and dropped. */
  method ApplyThreshold(mag: array2<real>, weak: real, strong: real)
    modifies mag
    ensures Thresholded(mag.Length0, mag.Length1, old(Grid(mag)), weak, Grid(mag))
  {
    var height, width := mag.Length0, mag.Length1;
    ghost var before := Grid(mag);
    var ids := new Strength[height, width]((_, _) => NonEdge);
    for ix := 0 to width
      invariant forall y, x :: 0 <= y < height && ix <= x < width ==> mag[y, x] == before[y][x]
      invariant forall y, x :: 0 <= y < height && 0 <= x < ix ==> mag[y, x] == Threshold(before[y][x], weak)
    {
      for iy := 0 to height
        invariant forall y, x :: 0 <= y < height && ix <= x < width && !(x == ix && y < iy) ==>
          mag[y, x] == before[y][x]
        invariant forall y, x :: 0 <= y < height && 0 <= x < width && (x < ix || (x == ix && y < iy)) ==>
          mag[y, x] == Threshold(before[y][x], weak)
      {
        var gradMag := mag[iy, ix];
        if gradMag < weak {
          mag[iy, ix] := 0.0;
        } else if strong > gradMag >= weak {
          ids[iy, ix] := Weak;
        } else {
          ids[iy, ix] := Strong;
        }
      }
    }
  }

  /**
   * `Canny_detector` from the thresholds on. Returns false, leaving `mag`
   * alone, for an empty field (where `np.max` raises); otherwise `mag` ends
   * as the thresholded suppression result, with thresholds taken from the
   * largest original magnitude.
   */
  method Detect(mag: array2<real>, ang: array2<real>) returns (ok: bool, ghost maxMag: real)
    requires ang.Length0 == mag.Length0 && ang.Length1 == mag.Length1
    requires ang != mag
    modifies mag
    ensures ok <==> mag.Length0 > 0 && mag.Length1 > 0
    ensures !ok ==> Grid(mag) == old(Grid(mag))
    ensures ok ==> IsMax(mag.Length0, mag.Length1, old(Grid(mag)), maxMag)
    ensures ok ==> exists mid ::
      && Suppressed(mag.Length0, mag.Length1, old(Grid(mag)), Grid(ang), mid)
      && Thresholded(mag.Length0, mag.Length1, mid, Thresholds(maxMag).0, Grid(mag))
    ensures forall y, x :: 0 <= y < mag.Length0 && 0 <= x < mag.Length1 ==>
      mag[y, x] == 0.0 || mag[y, x] == old(mag[y, x])
    ensures ok ==> forall y, x :: 0 <= y < mag.Length0 && 0 <= x < mag.Length1 ==>
      mag[y, x] == 0.0 || mag[y, x] >= Thresholds(maxMag).0
  {
    ghost var orig := Grid(mag);
    if mag.Length0 == 0 || mag.Length1 == 0 {
      return false, 0.0;
    }
    var magMax := MaxMagnitude(mag);
    maxMag := magMax;
    var (weakTh, strongTh) := Thresholds(magMax);
    SuppressNonMaxima(mag, ang);
    ghost var mid := Grid(mag);
    ApplyThreshold(mag, weakTh, strongTh);
    forall y, x | 0 <= y < mag.Length0 && 0 <= x < mag.Length1
      ensures mag[y, x] == 0.0 || mag[y, x] == orig[y][x]
    {
      SuppressedSurvivor(mag.Length0, mag.Length1, orig, Grid(ang), mid, x, y);
    }
    ok := true;
  }
}
