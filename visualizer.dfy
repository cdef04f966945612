/**
 * The window arithmetic of the visualiser: the heat-map window around a
 * detection (`create_diff_map`), the in-place fill of that window, and the
 * enlarged detail crop with its crosshair (`create_region_detail`).
 * Frames are 2-D arrays indexed `[row, column]`, that is `[y, x]`;
 * `Length0` is `shape[0]` (the height) and `Length1` is `shape[1]` (the
 * width).
 */
module Visualizer {
  import opened Wrappers
  import opened Arith

  /** A `uint8` pixel value. */
  type Byte = b: int | 0 <= b < 256

  /** A rectangle `[x1, x2) x [y1, y2)` in frame coordinates. */
  datatype Window = Window(x1: int, y1: int, x2: int, y2: int)
  {
    /** Row `i`, column `j` lies in the rectangle. */
    predicate Contains(i: int, j: int)
    {
      y1 <= i < y2 && x1 <= j < x2
    }
  }

  /** The square of half-side `half` around `(x, y)`, clamped with `max(0, .)`
      on the low side and `min(shape, .)` on the high side. */
  function ClampedWindow(x: int, y: int, half: int, width: nat, height: nat): (w: Window)
    ensures 0 <= w.x1 && 0 <= w.y1 && w.x2 <= width && w.y2 <= height
    ensures x - half <= w.x1 && x + half >= w.x2 && y - half <= w.y1 && y + half >= w.y2
  {
    Window(Max(0, x - half), Max(0, y - half), Min(width, x + half), Min(height, y + half))
  }

  /** A cell is in the clamped window exactly when it is in the frame and in
      the unclamped square. */
  lemma WindowMembership(x: int, y: int, half: int, width: nat, height: nat, i: int, j: int)
    ensures ClampedWindow(x, y, half, width, height).Contains(i, j) <==>
      (0 <= i < height && 0 <= j < width && y - half <= i < y + half && x - half <= j < x + half)
  {
  }

  /** A point inside the frame is inside its own window. */
  lemma WindowContainsPoint(x: int, y: int, half: int, width: nat, height: nat)
    requires 0 <= x < width && 0 <= y < height && half > 0
    ensures ClampedWindow(x, y, half, width, height).Contains(y, x)
  {
  }

  /** Away from the edges no clamping happens. */
  lemma WindowInterior(x: int, y: int, half: int, width: nat, height: nat)
    requires half <= x && x + half <= width && half <= y && y + half <= height
    ensures ClampedWindow(x, y, half, width, height) == Window(x - half, y - half, x + half, y + half)
  {
  }

  // ---------------------------------------------------------------------
  // numpy slicing and broadcasting, step 1
  // ---------------------------------------------------------------------

  /** A slice bound normalised against an axis of length `n`: a negative
      bound counts from the end, and the result is clamped into `[0, n]`. */
  function SliceBound(i: int, n: nat): (b: nat)
    ensures b <= n
    ensures 0 <= i <= n ==> b == i
    ensures i < 0 ==> b == Max(0, i + n)
    ensures i > n ==> b == n
  {
    if i < 0 then (if i + n < 0 then 0 else i + n)
    else if i > n then n
    else i
  }

  /** The length of `a[lo:hi]` on an axis of length `n`. */
  function SliceLength(lo: int, hi: int, n: nat): nat
  {
    Max(0, SliceBound(hi, n) - SliceBound(lo, n))
  }

  /** The length of `np.arange(lo, hi)`, one axis of `np.ogrid[lo:hi]`. */
  function ArangeLength(lo: int, hi: int): nat
  {
    Max(0, hi - lo)
  }

  /** An axis of length `v` can be assigned to a target axis of length `t`. */
  predicate Broadcasts(v: nat, t: nat)
  {
    v == t || v == 1
  }

  /** `diff_map[y1:y2, x1:x2] = <array of the ogrid's shape>` does not raise. */
  predicate FillFits(w: Window, width: nat, height: nat)
  {
    Broadcasts(ArangeLength(w.y1, w.y2), SliceLength(w.y1, w.y2, height)) &&
    Broadcasts(ArangeLength(w.x1, w.x2), SliceLength(w.x1, w.x2, width))
  }

  /** One axis of a clamped window fits exactly when its high bound is not
      negative, or when its negative high bound wraps to no later than the
      low bound. */
  lemma AxisFits(lo: int, hi: int, n: nat)
    requires 0 <= lo && hi <= n
    ensures Broadcasts(ArangeLength(lo, hi), SliceLength(lo, hi, n)) <==> (hi >= 0 || n + hi <= lo)
    ensures Broadcasts(ArangeLength(lo, hi), SliceLength(lo, hi, n)) ==>
      ArangeLength(lo, hi) == SliceLength(lo, hi, n)
    ensures ArangeLength(lo, hi) > 0 ==> SliceBound(lo, n) == lo && SliceBound(hi, n) == hi
  {
    if hi < 0 {
      assert ArangeLength(lo, hi) == 0;
      assert SliceBound(hi, n) == (if hi + n < 0 then 0 else hi + n);
    }
  }

  /** When the heat-map fill fails: a high bound `x + region_size` (or
      `y + region_size`) below zero that wraps past the low bound. */
  lemma DiffMapFits(x: int, y: int, regionSize: int, width: nat, height: nat)
    ensures var w := ClampedWindow(x, y, regionSize, width, height);
      FillFits(w, width, height) <==>
        (w.x2 >= 0 || width + w.x2 <= w.x1) && (w.y2 >= 0 || height + w.y2 <= w.y1)
  {
    var w := ClampedWindow(x, y, regionSize, width, height);
    AxisFits(w.x1, w.x2, width);
    AxisFits(w.y1, w.y2, height);
  }

  /** A detection inside the frame always gets its heat map. */
  lemma InFrameFits(x: int, y: int, regionSize: int, width: nat, height: nat)
    requires 0 <= x < width && 0 <= y < height && regionSize >= 0
    ensures FillFits(ClampedWindow(x, y, regionSize, width, height), width, height)
  {
    DiffMapFits(x, y, regionSize, width, height);
  }

  // ---------------------------------------------------------------------
  // create_diff_map
  // ---------------------------------------------------------------------

  /**
   * `create_diff_map`: a zero map of the frame's shape whose window around
   * `(x, y)` is filled, cell by cell, with the heat of the cell's offset
   * from the detection; `None` when the frame is empty (the grey-scale
   * conversion rejects it) or when the fill's shapes do not broadcast.
   * `heat(dx, dy)` stands for `uint8(exp(-(dx^2 + dy^2) / r^2) * 255)`.
   * When the shapes broadcast, the numpy slice `[y1:y2, x1:x2]` is exactly
   * the window (`AxisFits`), so the loops write the window's cells.
   */
  method CreateDiffMap<T>(frame: array2<T>, x: int, y: int, regionSize: int, heat: (int, int) -> Byte)
    returns (result: Option<array2<Byte>>)
    ensures result.None? <==>
      frame.Length0 == 0 || frame.Length1 == 0 ||
      !FillFits(ClampedWindow(x, y, regionSize, frame.Length1, frame.Length0), frame.Length1, frame.Length0)
    ensures result.Some? ==>
      var heatMap := result.value;
      var w := ClampedWindow(x, y, regionSize, frame.Length1, frame.Length0);
      fresh(heatMap) && heatMap.Length0 == frame.Length0 && heatMap.Length1 == frame.Length1 &&
      forall i, j :: 0 <= i < heatMap.Length0 && 0 <= j < heatMap.Length1 ==>
        heatMap[i, j] == if w.Contains(i, j) then heat(j - x, i - y) else 0
  {
    var height, width := frame.Length0, frame.Length1;
    if height == 0 || width == 0 {
      return None;
    }
    var w := ClampedWindow(x, y, regionSize, width, height);
    if !FillFits(w, width, height) {
      return None;
    }
    var diffMap := new Byte[height, width]((i, j) => 0);
    var i := w.y1;
    while i < w.y2
      invariant w.y1 <= i && (w.y1 < w.y2 ==> i <= w.y2)
      invariant forall r, c :: 0 <= r < height && 0 <= c < width ==>
        diffMap[r, c] == if w.Contains(r, c) && r < i then heat(c - x, r - y) else 0
    {
      var j := w.x1;
      while j < w.x2
        invariant w.x1 <= j && (w.x1 < w.x2 ==> j <= w.x2)
        invariant forall r, c :: 0 <= r < height && 0 <= c < width ==>
          diffMap[r, c] == if w.Contains(r, c) && (r < i || (r == i && c < j)) then heat(c - x, r - y) else 0
      {
        diffMap[i, j] := heat(j - x, i - y);
        j := j + 1;
      }
      i := i + 1;
    }
    return Some(diffMap);
  }

  // ---------------------------------------------------------------------
  // create_region_detail
  // ---------------------------------------------------------------------

  /** `max(100, region_size * 2)`: the side of the detail window. */
  function DetailSize(regionSize: int): (s: int)
    ensures s >= 100 && s >= 2 * regionSize
    ensures s == 100 || s == 2 * regionSize
  {
    Max(100, regionSize * 2)
  }

  /** `region_size_detail // 2`: at least 50, and at least the region size. */
  function DetailHalf(regionSize: int): (h: int)
    ensures h >= 50 && h >= regionSize
    ensures 2 * h <= DetailSize(regionSize) <= 2 * h + 1
  {
    DetailSize(regionSize) / 2
  }

  /** The detail window: the clamped square of half-side `DetailHalf`. It
      lies in the frame, inside the unclamped square, and no side is longer
      than the detail size. */
  function DetailWindow(x: int, y: int, regionSize: int, width: nat, height: nat): (w: Window)
    ensures 0 <= w.x1 && w.x2 <= width && 0 <= w.y1 && w.y2 <= height
    ensures x - DetailHalf(regionSize) <= w.x1 && w.x2 <= x + DetailHalf(regionSize)
    ensures y - DetailHalf(regionSize) <= w.y1 && w.y2 <= y + DetailHalf(regionSize)
    ensures w.x2 - w.x1 <= DetailSize(regionSize) && w.y2 - w.y1 <= DetailSize(regionSize)
  {
    ClampedWindow(x, y, DetailHalf(regionSize), width, height)
  }

  /** For a detection in the frame the detail window lies around the
      detection. */
  lemma DetailWindowBounds(x: int, y: int, regionSize: int, width: nat, height: nat)
    requires 0 <= x <= width && 0 <= y <= height
    ensures var w := DetailWindow(x, y, regionSize, width, height);
      0 <= w.x1 <= x <= w.x2 <= width && 0 <= w.y1 <= y <= w.y2 <= height
  {
  }

  /** `((x2 - x1) // 2, (y2 - y1) // 2)`: where the crosshair is drawn, in
      the crop's own coordinates (column, row). */
  function CrosshairCentre(w: Window): (c: (int, int))
    ensures 2 * c.0 <= w.x2 - w.x1 <= 2 * c.0 + 1
    ensures 2 * c.1 <= w.y2 - w.y1 <= 2 * c.1 + 1
  {
    ((w.x2 - w.x1) / 2, (w.y2 - w.y1) / 2)
  }

  /** For a detection in the frame the crosshair lies inside the crop
      whenever the crop is not empty. */
  lemma CrosshairInside(x: int, y: int, regionSize: int, width: nat, height: nat)
    requires 0 <= x <= width && 0 <= y <= height
    ensures var w := DetailWindow(x, y, regionSize, width, height);
      var c := CrosshairCentre(w);
      (w.x1 < w.x2 ==> 0 <= c.0 < w.x2 - w.x1) && (w.y1 < w.y2 ==> 0 <= c.1 < w.y2 - w.y1)
  {
    DetailWindowBounds(x, y, regionSize, width, height);
  }

  /** Near an edge the crosshair is not drawn on the detection: at (10, 10)
      with region size 20 in a 480 x 480 frame the crop starts at the
      frame's corner, so the detection is at (10, 10) in the crop while the
      crosshair is at (30, 30). */
  lemma CrosshairMissesDetection(x: int, y: int, regionSize: int, width: nat, height: nat)
    requires x == 10 && y == 10 && regionSize == 20 && width == 480 && height == 480
    ensures var w := DetailWindow(x, y, regionSize, width, height);
      CrosshairCentre(w) == (30, 30) && DetectionMark(x, y, w) == (10, 10)
  {
    assert DetailSize(regionSize) == 100;
    assert DetailHalf(regionSize) == 50;
    assert DetailWindow(x, y, regionSize, width, height) == Window(0, 0, 60, 60);
  }

  /** Where the crosshair belongs: the detection itself, in the crop's
      coordinates. */
  function DetectionMark(x: int, y: int, w: Window): (int, int)
  {
    (x - w.x1, y - w.y1)
  }

  /** The detection mark lies inside the crop for every detection inside
      the frame, and it coincides with the crop's centre away from the
      edges. */
  lemma DetectionMarkInside(x: int, y: int, regionSize: int, width: nat, height: nat)
    requires 0 <= x < width && 0 <= y < height
    ensures var w := DetailWindow(x, y, regionSize, width, height);
      var m := DetectionMark(x, y, w);
      0 <= m.0 < w.x2 - w.x1 && 0 <= m.1 < w.y2 - w.y1
    ensures var h := DetailHalf(regionSize);
      var w := DetailWindow(x, y, regionSize, width, height);
      h <= x && x + h <= width && h <= y && y + h <= height ==>
        DetectionMark(x, y, w) == CrosshairCentre(w)
  {
    var h := DetailHalf(regionSize);
    if h <= x && x + h <= width && h <= y && y + h <= height {
      WindowInterior(x, y, h, width, height);
    }
  }

  /**
   * `create_region_detail`: a copy of `frame[y1:y2, x1:x2]` (numpy slice
   * bounds) and the point, in the copy, where the crosshair is drawn.
   */
  method CreateRegionDetail<T>(frame: array2<T>, x: int, y: int, regionSize: int)
    returns (detail: array2<T>, crosshair: (int, int))
    ensures var w := DetailWindow(x, y, regionSize, frame.Length1, frame.Length0);
      var top := SliceBound(w.y1, frame.Length0);
      var left := SliceBound(w.x1, frame.Length1);
      fresh(detail) &&
      detail.Length0 == SliceLength(w.y1, w.y2, frame.Length0) &&
      detail.Length1 == SliceLength(w.x1, w.x2, frame.Length1) &&
      (forall i, j :: 0 <= i < detail.Length0 && 0 <= j < detail.Length1 ==>
        top + i < frame.Length0 && left + j < frame.Length1 && detail[i, j] == frame[top + i, left + j]) &&
      crosshair == CrosshairCentre(w)
  {
    var height, width := frame.Length0, frame.Length1;
    var w := DetailWindow(x, y, regionSize, width, height);
    var top, left := SliceBound(w.y1, height), SliceBound(w.x1, width);
    var rows, cols := SliceLength(w.y1, w.y2, height), SliceLength(w.x1, w.x2, width);
    detail := new T[rows, cols]((i: nat, j: nat) reads frame
      requires i < rows && j < cols => frame[top + i, left + j]);
    crosshair := CrosshairCentre(w);
  }
}
