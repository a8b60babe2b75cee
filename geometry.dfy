/**
 * Axis-aligned pixel boxes and their intersection-over-union, with
 * coordinates as exact reals.
 */
module Geometry {

  /** A display box `{start_x, end_x, start_y, end_y}`. */
  datatype Box = Box(startX: real, endX: real, startY: real, endY: real)

  /** Start coordinates do not exceed end coordinates. */
  predicate Proper(b: Box)
  {
    b.startX <= b.endX && b.startY <= b.endY
  }

  function Area(b: Box): real
  {
    (b.endX - b.startX) * (b.endY - b.startY)
  }

  function Max(a: real, b: real): real { if a >= b then a else b }
  function Min(a: real, b: real): real { if a <= b then a else b }

  /** Width of the overlap of the x-extents (not positive when they do not overlap). */
  function OverlapWidth(a: Box, b: Box): real
  {
    Min(a.endX, b.endX) - Max(a.startX, b.startX)
  }

  /** Height of the overlap of the y-extents. */
  function OverlapHeight(a: Box, b: Box): real
  {
    Min(a.endY, b.endY) - Max(a.startY, b.startY)
  }

  /** Overlap area w*h over the union area, 0 when the union is not positive. */
  function Ratio(w: real, h: real, areaA: real, areaB: real): (r: real)
    requires w > 0.0 && h > 0.0
    ensures r >= 0.0
  {
    var intersection := w * h;
    var union := areaA + areaB - intersection;
    if union <= 0.0 then 0.0
    else MulPositive(w, h); DivPositive(intersection, union); intersection / union
  }

  /**
   * `calculate_bbox_iou`: intersection area over union area; 0 when the
   * boxes do not overlap with positive width and height, or when the union
   * is not positive.
   */
  function Iou(a: Box, b: Box): (r: real)
    ensures r >= 0.0
  {
    var w := OverlapWidth(a, b);
    var h := OverlapHeight(a, b);
    if w <= 0.0 || h <= 0.0 then 0.0
    else Ratio(w, h, Area(a), Area(b))
  }

  lemma MulPositive(a: real, b: real)
    requires a > 0.0 && b > 0.0
    ensures a * b > 0.0
  {
  }

  lemma DivPositive(a: real, b: real)
    requires a > 0.0 && b > 0.0
    ensures a / b > 0.0
  {
  }

  lemma MulMono(a: real, b: real, c: real, d: real)
    requires 0.0 <= a <= c && 0.0 <= b <= d
    ensures a * b <= c * d
  {
    assert a * b <= c * b;
    assert c * b <= c * d;
  }

  lemma DivAtMostOne(a: real, b: real)
    requires 0.0 <= a <= b && b > 0.0
    ensures a / b <= 1.0
  {
    var q := a / b;
    assert q * b == a;
  }

  /** The overlap is the same whichever box comes first. */
  lemma IouSymmetric(a: Box, b: Box)
    ensures Iou(a, b) == Iou(b, a)
  {
    var w, h := OverlapWidth(a, b), OverlapHeight(a, b);
    assert w == OverlapWidth(b, a) && h == OverlapHeight(b, a);
    if w > 0.0 && h > 0.0 {
      RatioSymmetric(w, h, Area(a), Area(b));
    }
  }

  lemma RatioSymmetric(w: real, h: real, areaA: real, areaB: real)
    requires w > 0.0 && h > 0.0
    ensures Ratio(w, h, areaA, areaB) == Ratio(w, h, areaB, areaA)
  {
    assert areaA + areaB - w * h == areaB + areaA - w * h;
  }

  /** Boxes separated along x or y, or just touching, have no overlap. */
  lemma IouOfSeparated(a: Box, b: Box)
    requires a.endX <= b.startX || b.endX <= a.startX || a.endY <= b.startY || b.endY <= a.startY
    ensures Iou(a, b) == 0.0
  {
  }

  /** For proper boxes the overlap ratio is at most 1. */
  lemma IouAtMostOne(a: Box, b: Box)
    requires Proper(a) && Proper(b)
    ensures Iou(a, b) <= 1.0
  {
    var w := OverlapWidth(a, b);
    var h := OverlapHeight(a, b);
    if w > 0.0 && h > 0.0 {
      MulMono(w, h, a.endX - a.startX, a.endY - a.startY);
      MulMono(w, h, b.endX - b.startX, b.endY - b.startY);
      RatioAtMostOne(w, h, Area(a), Area(b));
    }
  }

  lemma RatioAtMostOne(w: real, h: real, areaA: real, areaB: real)
    requires w > 0.0 && h > 0.0 && w * h <= areaA && w * h <= areaB
    ensures Ratio(w, h, areaA, areaB) <= 1.0
  {
    MulPositive(w, h);
    DivAtMostOne(w * h, areaA + areaB - w * h);
  }

  lemma RatioOfEqualAreas(w: real, h: real)
    requires w > 0.0 && h > 0.0
    ensures Ratio(w, h, w * h, w * h) == 1.0
  {
    MulPositive(w, h);
    var x := w * h;
    assert x + x - x == x;
    assert x / x == 1.0;
  }

  /** A box with positive area overlaps itself completely. */
  lemma IouSelf(b: Box)
    requires b.startX < b.endX && b.startY < b.endY
    ensures Iou(b, b) == 1.0
  {
    var w, h := b.endX - b.startX, b.endY - b.startY;
    assert OverlapWidth(b, b) == w && OverlapHeight(b, b) == h;
    assert Area(b) == w * h;
    RatioOfEqualAreas(w, h);
  }
}
