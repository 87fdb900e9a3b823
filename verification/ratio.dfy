/** The change ratio of a foreground mask (app.py, lines 62-65): the share of
    foreground pixels, as a percentage of the area of the first mask seen. */
module Ratio {
  import opened Params

  /** A binary mask reduced to what the ratio needs: its shape and the number
      of non-zero (foreground) pixels. */
  datatype Mask = Mask(height: nat, width: nat, foreground: nat)

  /** `countNonZero(mask) / (W * H) * 100`. The area is the one recorded from
      the first mask, so `foreground` may in principle exceed it; the ratio is
      a percentage only when it does not. */
  function ChangeRatio(foreground: nat, width: nat, height: nat): (p: real)
    requires width * height > 0
    ensures 0.0 <= p
    ensures foreground <= width * height ==> p <= 100.0
    ensures p == 0.0 <==> foreground == 0
    ensures p == 100.0 <==> foreground == width * height
    ensures p * (width * height) as real == 100.0 * foreground as real
  {
    var area := (width * height) as real;
    var p := foreground as real / area * 100.0;
    assert p * area == 100.0 * foreground as real;
    p
  }

  /** The capture threshold in whole pixels: the ratio is below `MIN_PERCENT`
      exactly when fewer than one pixel in a thousand is foreground. */
  lemma StillIffFewerThanOnePerMille(foreground: nat, width: nat, height: nat)
    requires width * height > 0
    ensures ChangeRatio(foreground, width, height) < MIN_PERCENT
            <==> 1000 * foreground < width * height
  {
    var a: int := width * height;
    ScaledThreshold(ChangeRatio(foreground, width, height), a as real, foreground as real, MIN_PERCENT);
    assert (1000 * foreground) as real == 1000.0 * foreground as real;
  }

  /** The re-arm threshold in whole pixels: the ratio is at least `MAX_PERCENT`
      exactly when at least three pixels in a hundred are foreground. */
  lemma MovingIffThreePercent(foreground: nat, width: nat, height: nat)
    requires width * height > 0
    ensures ChangeRatio(foreground, width, height) >= MAX_PERCENT
            <==> 100 * foreground >= 3 * (width * height)
  {
    var a: int := width * height;
    ScaledThreshold(ChangeRatio(foreground, width, height), a as real, foreground as real, MAX_PERCENT);
    assert (100 * foreground) as real == 100.0 * foreground as real;
    assert (3 * a) as real == 3.0 * a as real;
  }

  /** A percentage `p` of `area` that covers `f` units lies below a threshold
      `t` exactly when `100 * f` lies below `t * area`. */
  lemma ScaledThreshold(p: real, area: real, f: real, t: real)
    requires 0.0 < area
    requires p * area == 100.0 * f
    ensures p < t <==> 100.0 * f < t * area
  {
    if p < t {
      assert p * area < t * area;
    } else {
      assert p * area >= t * area;
    }
  }

  /** More foreground never means a smaller ratio. */
  lemma RatioMonotone(f1: nat, f2: nat, width: nat, height: nat)
    requires width * height > 0
    requires f1 <= f2
    ensures ChangeRatio(f1, width, height) <= ChangeRatio(f2, width, height)
  {
    var area := (width * height) as real;
    var p1 := ChangeRatio(f1, width, height);
    var p2 := ChangeRatio(f2, width, height);
    assert 100.0 * f1 as real <= 100.0 * f2 as real;
    CancelPositive(p1, p2, area);
  }

  /** Dividing a weak inequality by a positive factor. */
  lemma CancelPositive(x: real, y: real, k: real)
    requires 0.0 < k && x * k <= y * k
    ensures x <= y
  {
    assert (x - y) * k <= 0.0;
  }

  /** An empty mask always passes the capture threshold. */
  lemma EmptyMaskIsStill(width: nat, height: nat)
    requires width * height > 0
    ensures ChangeRatio(0, width, height) < MIN_PERCENT
  {
  }
}
