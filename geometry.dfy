/** The crop-window arithmetic of the `image_resize_dimensions` filter.
    PHP evaluates divisions, `round` and `floor` in floating point; here they are
    exact rationals (`real`), with `round` rounding halves up (all operands are
    non-negative) and `(int)`/`intval` truncating, which is `.Floor` on
    non-negative values. */
module Geometry {
  import opened BoundingBox

  /** The eight parameters of `imagecopyresampled()`. */
  datatype Params = Params(dstX: int, dstY: int, srcX: int, srcY: int,
                           dstW: nat, dstH: nat, srcW: nat, srcH: nat)

  /** The `$output` the filter receives and returns: `null` (nothing decided
      upstream yet), an eight-entry array, or some other scalar such as `false`. */
  datatype Output = Null | NonArray | Tuple(p: Params)

  /** A width and a height in pixels. */
  datatype Size = Size(w: nat, h: nat)

  /** The top-left corner of the source window, before the final integer casts. */
  datatype Position = Position(x: real, y: real)

  function Min(a: nat, b: nat): (r: nat)
    ensures r <= a && r <= b && (r == a || r == b)
  {
    if a <= b then a else b
  }

  function RealMin(a: real, b: real): real { if a <= b then a else b }
  function RealMax(a: real, b: real): real { if a >= b then a else b }

  /** PHP `round` on a non-negative value: the nearest integer, halves upward. */
  function Round(x: real): (r: nat)
    requires x >= 0.0
    ensures r as real - 0.5 <= x < r as real + 0.5
  {
    (x + 0.5).Floor
  }

  /** PHP `intval` (and `(int)`) on a non-negative value: truncation. */
  function IntVal(x: real): (r: nat)
    requires x >= 0.0
    ensures r as real <= x < r as real + 1.0
  {
    x.Floor
  }

  /** `$orig_w / $orig_h`. */
  function AspectRatio(origW: nat, origH: nat): (ar: real)
    requires origH > 0
    ensures ar >= 0.0 && ar * origH as real == origW as real
  {
    origW as real / origH as real
  }

  /** The destination size (`$new_w`, `$new_h`). An upstream tuple keeps its own
      destination size; with `null` the target is capped by the original and a
      zero side is filled in from the other through the original's aspect ratio,
      width first, so the height sees an already-filled width. */
  function ResolveSize(output: Output, origW: nat, origH: nat, destW: nat, destH: nat): (r: Size)
    requires origW > 0 && origH > 0 && !output.NonArray?
    ensures output.Tuple? ==> r == Size(output.p.dstW, output.p.dstH)
    ensures output.Null? ==> r.w <= origW && r.h <= origH
    ensures output.Null? && destW > 0 ==> r.w == Min(destW, origW)
    ensures output.Null? && destH > 0 ==> r.h == Min(destH, origH)
    ensures output.Null? && destW == 0 ==>
              r.w as real <= Min(destH, origH) as real * AspectRatio(origW, origH) < r.w as real + 1.0
    ensures output.Null? && destH == 0 ==>
              r.h as real <= r.w as real / AspectRatio(origW, origH) < r.h as real + 1.0
  {
    match output
    case Tuple(p) => Size(p.dstW, p.dstH)
    case Null =>
      var ar := AspectRatio(origW, origH);
      var w0 := Min(destW, origW);
      var h0 := Min(destH, origH);
      FilledWidthBounded(h0, origW, origH);
      var w := if w0 == 0 then IntVal(h0 as real * ar) else w0;
      FilledHeightBounded(w, origW, origH);
      var h := if h0 == 0 then IntVal(w as real / ar) else h0;
      Size(w, h)
  }

  lemma FilledWidthBounded(h: nat, origW: nat, origH: nat)
    requires origW > 0 && origH > 0 && h <= origH
    ensures 0.0 <= h as real * AspectRatio(origW, origH) <= origW as real
  {
    var ar := AspectRatio(origW, origH);
    assert ar * origH as real == origW as real;
    assert h as real * ar <= origH as real * ar;
  }

  lemma FilledHeightBounded(w: nat, origW: nat, origH: nat)
    requires origW > 0 && origH > 0 && w <= origW
    ensures 0.0 <= w as real / AspectRatio(origW, origH) <= origH as real
  {
    var ar := AspectRatio(origW, origH);
    assert ar > 0.0;
    assert w as real / ar == w as real * origH as real / origW as real;
    assert w as real * origH as real <= origW as real * origH as real;
  }

  /** The cases the source leaves undefined are excluded: a zero original side
      (the aspect ratio and the size ratio divide by it), an `$output` that is neither null nor an
      array (its size is never set), and a 0x0 destination (division by the size
      ratio). */
  predicate Defined(output: Output, origW: nat, origH: nat, destW: nat, destH: nat)
  {
    origW > 0 && origH > 0 && !output.NonArray? &&
    var s := ResolveSize(output, origW, origH, destW, destH);
    s.w > 0 || s.h > 0
  }

  /** `max($new_w / $orig_w, $new_h / $orig_h)`: dividing the destination by it
      gives the largest scaled copy that fits in the original, since it is the
      smallest ratio at which both sides fit and one side fits exactly. */
  function SizeRatio(s: Size, origW: nat, origH: nat): (ratio: real)
    requires origW > 0 && origH > 0
    ensures s.w as real <= ratio * origW as real && s.h as real <= ratio * origH as real
    ensures s.w as real == ratio * origW as real || s.h as real == ratio * origH as real
    ensures s.w > 0 || s.h > 0 ==> ratio > 0.0
  {
    RealMax(s.w as real / origW as real, s.h as real / origH as real)
  }

  /** The source window (`$crop_w`, `$crop_h`): the destination scaled up by the
      largest factor that keeps it inside the original, then rounded. */
  function CropSize(s: Size, origW: nat, origH: nat): (r: Size)
    requires origW > 0 && origH > 0 && (s.w > 0 || s.h > 0)
    ensures r.w <= origW && r.h <= origH
    ensures r.w == origW || r.h == origH
    ensures -((s.w + s.h) as real) / 2.0 <= (r.w * s.h - r.h * s.w) as real <= (s.w + s.h) as real / 2.0
  {
    var ratio := SizeRatio(s, origW, origH);
    RoundedProportion(s.w, s.h, ratio);
    ScaledSideBounded(s.w, origW, ratio);
    ScaledSideBounded(s.h, origH, ratio);
    var r := Size(Round(s.w as real / ratio), Round(s.h as real / ratio));
    if ratio == s.w as real / origW as real then
      FullSide(s.w, origW, ratio);
      r
    else
      FullSide(s.h, origH, ratio);
      r
  }

  /** Both sides divided by one ratio and rounded keep their proportion up to the
      rounding: the cross products differ by at most half the sum of the sides. */
  lemma RoundedProportion(sw: nat, sh: nat, ratio: real)
    requires ratio > 0.0
    ensures var rw := Round(sw as real / ratio);
            var rh := Round(sh as real / ratio);
            -((sw + sh) as real) / 2.0 <= (rw * sh - rh * sw) as real <= (sw + sh) as real / 2.0
  {
    var x := sw as real / ratio;
    var y := sh as real / ratio;
    var rw := Round(x);
    var rh := Round(y);
    SameScale(sw as real, sh as real, ratio);
    RealProportion(x, y, sw as real, sh as real, rw as real, rh as real);
    CastProduct(rw, sh);
    CastProduct(rh, sw);
  }

  lemma CastProduct(m: int, n: int)
    ensures (m * n) as real == m as real * n as real
  {
  }

  lemma RealProportion(x: real, y: real, a: real, b: real, rw: real, rh: real)
    requires x * b == y * a && a >= 0.0 && b >= 0.0
    requires -0.5 <= rw - x <= 0.5 && -0.5 <= rh - y <= 0.5
    ensures -(a + b) / 2.0 <= rw * b - rh * a <= (a + b) / 2.0
  {
    var e1, e2 := rw - x, rh - y;
    CrossDifference(x, y, e1, e2, a, b);
    assert rw * b - rh * a == e1 * b - e2 * a;
    MulHalf(e1, b);
    MulHalf(e2, a);
    HalfSum(e1 * b, e2 * a, a, b);
  }

  lemma HalfSum(p: real, q: real, a: real, b: real)
    requires -0.5 * b <= p <= 0.5 * b && -0.5 * a <= q <= 0.5 * a
    ensures -(a + b) / 2.0 <= p - q <= (a + b) / 2.0
  {
  }

  lemma CrossDifference(x: real, y: real, e1: real, e2: real, a: real, b: real)
    requires x * b == y * a
    ensures (x + e1) * b - (y + e2) * a == e1 * b - e2 * a
  {
    assert (x + e1) * b == x * b + e1 * b;
    assert (y + e2) * a == y * a + e2 * a;
  }

  lemma SameScale(a: real, b: real, ratio: real)
    requires ratio > 0.0
    ensures (a / ratio) * b == (b / ratio) * a
  {
    assert (a / ratio) * b == (a * b) / ratio;
    assert (b / ratio) * a == (a * b) / ratio;
  }

  lemma MulHalf(e: real, k: real)
    requires -0.5 <= e <= 0.5 && k >= 0.0
    ensures -0.5 * k <= e * k <= 0.5 * k
  {
    assert (e + 0.5) * k >= 0.0;
    assert (0.5 - e) * k >= 0.0;
  }

  /** A side divided by a ratio at least side/len is at most len. */
  lemma ScaledSideBounded(side: nat, len: nat, ratio: real)
    requires len > 0 && ratio > 0.0 && ratio >= side as real / len as real
    ensures 0.0 <= side as real / ratio <= len as real
  {
    assert ratio * len as real >= side as real;
    assert side as real / ratio * ratio == side as real;
  }

  /** The side that determines the ratio comes back to its full length. */
  lemma FullSide(side: nat, len: nat, ratio: real)
    requires len > 0 && ratio > 0.0 && ratio == side as real / len as real
    ensures side as real / ratio == len as real
    ensures Round(side as real / ratio) == len
  {
    assert side as real == ratio * len as real;
  }

  /** `floor((orig - crop) / 2)`: the plain centre-crop offset. */
  function Centred(len: nat, size: nat): (r: nat)
    requires size <= len
    ensures r + size <= len
    ensures 0 <= (len - size) - 2 * r <= 1
  {
    HalfFloor(len - size);
    ((len - size) as real / 2.0).Floor
  }

  /** Halving an integer and flooring is integer division by two, and loses at most a half. */
  lemma HalfFloor(k: int)
    ensures (k as real / 2.0).Floor == k / 2
    ensures k as real / 2.0 - 0.5 <= (k / 2) as real <= k as real / 2.0
  {
    var q := k / 2;
    assert k == 2 * q || k == 2 * q + 1;
    assert q as real <= k as real / 2.0 < q as real + 1.0;
  }

  /** `min(max(0, v), hi)`. */
  function Clamp(v: real, hi: real): (r: real)
    requires hi >= 0.0
    ensures 0.0 <= r <= hi
    ensures 0.0 <= v <= hi ==> r == v
    ensures v < 0.0 ==> r == 0.0
    ensures v > hi ==> r == hi
  {
    RealMin(RealMax(0.0, v), hi)
  }

  /** The window that puts the centre `c` in its middle, pushed back inside [0, len]. */
  function Biased(c: real, len: nat, size: nat): (v: real)
    requires size <= len
    ensures 0.0 <= v && v + size as real <= len as real
    ensures 0.0 <= c - size as real / 2.0 <= (len - size) as real ==> v + size as real / 2.0 == c
  {
    Clamp(c - size as real / 2.0, (len - size) as real)
  }

  /** The window position: centred, then re-biased toward the box centre, the
      vertical axis only if the centred horizontal offset is 0, then the
      horizontal axis only if the (possibly just re-biased) vertical offset is 0. */
  function Window(origW: nat, origH: nat, c: Size, box: Box): (pos: Position)
    requires c.w <= origW && c.h <= origH
    ensures 0.0 <= pos.x && pos.x + c.w as real <= origW as real
    ensures 0.0 <= pos.y && pos.y + c.h as real <= origH as real
    ensures Centred(origW, c.w) != 0 ==> pos.y == Centred(origH, c.h) as real
    ensures pos.y != 0.0 ==> pos.x == Centred(origW, c.w) as real
  {
    var y := if Centred(origW, c.w) == 0 then Biased(box.CentreY(), origH, c.h)
             else Centred(origH, c.h) as real;
    var x := if y == 0.0 then Biased(box.CentreX(), origW, c.w)
             else Centred(origW, c.w) as real;
    Position(x, y)
  }

  /** When the window spans the full width or the full height (which CropSize
      guarantees), the order-dependent re-biasing gives the same window as
      centring on the box centre on both axes at once. */
  lemma SequentialBiasIsSymmetric(origW: nat, origH: nat, c: Size, box: Box)
    requires c.w <= origW && c.h <= origH
    requires c.w == origW || c.h == origH
    ensures Window(origW, origH, c, box)
            == Position(Biased(box.CentreX(), origW, c.w), Biased(box.CentreY(), origH, c.h))
  {
    var baseX := Centred(origW, c.w);
    if c.w == origW {
      assert baseX == 0;
    } else {
      assert Centred(origH, c.h) == 0;
      if baseX == 0 {
        assert Biased(box.CentreY(), origH, c.h) == 0.0;
      }
    }
  }

  /** The centre a window is biased toward stays inside it, even after the final
      truncation to an integer offset, as long as the centre lies in the image
      and the window is at least a pixel wide. */
  lemma {:induction false} BiasedCentreVisible(lo: int, extent: int, len: nat, size: nat)
    requires 1 <= size <= len
    requires 0.0 <= lo as real + extent as real / 2.0 <= len as real
    ensures var v := Biased(lo as real + extent as real / 2.0, len, size);
            v.Floor as real <= lo as real + extent as real / 2.0 <= (v.Floor + size) as real
  {
    var c := lo as real + extent as real / 2.0;
    var raw := c - size as real / 2.0;
    var v := Biased(c, len, size);
    if 0.0 <= raw <= (len - size) as real {
      var k := 2 * lo + extent - size;
      assert raw == k as real / 2.0;
      HalfFloor(k);
      assert v.Floor == k / 2;
    } else if raw < 0.0 {
      assert v == 0.0;
    } else {
      assert v == (len - size) as real;
    }
  }

  /** A span [lo, lo + extent] inside [0, len] and no longer than the window
      stays inside the window biased toward its centre, also after the offset is
      truncated to an integer. */
  lemma {:induction false} BiasedSpanVisible(lo: int, extent: int, len: nat, size: nat)
    requires 0 <= lo && 0 <= extent <= size <= len && lo + extent <= len
    ensures var v := Biased(lo as real + extent as real / 2.0, len, size);
            v.Floor <= lo && lo + extent <= v.Floor + size
  {
    var c := lo as real + extent as real / 2.0;
    var raw := c - size as real / 2.0;
    var v := Biased(c, len, size);
    if 0.0 <= raw <= (len - size) as real {
      var k := 2 * lo + extent - size;
      assert raw == k as real / 2.0;
      HalfFloor(k);
      assert v.Floor == k / 2;
      if k % 2 == 1 {
        assert extent < size;
      }
    } else if raw < 0.0 {
      assert v == 0.0;
    } else {
      assert v == (len - size) as real;
    }
  }

  /** If the hotspot box lies in the image and is no larger than the window, the
      whole box is inside the window at its truncated integer offsets. */
  lemma BoxFitsInWindow(origW: nat, origH: nat, c: Size, box: Box)
    requires c.w <= origW && c.h <= origH
    requires c.w == origW || c.h == origH
    requires 0 <= box.minX <= box.maxX <= origW && box.Width() <= c.w
    requires 0 <= box.minY <= box.maxY <= origH && box.Height() <= c.h
    ensures var pos := Window(origW, origH, c, box);
            pos.x.Floor <= box.minX && box.maxX <= pos.x.Floor + c.w &&
            pos.y.Floor <= box.minY && box.maxY <= pos.y.Floor + c.h
  {
    SequentialBiasIsSymmetric(origW, origH, c, box);
    BiasedSpanVisible(box.minX, box.Width(), origW, c.w);
    BiasedSpanVisible(box.minY, box.Height(), origH, c.h);
  }

  /** With at least two pixels of slack on both axes (a window CropSize never
      produces) neither axis is re-biased: the window stays centred whatever
      the hotspots. */
  lemma NoFullSideNoBias(origW: nat, origH: nat, c: Size, box: Box)
    requires c.w + 2 <= origW && c.h + 2 <= origH
    ensures Window(origW, origH, c, box)
            == Position(Centred(origW, c.w) as real, Centred(origH, c.h) as real)
  {
    assert Centred(origW, c.w) >= 1;
    assert Centred(origH, c.h) >= 1;
  }

  /** One pixel of horizontal slack centres at offset 0, so the vertical axis is
      re-biased: a 9x5 window in a 10x10 image moves to the top for a hotspot at
      (0,0), where a centred window would sit at y = 2. */
  lemma OnePixelSlackBiases()
    ensures Centred(10, 9) == 0 && Centred(10, 5) == 2
    ensures Window(10, 10, Size(9, 5), Box(0, 0, 0, 0)) == Position(0.0, 0.0)
  {
    HalfFloor(1);
    HalfFloor(5);
  }
}
