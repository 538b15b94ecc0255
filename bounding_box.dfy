/** Hotspot points and the bounding box that the crop filter folds them into.
    A hotspot arrives as whatever numeric values were saved in the attachment's
    metadata; the filter normalises each coordinate with `absint` and then keeps
    running minima and maxima, starting from PHP_INT_MAX and 0. */
module BoundingBox {

  /** PHP_INT_MAX on a 64-bit build: the starting value of the running minima. */
  const PhpIntMax: int := 0x7FFF_FFFF_FFFF_FFFF

  /** A hotspot as stored in the metadata: the numeric values of its x and y keys. */
  datatype RawPoint = RawPoint(x: real, y: real)

  /** A hotspot after normalisation: non-negative integer pixel coordinates. */
  datatype Point = Point(x: nat, y: nat)

  function Abs(v: real): (r: real)
    ensures r >= 0.0 && (r == v || r == -v)
  {
    if v >= 0.0 then v else -v
  }

  /** WordPress's `absint`: the absolute value of the integer part (intval
      truncates toward zero), so a negative coordinate is mirrored, not clamped. */
  function AbsInt(v: real): (r: nat)
    ensures r as real <= Abs(v) < r as real + 1.0
  {
    if v >= 0.0 then v.Floor else (-v).Floor
  }

  /** `array_map( 'absint', $hotspot )` on the two coordinates. */
  function Normalize(p: RawPoint): (q: Point)
    ensures q.x as real <= Abs(p.x) < q.x as real + 1.0
    ensures q.y as real <= Abs(p.y) < q.y as real + 1.0
  {
    Point(AbsInt(p.x), AbsInt(p.y))
  }

  /** The running extremes of the loop. */
  datatype Box = Box(minX: int, minY: int, maxX: int, maxY: int)
  {
    /** `$hotspot_src_w`: how far the right edge lies from the left edge. */
    function Width(): (w: int)
      ensures minX + w == maxX
    {
      maxX - minX
    }

    /** `$hotspot_src_h`: how far the bottom edge lies from the top edge. */
    function Height(): (h: int)
      ensures minY + h == maxY
    {
      maxY - minY
    }

    /** The centre the window is biased toward: min + width / 2, a float in PHP. */
    function CentreX(): (c: real)
      ensures c - minX as real == maxX as real - c
    {
      minX as real + Width() as real / 2.0
    }

    /** The vertical centre: min + height / 2. */
    function CentreY(): (c: real)
      ensures c - minY as real == maxY as real - c
    {
      minY as real + Height() as real / 2.0
    }
  }

  /** The values the extremes start from before the first hotspot is seen. */
  const Start: Box := Box(PhpIntMax, PhpIntMax, 0, 0)

  /** One pass of the loop body: each extreme moves only when the point passes it. */
  function Include(b: Box, p: Point): (r: Box)
    ensures r.minX <= b.minX && r.minX <= p.x && (r.minX == b.minX || r.minX == p.x)
    ensures r.minY <= b.minY && r.minY <= p.y && (r.minY == b.minY || r.minY == p.y)
    ensures r.maxX >= b.maxX && r.maxX >= p.x && (r.maxX == b.maxX || r.maxX == p.x)
    ensures r.maxY >= b.maxY && r.maxY >= p.y && (r.maxY == b.maxY || r.maxY == p.y)
  {
    Box(if b.minX > p.x then p.x else b.minX,
        if b.minY > p.y then p.y else b.minY,
        if b.maxX < p.x then p.x else b.maxX,
        if b.maxY < p.y then p.y else b.maxY)
  }

  /** The box the loop holds after visiting the hotspots in order. */
  function BoxOf(pts: seq<RawPoint>): (b: Box)
    ensures pts == [] ==> b == Start
    ensures 0 <= b.minX <= PhpIntMax && 0 <= b.minY <= PhpIntMax
    ensures 0 <= b.maxX && 0 <= b.maxY
    decreases |pts|
  {
    if pts == [] then Start
    else Include(BoxOf(pts[..|pts| - 1]), Normalize(pts[|pts| - 1]))
  }

  /** The foreach loop of the crop filter, updating four running extremes. */
  method Compute(pts: seq<RawPoint>) returns (box: Box)
    ensures box == BoxOf(pts)
  {
    var minX, minY := PhpIntMax, PhpIntMax;
    var maxX, maxY := 0, 0;
    for i := 0 to |pts|
      invariant Box(minX, minY, maxX, maxY) == BoxOf(pts[..i])
    {
      var p := Normalize(pts[i]);
      if minX > p.x {
        minX := p.x;
      }
      if minY > p.y {
        minY := p.y;
      }
      if maxX < p.x {
        maxX := p.x;
      }
      if maxY < p.y {
        maxY := p.y;
      }
      assert pts[..i + 1][..i] == pts[..i];
    }
    assert pts[..|pts|] == pts;
    box := Box(minX, minY, maxX, maxY);
  }

  /** Every normalised hotspot lies inside the box. */
  lemma {:induction false} BoxBounds(pts: seq<RawPoint>, i: int)
    requires 0 <= i < |pts|
    ensures BoxOf(pts).minX <= Normalize(pts[i]).x <= BoxOf(pts).maxX
    ensures BoxOf(pts).minY <= Normalize(pts[i]).y <= BoxOf(pts).maxY
    decreases |pts|
  {
    var init := pts[..|pts| - 1];
    if i < |pts| - 1 {
      BoxBounds(init, i);
      assert init[i] == pts[i];
    }
  }

  /** For a non-empty list the box has non-negative width and height. */
  lemma BoxSizeNonNegative(pts: seq<RawPoint>)
    requires pts != []
    ensures BoxOf(pts).Width() >= 0 && BoxOf(pts).Height() >= 0
  {
    BoxBounds(pts, 0);
  }

  /** Each extreme is some hotspot's coordinate, provided no normalised
      coordinate exceeds the starting value PHP_INT_MAX. */
  lemma {:induction false} BoxAttained(pts: seq<RawPoint>)
    requires pts != []
    requires forall i :: 0 <= i < |pts| ==> Normalize(pts[i]).x <= PhpIntMax && Normalize(pts[i]).y <= PhpIntMax
    ensures exists i :: 0 <= i < |pts| && Normalize(pts[i]).x == BoxOf(pts).minX
    ensures exists i :: 0 <= i < |pts| && Normalize(pts[i]).y == BoxOf(pts).minY
    ensures exists i :: 0 <= i < |pts| && Normalize(pts[i]).x == BoxOf(pts).maxX
    ensures exists i :: 0 <= i < |pts| && Normalize(pts[i]).y == BoxOf(pts).maxY
    decreases |pts|
  {
    var n := |pts| - 1;
    var p := Normalize(pts[n]);
    var b := BoxOf(pts);
    if n == 0 {
      assert pts[..0] == [];
      assert BoxOf(pts[..0]) == Start;
      assert b == Include(BoxOf(pts[..0]), p);
      assert Normalize(pts[0]).x == b.minX && Normalize(pts[0]).y == b.minY;
      assert Normalize(pts[0]).x == b.maxX && Normalize(pts[0]).y == b.maxY;
    } else {
      var init := pts[..n];
      forall i | 0 <= i < |init|
        ensures Normalize(init[i]).x <= PhpIntMax && Normalize(init[i]).y <= PhpIntMax
      {
        assert init[i] == pts[i];
      }
      BoxAttained(init);
      var c := BoxOf(init);
      var a :| 0 <= a < |init| && Normalize(init[a]).x == c.minX;
      var e :| 0 <= e < |init| && Normalize(init[e]).y == c.minY;
      var f :| 0 <= f < |init| && Normalize(init[f]).x == c.maxX;
      var g :| 0 <= g < |init| && Normalize(init[g]).y == c.maxY;
      assert init[a] == pts[a] && init[e] == pts[e] && init[f] == pts[f] && init[g] == pts[g];
      if c.minX > p.x { assert Normalize(pts[n]).x == b.minX; } else { assert Normalize(pts[a]).x == b.minX; }
      if c.minY > p.y { assert Normalize(pts[n]).y == b.minY; } else { assert Normalize(pts[e]).y == b.minY; }
      if c.maxX < p.x { assert Normalize(pts[n]).x == b.maxX; } else { assert Normalize(pts[f]).x == b.maxX; }
      if c.maxY < p.y { assert Normalize(pts[n]).y == b.maxY; } else { assert Normalize(pts[g]).y == b.maxY; }
    }
  }

  /** A negative stored coordinate is mirrored by absint, not clamped to 0. */
  lemma NegativeCoordinateMirrored()
    ensures Normalize(RawPoint(-40.7, 12.0)) == Point(40, 12)
  {
    assert (40.7).Floor == 40;
    assert (12.0).Floor == 12;
  }

  /** Two opposite corners give the box they span. */
  lemma TwoPointBox()
    ensures BoxOf([RawPoint(10.0, 10.0), RawPoint(990.0, 590.0)]) == Box(10, 10, 990, 590)
    ensures BoxOf([RawPoint(10.0, 10.0), RawPoint(990.0, 590.0)]).Width() == 980
    ensures BoxOf([RawPoint(10.0, 10.0), RawPoint(990.0, 590.0)]).Height() == 580
  {
    var pts := [RawPoint(10.0, 10.0), RawPoint(990.0, 590.0)];
    assert pts[..1] == [RawPoint(10.0, 10.0)];
    assert pts[..1][..0] == [];
    assert (10.0).Floor == 10 && (990.0).Floor == 990 && (590.0).Floor == 590;
  }
}
