/** The plugin object: it remembers the hotspots of the attachment currently
    being processed and, as the `image_resize_dimensions` filter, replaces the
    plain centre crop by a window biased toward those hotspots. */
module ImageHotspot {
  import opened BoundingBox
  import opened Geometry

  datatype Option<T> = None | Some(value: T)

  /** What the filter returns for the given arguments and stored hotspots. */
  function CropResult(output: Output, origW: nat, origH: nat, destW: nat, destH: nat,
                      crop: bool, hotspots: seq<RawPoint>): (r: Output)
    requires crop && hotspots != [] ==> Defined(output, origW, origH, destW, destH)
    ensures !crop || hotspots == [] ==> r == output
    ensures crop && hotspots != [] ==>
              var size := ResolveSize(output, origW, origH, destW, destH);
              r.Tuple? && r.p.dstX == 0 && r.p.dstY == 0 &&
              r.p.dstW == size.w && r.p.dstH == size.h &&
              Size(r.p.srcW, r.p.srcH) == CropSize(size, origW, origH)
    ensures crop && hotspots != [] ==>
              r.Tuple? && 0 <= r.p.srcX && r.p.srcX + r.p.srcW <= origW &&
              0 <= r.p.srcY && r.p.srcY + r.p.srcH <= origH
  {
    if !crop || hotspots == [] then output
    else
      var size := ResolveSize(output, origW, origH, destW, destH);
      var c := CropSize(size, origW, origH);
      var pos := Window(origW, origH, c, BoxOf(hotspots));
      Tuple(Params(0, 0, pos.x.Floor, pos.y.Floor, size.w, size.h, c.w, c.h))
  }

  /** "The point you selected will stay visible": the centre of the hotspots'
      bounding box lies in the returned source window on both axes, whenever it
      lies in the image and the window is not empty on that axis. */
  lemma CentreStaysVisible(output: Output, origW: nat, origH: nat, destW: nat, destH: nat,
                           hotspots: seq<RawPoint>)
    requires hotspots != [] && Defined(output, origW, origH, destW, destH)
    requires 0.0 <= BoxOf(hotspots).CentreX() <= origW as real
    requires 0.0 <= BoxOf(hotspots).CentreY() <= origH as real
    ensures var r := CropResult(output, origW, origH, destW, destH, true, hotspots);
            r.Tuple? &&
            (r.p.srcW > 0 ==>
               r.p.srcX as real <= BoxOf(hotspots).CentreX() <= (r.p.srcX + r.p.srcW) as real) &&
            (r.p.srcH > 0 ==>
               r.p.srcY as real <= BoxOf(hotspots).CentreY() <= (r.p.srcY + r.p.srcH) as real)
  {
    var box := BoxOf(hotspots);
    var size := ResolveSize(output, origW, origH, destW, destH);
    var c := CropSize(size, origW, origH);
    SequentialBiasIsSymmetric(origW, origH, c, box);
    if c.w > 0 {
      BiasedCentreVisible(box.minX, box.Width(), origW, c.w);
    }
    if c.h > 0 {
      BiasedCentreVisible(box.minY, box.Height(), origH, c.h);
    }
  }

  /** When the hotspots' bounding box lies in the image and is no larger than the
      returned window, the whole box is inside the returned integer window. */
  lemma BoxStaysVisible(output: Output, origW: nat, origH: nat, destW: nat, destH: nat,
                        hotspots: seq<RawPoint>)
    requires hotspots != [] && Defined(output, origW, origH, destW, destH)
    requires BoxOf(hotspots).maxX <= origW && BoxOf(hotspots).maxY <= origH
    requires var size := ResolveSize(output, origW, origH, destW, destH);
             var c := CropSize(size, origW, origH);
             BoxOf(hotspots).Width() <= c.w && BoxOf(hotspots).Height() <= c.h
    ensures var r := CropResult(output, origW, origH, destW, destH, true, hotspots);
            var box := BoxOf(hotspots);
            r.Tuple? &&
            r.p.srcX <= box.minX && box.maxX <= r.p.srcX + r.p.srcW &&
            r.p.srcY <= box.minY && box.maxY <= r.p.srcY + r.p.srcH
  {
    var size := ResolveSize(output, origW, origH, destW, destH);
    var c := CropSize(size, origW, origH);
    BoxSizeNonNegative(hotspots);
    BoxFitsInWindow(origW, origH, c, BoxOf(hotspots));
  }

  /** Only the destination size of an upstream tuple matters; its offsets and
      source size are recomputed. */
  lemma UpstreamSourceIgnored(p: Params, q: Params, origW: nat, origH: nat, destW: nat, destH: nat,
                              hotspots: seq<RawPoint>)
    requires p.dstW == q.dstW && p.dstH == q.dstH
    requires hotspots != [] && Defined(Tuple(p), origW, origH, destW, destH)
    ensures Defined(Tuple(q), origW, origH, destW, destH)
    ensures CropResult(Tuple(p), origW, origH, destW, destH, true, hotspots)
            == CropResult(Tuple(q), origW, origH, destW, destH, true, hotspots)
  {
  }

  /** A 1000x600 image cut to 300x300 with a hotspot near the bottom-right corner:
      the window slides to the right edge. */
  lemma HotspotBottomRight()
    ensures CropResult(Tuple(Params(0, 0, 200, 0, 300, 300, 600, 600)), 1000, 600, 300, 300,
                       true, [RawPoint(900.0, 550.0)])
            == Tuple(Params(0, 0, 400, 0, 300, 300, 600, 600))
  {
    var pts := [RawPoint(900.0, 550.0)];
    assert pts[..0] == [];
    assert (900.0).Floor == 900 && (550.0).Floor == 550;
    assert BoxOf(pts) == Box(900, 550, 900, 550);
    var size := Size(300, 300);
    assert SizeRatio(size, 1000, 600) == 0.5;
    assert (600.5).Floor == 600;
    assert CropSize(size, 1000, 600) == Size(600, 600);
    HalfFloor(400);
    HalfFloor(0);
    assert (400.0).Floor == 400;
  }

  /** The same image with a hotspot near the top-left corner: the window is
      clamped to the left edge. */
  lemma HotspotTopLeft()
    ensures CropResult(Tuple(Params(0, 0, 200, 0, 300, 300, 600, 600)), 1000, 600, 300, 300,
                       true, [RawPoint(50.0, 50.0)])
            == Tuple(Params(0, 0, 0, 0, 300, 300, 600, 600))
  {
    var pts := [RawPoint(50.0, 50.0)];
    assert pts[..0] == [];
    assert (50.0).Floor == 50;
    assert BoxOf(pts) == Box(50, 50, 50, 50);
    var size := Size(300, 300);
    assert SizeRatio(size, 1000, 600) == 0.5;
    assert (600.5).Floor == 600;
    assert CropSize(size, 1000, 600) == Size(600, 600);
    HalfFloor(400);
    HalfFloor(0);
    assert (0.0).Floor == 0;
  }

  /** With no upstream tuple and a target of 300x0, the height is derived from the
      aspect ratio: 300 / (1000/600) = 180, and the window is the whole image. */
  lemma HeightFromAspectRatio()
    ensures ResolveSize(Null, 1000, 600, 300, 0) == Size(300, 180)
    ensures CropSize(Size(300, 180), 1000, 600) == Size(1000, 600)
  {
    assert 300.0 / AspectRatio(1000, 600) == 180.0;
    assert (180.0).Floor == 180;
    assert SizeRatio(Size(300, 180), 1000, 600) == 0.3;
    assert (1000.5).Floor == 1000 && (600.5).Floor == 600;
  }

  class WPImageHotspot {
    /** The static `$attachment_id`: the attachment most recently looked up. */
    var attachmentId: Option<int>
    /** The hotspots of the attachment being processed. */
    var hotspots: seq<RawPoint>

    constructor ()
      ensures attachmentId == None && hotspots == []
    {
      attachmentId := None;
      hotspots := [];
    }

    /** The `get_attached_file` / `update_attached_file` filter: records the
        attachment and loads its stored hotspots (`stored` is the metadata value,
        empty when nothing is stored). An empty value leaves the previous
        attachment's hotspots in place. */
    method SetAttachmentId(file: string, id: int, stored: seq<RawPoint>) returns (r: string)
      modifies this
      ensures r == file
      ensures attachmentId == Some(id)
      ensures hotspots == if stored != [] then stored else old(hotspots)
    {
      attachmentId := Some(id);
      if stored != [] {
        hotspots := stored;
      }
      r := file;
    }

    /** The `image_resize_dimensions` filter. */
    method Crop(output: Output, origW: nat, origH: nat, destW: nat, destH: nat, crop: bool)
      returns (r: Output)
      requires crop && hotspots != [] ==> Defined(output, origW, origH, destW, destH)
      ensures r == CropResult(output, origW, origH, destW, destH, crop, hotspots)
    {
      if !crop || hotspots == [] {
        return output;
      }
      var box := Compute(hotspots);
      var size := ResolveSize(output, origW, origH, destW, destH);
      var c := CropSize(size, origW, origH);

      var srcX: real := Centred(origW, c.w) as real;
      var srcY: real := Centred(origH, c.h) as real;
      if srcX == 0.0 {
        srcY := box.CentreY() - c.h as real / 2.0;
        srcY := Clamp(srcY, (origH - c.h) as real);
      }
      if srcY == 0.0 {
        srcX := box.CentreX() - c.w as real / 2.0;
        srcX := Clamp(srcX, (origW - c.w) as real);
      }
      r := Tuple(Params(0, 0, srcX.Floor, srcY.Floor, size.w, size.h, c.w, c.h));
    }
  }
}
