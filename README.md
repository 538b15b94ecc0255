# Image Hotspot crop window, in Dafny

A model of the WordPress "Image Hotspot" plugin's cropping logic. Users mark
points of interest (hotspots) on an image. When WordPress generates a
hard-cropped thumbnail, the plugin's `image_resize_dimensions` filter picks
the source window instead of WordPress's plain centre crop. It returns the
eight `imagecopyresampled()` parameters `(dst_x, dst_y, src_x, src_y, dst_w,
dst_h, src_w, src_h)`.

The filter works in three stages:

1. It folds the hotspots into a bounding box. Each coordinate is first
   normalised with `absint`.
2. It sizes the largest window of the destination's aspect ratio that fits
   in the original.
3. It centres that window, then shifts it toward the box centre in a fixed
   order: first vertically, then horizontally.

The plugin object keeps the hotspots of the most recently looked-up
attachment that had hotspots stored. It learns of each lookup through the
`get_attached_file` and `update_attached_file` filters.

Files:

- `bounding_box.dfy`, module `BoundingBox`: raw and normalised hotspots,
  `absint`, and the bounding-box loop. The loop is a method proved against
  the recursive fold `BoxOf`.
- `geometry.dfy`, module `Geometry`: the size, ratio and window arithmetic
  as pure functions over `real`, with lemmas.
- `image_hotspot.dfy`, module `ImageHotspot`: the filter's result as a
  function, `CropResult`, and the class `WPImageHotspot`. The class holds the
  `hotspots` and `attachmentId` fields. Its `Crop` method reassigns
  `srcX`/`srcY` in the source's order and is proved equal to `CropResult`.

Arithmetic: PHP computes the divisions, `round` and `floor` in floating
point. The model uses exact rationals. `round` on the non-negative values
here is `floor(x + 1/2)`, and `(int)`/`intval` is `.Floor`. The window
offsets stay unrounded reals until the final casts, as in the source. The
vertical offset can be a half-integer when the horizontal test is made.

## Model

| member | source | states |
|---|---|---|
| `BoundingBox.AbsInt` | image-hotspot.php:296 | The normalised coordinate is the integer part of the absolute value, `r <= abs(v) < r + 1`. A negative value is mirrored, not clamped to 0. |
| `BoundingBox.NegativeCoordinateMirrored` | image-hotspot.php:296 | A stored point (-40.7, 12) normalises to (40, 12). |
| `BoundingBox.Normalize` | image-hotspot.php:296 | Each coordinate of a hotspot becomes the integer part of its absolute value. |
| `BoundingBox.Box.Width` | image-hotspot.php:317 | The box width is the distance from `minX` to `maxX`. |
| `BoundingBox.Box.Height` | image-hotspot.php:318 | The box height is the distance from `minY` to `maxY`. |
| `BoundingBox.Box.CentreX` | image-hotspot.php:352 | `min_x + w / 2` is equidistant from the left and right edges of the box. |
| `BoundingBox.Box.CentreY` | image-hotspot.php:347 | `min_y + h / 2` is equidistant from the top and bottom edges of the box. |
| `BoundingBox.Include` | image-hotspot.php:299-314 | One loop pass: each minimum becomes the smaller of the old minimum and the point, and each maximum the larger. |
| `BoundingBox.BoxOf` | image-hotspot.php:290-315 | The fold of the loop passes over the list. The empty list gives the starting values. The minima lie in `[0, PHP_INT_MAX]` and the maxima are `>= 0`. |
| `BoundingBox.Compute` | image-hotspot.php:290-315 | The foreach loop's four running extremes, started at PHP_INT_MAX and 0, end equal to the fold `BoxOf` of the hotspot list. |
| `BoundingBox.BoxBounds` | image-hotspot.php:295-315 | Every normalised hotspot satisfies `minX <= x <= maxX` and `minY <= y <= maxY`. |
| `BoundingBox.BoxAttained` | image-hotspot.php:290-315 | For a non-empty list whose coordinates do not exceed PHP_INT_MAX, each of the four extremes is the coordinate of some hotspot. |
| `BoundingBox.BoxSizeNonNegative` | image-hotspot.php:317-318 | For a non-empty list the box width and height are `>= 0`. |
| `BoundingBox.TwoPointBox` | image-hotspot.php:295-318 | Hotspots (10,10) and (990,590) give the box (10,10)-(990,590), 980 wide and 580 high. |
| `Geometry.Round` | image-hotspot.php:339-340 | `round` gives the nearest integer: `r - 1/2 <= x < r + 1/2`. |
| `Geometry.IntVal` | image-hotspot.php:329-333 | `intval` truncates: `r <= x < r + 1`. |
| `Geometry.AspectRatio` | image-hotspot.php:321 | The aspect ratio times the original height is the original width. |
| `Geometry.ResolveSize` | image-hotspot.php:321-335 | An upstream tuple's `dst_w`/`dst_h` are kept. With `null`, each side is `min(target, original)`. A zero width is `intval(height * aspect)`, and a zero height is `intval(width / aspect)` of the already-resolved width. Both sides stay within the original. |
| `Geometry.SizeRatio` | image-hotspot.php:337 | The smallest ratio at which the destination, scaled up by its inverse, fits: both sides fit and one fits exactly. |
| `Geometry.CropSize` | image-hotspot.php:320-340 | The window fits in the original, `crop_w <= orig_w` and `crop_h <= orig_h`, and at least one side equals the original's. It keeps the destination's proportions up to rounding: `abs(crop_w * new_h - crop_h * new_w) <= (new_w + new_h) / 2`. |
| `Geometry.Centred` | image-hotspot.php:342-343 | The centred offset keeps the window inside. The two margins differ by at most one pixel. |
| `Geometry.Clamp` | image-hotspot.php:348 | `min(max(0, v), hi)` lies in `[0, hi]`. It equals `v` inside the range and the nearer end outside it. |
| `Geometry.Biased` | image-hotspot.php:347-348 | The offset that puts a given centre in the middle of the window, clamped so the window stays in `[0, len]`. Where no clamping is needed, the window's centre is exactly the given centre. The same function serves lines 352-353. |
| `Geometry.Window` | image-hotspot.php:342-354 | The window lies in the image on both axes. The vertical offset moves from its centred value only when the centred horizontal offset is 0. The horizontal offset moves only when the current vertical offset is 0. |
| `Geometry.SequentialBiasIsSymmetric` | image-hotspot.php:345-354 | When the window spans the full width or height, the order-dependent bias equals clamping a window centred on the box centre, on both axes. `CropSize` always produces such a window. |
| `Geometry.BiasedCentreVisible` | image-hotspot.php:347-358 | A box centre inside the image stays inside a window of size >= 1 that is biased toward it. This still holds after the offset is truncated to an integer. |
| `Geometry.BoxFitsInWindow` | image-hotspot.php:342-358 | If the hotspot box lies in the image and is no larger than the window, the whole box is inside the window at its truncated integer offsets. |
| `Geometry.NoFullSideNoBias` | image-hotspot.php:346-354 | With at least two pixels of slack on both axes, neither axis is re-biased and the window stays centred, whatever the hotspots. `CropSize` never produces such a window. |
| `Geometry.OnePixelSlackBiases` | image-hotspot.php:342-349 | One pixel of horizontal slack still centres at offset 0, so the vertical axis is re-biased. A 9x5 window in a 10x10 image moves from y = 2 to y = 0 for a hotspot at (0,0). |
| `ImageHotspot.CropResult` | image-hotspot.php:280-359 | If `crop` is false or there are no hotspots, `$output` is returned unchanged. Otherwise the result is a tuple with `dst_x = dst_y = 0`, the resolved destination size and the `CropSize` window, and the window lies inside the original. |
| `ImageHotspot.CentreStaysVisible` | image-hotspot.php:342-358 | On both axes, the bounding-box centre lies inside the returned integer window whenever the centre is inside the image and the window is non-empty on that axis. |
| `ImageHotspot.BoxStaysVisible` | image-hotspot.php:342-358 | If the hotspots' bounding box lies in the image and is no larger than the returned window, the whole box is inside the returned integer window. |
| `ImageHotspot.UpstreamSourceIgnored` | image-hotspot.php:286-288 | Two upstream tuples with the same `dst_w`/`dst_h` give the same result. Their offsets and source size are ignored. |
| `ImageHotspot.HotspotBottomRight` | image-hotspot.php:280-359 | 1000x600 to 300x300 with a hotspot at (900,550) gives `(0,0,400,0,300,300,600,600)`. |
| `ImageHotspot.HotspotTopLeft` | image-hotspot.php:280-359 | The same image with a hotspot at (50,50) gives `(0,0,0,0,300,300,600,600)`. |
| `ImageHotspot.HeightFromAspectRatio` | image-hotspot.php:324-340 | With `null` and target 300x0 on 1000x600, the size is 300x180 and the window is the whole image. |
| `ImageHotspot.WPImageHotspot.constructor` | image-hotspot.php:27-32 | A new object has no attachment id and an empty hotspot list. |
| `ImageHotspot.WPImageHotspot.SetAttachmentId` | image-hotspot.php:370-380 | Returns the file unchanged and records the id. The hotspots are replaced only when the stored value is non-empty; otherwise the previous attachment's hotspots remain. |
| `ImageHotspot.WPImageHotspot.Crop` | image-hotspot.php:280-359 | The filter, with its loop and its sequential `src_x`/`src_y` updates, returns exactly `CropResult` of its arguments and the object's hotspots. |

## Behaviour worth knowing

- Hotspot coordinates are normalised with `absint`. A negative coordinate
  becomes its absolute value; it is not clamped to 0. Coordinates are not
  limited to the image either.
- The pass-through returns `$output` as it came, whatever it is. That
  includes `null`, and a non-array value such as `false`.
- The result is not clamped after it is computed. It does not need to be:
  `CropResult` proves the window is inside the original.
- Because `CropSize` always fills one side, the order-dependent bias never
  misses an axis that has slack (`SequentialBiasIsSymmetric`).
- `SetAttachmentId` keeps the previous hotspots when the new attachment has
  none stored. A later crop of that attachment is then biased by another
  image's hotspots.

## Left out

- The undefined cases of the filter are a precondition, `Geometry.Defined`.
  It applies only when the filter does not pass `$output` through. The cases
  are:
  - a zero original width or height;
  - an `$output` that is neither `null` nor an array, which leaves the size
    unset;
  - a resolved destination of 0x0, which divides by a zero size ratio.
- Floating point: exact rationals may differ from PHP doubles exactly at a
  rounding boundary.
- `AbsInt`: values whose integer part is outside the 64-bit range are not
  modelled specially, because PHP's conversion there depends on the platform.
- The structure of a hotspot entry: only its numeric `x` and `y` are
  modelled. Missing keys, non-numeric strings and extra keys are not.
- An upstream `$output` array is taken to have eight entries with
  non-negative sizes (`Params`).
- `get_post_meta` is replaced by the `stored` parameter of
  `SetAttachmentId`. An empty sequence stands for every empty metadata value.
  A non-array metadata value is not modelled.
- The static `$attachment_id` is a field of the object. The plugin uses a
  single instance (`instance()`), so this is equivalent.
- Hook registration (`instance`, `__construct`, `init`) and WordPress
  plumbing are not modelled: `admin_scripts`, `add_hotspot_info`,
  `ajax_save`, `ajax_delete`, `regenerate_thumbs` and `get_cropped_sizes`.
  They are request, option, metadata and file I/O. The key filter in
  `ajax_save` discards its result, so it validates nothing.
- js/image-hotspot.js is not part of this model. It is browser UI, and its
  one computation is floating-point scaling of DOM measurements.
