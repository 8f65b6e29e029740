/**
 * The discrete parts of `crop_black_borders` and `inpaint_black_edges`:
 * the two fixed-threshold masks, the choice of the largest candidate
 * region, the crop by row and column slicing, and the fallback when no
 * region is found. Gray conversion, histogram equalisation, contour
 * finding (with each contour's area and bounding rectangle) and TELEA
 * inpainting are OpenCV algorithms; they enter as function parameters.
 */
module BorderRecovery {
  import opened Images

  /** OpenCV's `THRESH_BINARY` and `THRESH_BINARY_INV`. */
  datatype ThresholdKind = Binary | BinaryInv

  /** `cv2.threshold` on one sample: above `thresh` maps to `maxval` (Binary) or 0 (BinaryInv). */
  function ThresholdSample(v: Byte, thresh: Byte, maxval: Byte, kind: ThresholdKind): Byte {
    match kind
    case Binary => if v > thresh then maxval else 0
    case BinaryInv => if v > thresh then 0 else maxval
  }

  /** `cv2.threshold` applied to every sample of a single-channel image. */
  function Threshold(g: Gray, thresh: Byte, maxval: Byte, kind: ThresholdKind): (m: Gray)
    ensures SameShape(g, m)
    ensures forall i, j :: 0 <= i < |g| && 0 <= j < |g[i]| ==>
      m[i][j] == ThresholdSample(g[i][j], thresh, maxval, kind)
  {
    seq(|g|, i requires 0 <= i < |g| =>
      seq(|g[i]|, j requires 0 <= j < |g[i]| => ThresholdSample(g[i][j], thresh, maxval, kind)))
  }

  /** The mask of `crop_black_borders`: threshold 0, maxval 255, `THRESH_BINARY`. */
  function ContentMask(g: Gray): (m: Gray)
    ensures SameShape(g, m)
    ensures forall i, j :: 0 <= i < |g| && 0 <= j < |g[i]| ==>
      (m[i][j] == 255 <==> g[i][j] > 0) && (m[i][j] == 0 <==> g[i][j] == 0)
  {
    Threshold(g, 0, 255, Binary)
  }

  /** The mask of `inpaint_black_edges`: threshold 0, maxval 255, `THRESH_BINARY_INV`. */
  function BlackMask(g: Gray): (m: Gray)
    ensures SameShape(g, m)
    ensures forall i, j :: 0 <= i < |g| && 0 <= j < |g[i]| ==>
      (m[i][j] == 255 <==> g[i][j] == 0) && (m[i][j] == 0 <==> g[i][j] > 0)
  {
    Threshold(g, 0, 255, BinaryInv)
  }

  /**
   * On one intensity grid the two masks are exact complements: every sample
   * is 255 in exactly one of them and 0 in the other.
   */
  lemma MasksAreComplements(g: Gray)
    ensures SameShape(ContentMask(g), BlackMask(g))
    ensures forall i, j :: 0 <= i < |g| && 0 <= j < |g[i]| ==>
      ContentMask(g)[i][j] + BlackMask(g)[i][j] == 255 &&
      (ContentMask(g)[i][j] == 255 <==> BlackMask(g)[i][j] == 0)
  {
  }

  /** An axis-aligned rectangle as `cv2.boundingRect` returns it: (x, y, w, h). */
  datatype Rect = Rect(x: nat, y: nat, w: nat, h: nat)

  /** A candidate region: its contour area and its bounding rectangle. */
  datatype Region = Region(area: real, bounds: Rect)

  /**
   * `max(contours, key=cv2.contourArea)`: the index of the region with the
   * largest area; on a tie the earliest one, since `max` replaces its
   * current choice only on a strictly larger key.
   */
  function LargestIndex(rs: seq<Region>): (k: nat)
    requires rs != []
    ensures k < |rs|
    ensures forall j :: 0 <= j < |rs| ==> rs[j].area <= rs[k].area
    ensures forall j :: 0 <= j < k ==> rs[j].area < rs[k].area
  {
    if |rs| == 1 then 0
    else
      var k := LargestIndex(rs[..|rs| - 1]);
      if rs[|rs| - 1].area > rs[k].area then |rs| - 1 else k
  }

  function Min(a: nat, b: nat): nat {
    if a <= b then a else b
  }

  /**
   * Python's slice `s[lo:hi]` for non-negative bounds: both bounds are
   * clamped to the length, and a reversed range is empty.
   */
  function Slice<T>(s: seq<T>, lo: nat, hi: nat): (t: seq<T>)
    ensures |t| <= |s|
    ensures |t| == if Min(lo, |s|) <= Min(hi, |s|) then Min(hi, |s|) - Min(lo, |s|) else 0
    ensures forall k :: 0 <= k < |t| ==> lo + k < |s| && t[k] == s[lo + k]
  {
    var a, b := Min(lo, |s|), Min(hi, |s|);
    if a <= b then s[a..b] else []
  }

  /**
   * `image[y:y+h, x:x+w]`: the rows y..y+h-1, each cut to the columns
   * x..x+w-1, both clamped to the image. Every element of the crop is the
   * input's element at the same position shifted by (y, x).
   */
  function Crop<T>(img: seq<seq<T>>, r: Rect): (c: seq<seq<T>>)
    ensures |c| <= |img|
    ensures forall i :: 0 <= i < |c| ==> r.y + i < |img| && |c[i]| <= |img[r.y + i]|
    ensures forall i, j :: 0 <= i < |c| && 0 <= j < |c[i]| ==>
      r.x + j < |img[r.y + i]| && c[i][j] == img[r.y + i][r.x + j]
  {
    var rows := Slice(img, r.y, r.y + r.h);
    seq(|rows|, i requires 0 <= i < |rows| => Slice(rows[i], r.x, r.x + r.w))
  }

  /**
   * Cropping an H x W image to a rectangle inside it gives exactly the
   * h x w block of the input that starts at row y, column x.
   */
  lemma CropInBounds<T>(img: seq<seq<T>>, hgt: nat, wid: nat, r: Rect)
    requires IsRect(img, hgt, wid)
    requires r.x + r.w <= wid && r.y + r.h <= hgt
    ensures IsRect(Crop(img, r), r.h, r.w)
    ensures forall i, j :: 0 <= i < r.h && 0 <= j < r.w ==> Crop(img, r)[i][j] == img[r.y + i][r.x + j]
  {
  }

  /**
   * Whatever the rectangle, the crop of an H x W image is a rectangle no
   * taller than H and no wider than W.
   */
  lemma CropNeverGrows<T>(img: seq<seq<T>>, hgt: nat, wid: nat, r: Rect)
    requires IsRect(img, hgt, wid)
    ensures |Crop(img, r)| <= hgt
    ensures forall i :: 0 <= i < |Crop(img, r)| ==> |Crop(img, r)[i]| <= wid
    ensures forall i, j :: 0 <= i < |Crop(img, r)| && 0 <= j < |Crop(img, r)| ==>
      |Crop(img, r)[i]| == |Crop(img, r)[j]|
  {
  }

  /**
   * `crop_black_borders`. The candidate regions are the contours found in
   * the binary mask of the equalised gray image. With no region the image
   * comes back unchanged; otherwise the result is the crop to the bounding
   * rectangle of a region whose area is at least that of every candidate.
   */
  function CropBlackBorders(img: Image, cvtGray: Image -> Gray, equalizeHist: Gray -> Gray,
                            findContours: Gray -> seq<Region>): (out: Image)
    ensures var rs := findContours(ContentMask(equalizeHist(cvtGray(img))));
      (rs == [] ==> out == img) &&
      (rs != [] ==>
         exists k :: 0 <= k < |rs| && out == Crop(img, rs[k].bounds) &&
           forall j :: 0 <= j < |rs| ==> rs[j].area <= rs[k].area)
  {
    var regions := findContours(ContentMask(equalizeHist(cvtGray(img))));
    if regions == [] then img else Crop(img, regions[LargestIndex(regions)].bounds)
  }

  /**
   * When the chosen rectangle lies inside the H x W image, the result of
   * `crop_black_borders` is exactly its h x w block.
   */
  lemma CropBlackBordersInBounds(img: Image, hgt: nat, wid: nat, cvtGray: Image -> Gray,
                                 equalizeHist: Gray -> Gray, findContours: Gray -> seq<Region>,
                                 regions: seq<Region>, b: Rect)
    requires IsRect(img, hgt, wid)
    requires regions == findContours(ContentMask(equalizeHist(cvtGray(img)))) && regions != []
    requires b == regions[LargestIndex(regions)].bounds
    requires b.x + b.w <= wid && b.y + b.h <= hgt
    ensures IsRect(CropBlackBorders(img, cvtGray, equalizeHist, findContours), b.h, b.w)
    ensures forall i, j :: 0 <= i < b.h && 0 <= j < b.w ==>
      CropBlackBorders(img, cvtGray, equalizeHist, findContours)[i][j] == img[b.y + i][b.x + j]
  {
    assert CropBlackBorders(img, cvtGray, equalizeHist, findContours) == Crop(img, b);
    CropInBounds(img, hgt, wid, b);
  }

  /** `crop_black_borders` never makes an H x W image taller or wider. */
  lemma CropBlackBordersShrinks(img: Image, hgt: nat, wid: nat, cvtGray: Image -> Gray,
                                equalizeHist: Gray -> Gray, findContours: Gray -> seq<Region>)
    requires IsRect(img, hgt, wid)
    ensures var out := CropBlackBorders(img, cvtGray, equalizeHist, findContours);
      |out| <= hgt && forall i :: 0 <= i < |out| ==> |out[i]| <= wid
  {
    var rs := findContours(ContentMask(equalizeHist(cvtGray(img))));
    if rs != [] {
      CropNeverGrows(img, hgt, wid, rs[LargestIndex(rs)].bounds);
    }
  }

  /** The inpainting radius `inpaint_black_edges` passes to `cv2.inpaint`. */
  const InpaintRadius: nat := 3

  /**
   * `inpaint_black_edges`: the inpainter (TELEA, radius 3) receives the
   * image and a mask of its shape that marks exactly the pixels whose gray
   * intensity is 0.
   */
  function InpaintBlackEdges(img: Image, cvtGray: Image -> Gray,
                             inpaintTelea: (Image, Gray, nat) -> Image): (out: Image)
    ensures exists mask ::
      out == inpaintTelea(img, mask, InpaintRadius) && SameShape(cvtGray(img), mask) &&
      (forall i, j :: 0 <= i < |mask| && 0 <= j < |mask[i]| ==>
         (mask[i][j] == 255 <==> cvtGray(img)[i][j] == 0) && (mask[i][j] == 0 <==> cvtGray(img)[i][j] > 0))
  {
    inpaintTelea(img, BlackMask(cvtGray(img)), InpaintRadius)
  }
}
