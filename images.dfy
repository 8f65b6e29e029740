/**
 * The pixel buffers the pipeline passes around: 8-bit colour images in BGR
 * channel order (OpenCV's layout) and 8-bit single-channel intensity grids.
 * A buffer is a sequence of rows; rows of one buffer have the same width.
 */
module Images {

  /** An unsigned 8-bit sample, the element type of every buffer. */
  type Byte = x: int | 0 <= x < 256

  /** One colour pixel, channels in OpenCV's B, G, R order. */
  datatype Pixel = Pixel(b: Byte, g: Byte, r: Byte)

  /** A colour image (a video frame or a panorama): rows of pixels. */
  type Image = seq<seq<Pixel>>

  /** A single-channel 8-bit image (intensity, or a binary mask). */
  type Gray = seq<seq<Byte>>

  /** `img` is a rectangle of `h` rows, each `w` elements wide. */
  ghost predicate IsRect<T>(img: seq<seq<T>>, h: nat, w: nat) {
    |img| == h && forall i :: 0 <= i < |img| ==> |img[i]| == w
  }

  /** `a` and `b` have the same number of rows and each pair of rows the same width. */
  ghost predicate SameShape<T, U>(a: seq<seq<T>>, b: seq<seq<U>>) {
    |a| == |b| && forall i :: 0 <= i < |a| ==> |a[i]| == |b[i]|
  }

  /** Every channel of every pixel of `a` is at most the matching channel of `b`. */
  ghost predicate NoDarker(a: Image, b: Image) {
    SameShape(a, b) &&
    forall i, j :: 0 <= i < |a| && 0 <= j < |a[i]| ==>
      a[i][j].b <= b[i][j].b && a[i][j].g <= b[i][j].g && a[i][j].r <= b[i][j].r
  }

  /** Sum of the three channels of a pixel. */
  function PixelSum(p: Pixel): nat {
    p.b + p.g + p.r
  }

  /** Sum of all channel values of a row. */
  function RowSum(row: seq<Pixel>): nat {
    if row == [] then 0 else RowSum(row[..|row| - 1]) + PixelSum(row[|row| - 1])
  }

  /**
   * Sum of all channel values of an image; the mean intensity is this sum
   * divided by the number of samples, which depends only on the shape.
   */
  function TotalIntensity(img: Image): nat {
    if img == [] then 0 else TotalIntensity(img[..|img| - 1]) + RowSum(img[|img| - 1])
  }

  lemma {:induction false} RowSumMonotone(a: seq<Pixel>, b: seq<Pixel>)
    requires |a| == |b|
    requires forall j :: 0 <= j < |a| ==> PixelSum(a[j]) <= PixelSum(b[j])
    ensures RowSum(a) <= RowSum(b)
  {
    if a != [] {
      RowSumMonotone(a[..|a| - 1], b[..|b| - 1]);
    }
  }

  /** A pointwise brighter image has at least the total (hence mean) intensity. */
  lemma {:induction false} TotalIntensityMonotone(a: Image, b: Image)
    requires NoDarker(a, b)
    ensures TotalIntensity(a) <= TotalIntensity(b)
  {
    if a != [] {
      var n := |a| - 1;
      TotalIntensityMonotone(a[..n], b[..n]);
      RowSumMonotone(a[n], b[n]);
    }
  }
}
