/**
 * The frame sampler of `extract_frames`: it walks the decoded frames of a
 * video with a counter, conditions every frame in Night mode, and keeps
 * a frame when its zero-based index is a multiple of the stride.
 * Decoding, `cv2.VideoCapture` and the stride's floating-point derivation
 * stay outside: the frames arrive as a sequence and the stride as a number.
 */
module FrameSampler {
  import opened Images
  import opened Wrappers

  /** The capture mode chosen before sampling. */
  datatype Mode = Day | Night

  /** The error `extract_frames` raises: `idx % skip_frames` with a zero stride. */
  datatype SampleError = ModuloByZero

  /** The brightness offset of Night mode (`beta` of `convertScaleAbs`). */
  const NightBrightness: int := 20

  /** OpenCV's `saturate_cast<uchar>` of an integer. */
  function Saturate(v: int): (p: Byte)
    ensures 0 <= v < 256 ==> p == v
    ensures v < 0 ==> p == 0
    ensures v >= 256 ==> p == 255
  {
    if v < 0 then 0 else if v > 255 then 255 else v
  }

  /**
   * `convertScaleAbs` with alpha 1 on one sample: saturate(|p + beta|).
   * A non-negative offset raises the sample by exactly `beta` unless that
   * would pass 255, where it saturates.
   */
  function ConvertScaleAbs(p: Byte, beta: int): (q: Byte)
    ensures beta >= 0 ==> p <= q <= p + beta
    ensures beta >= 0 ==> (q == p + beta <==> p + beta <= 255) && (q != p + beta ==> q == 255)
    ensures p + beta < 0 ==> q == Saturate(-(p + beta))
  {
    Saturate(if p + beta < 0 then -(p + beta) else p + beta)
  }

  /**
   * The Night brightness step on one sample is min(255, p + 20): it never
   * lowers a value and raises it by at most the offset.
   */
  lemma NightBrightnessStep(p: Byte)
    ensures ConvertScaleAbs(p, NightBrightness) == if p + 20 > 255 then 255 else p + 20
    ensures p <= ConvertScaleAbs(p, NightBrightness) <= p + 20
  {
  }

  function BrightenPixel(px: Pixel): Pixel {
    Pixel(ConvertScaleAbs(px.b, NightBrightness),
          ConvertScaleAbs(px.g, NightBrightness),
          ConvertScaleAbs(px.r, NightBrightness))
  }

  /** `cv2.convertScaleAbs(frame, alpha=1, beta=20)`, applied to every sample. */
  function Brighten(frame: Image): (out: Image)
    ensures SameShape(frame, out)
    ensures forall i, j :: 0 <= i < |frame| && 0 <= j < |frame[i]| ==>
      out[i][j] == BrightenPixel(frame[i][j])
  {
    seq(|frame|, i requires 0 <= i < |frame| =>
      seq(|frame[i]|, j requires 0 <= j < |frame[i]| => BrightenPixel(frame[i][j])))
  }

  /**
   * Brightening never darkens any channel of any pixel, so neither the
   * total nor the mean intensity of a frame goes down.
   */
  lemma BrightenNeverDarkens(frame: Image)
    ensures NoDarker(frame, Brighten(frame))
    ensures TotalIntensity(frame) <= TotalIntensity(Brighten(frame))
  {
    var out: Image := Brighten(frame);
    forall i, j | 0 <= i < |frame| && 0 <= j < |frame[i]|
      ensures frame[i][j].b <= out[i][j].b && frame[i][j].g <= out[i][j].g && frame[i][j].r <= out[i][j].r
    {
      NightBrightnessStep(frame[i][j].b);
      NightBrightnessStep(frame[i][j].g);
      NightBrightnessStep(frame[i][j].r);
    }
    TotalIntensityMonotone(frame, out);
  }

  /**
   * Night conditioning of one frame: the (opaque) 5x5 Gaussian blur is
   * applied to the brightened frame, which is nowhere darker than the frame.
   * Day mode leaves the frame as read.
   */
  function Condition(frame: Image, mode: Mode, blur: Image -> Image): (out: Image)
    ensures mode == Day ==> out == frame
    ensures mode == Night ==> out == blur(Brighten(frame)) && NoDarker(frame, Brighten(frame))
  {
    if mode == Night then
      BrightenNeverDarkens(frame);
      blur(Brighten(frame))
    else frame
  }

  /** Every frame read, as it stands when the retention test looks at it. */
  function Conditioned(video: seq<Image>, mode: Mode, blur: Image -> Image): (fs: seq<Image>)
    ensures |fs| == |video|
    ensures mode == Day ==> fs == video
    ensures forall i :: 0 <= i < |video| ==> fs[i] == Condition(video[i], mode, blur)
  {
    seq(|video|, i requires 0 <= i < |video| => Condition(video[i], mode, blur))
  }

  predicate StrictlyIncreasing(s: seq<nat>) {
    forall i, j :: 0 <= i < j < |s| ==> s[i] < s[j]
  }

  /**
   * The indices among the first `n` frames that the stride filter keeps:
   * exactly the multiples of the stride, in increasing order.
   */
  function KeptIndices(n: nat, stride: nat): (ks: seq<nat>)
    requires stride >= 1
    ensures forall i :: i in ks <==> 0 <= i < n && i % stride == 0
    ensures forall k :: 0 <= k < |ks| ==> ks[k] < n
    ensures StrictlyIncreasing(ks)
  {
    if n == 0 then []
    else KeptIndices(n - 1, stride) + (if (n - 1) % stride == 0 then [n - 1] else [])
  }

  /**
   * The frames the stride filter keeps, in source order: the k-th kept
   * frame is the frame at the k-th kept index.
   */
  function Sample<T>(frames: seq<T>, stride: nat): (kept: seq<T>)
    requires stride >= 1
    ensures |kept| == |KeptIndices(|frames|, stride)|
    ensures forall k :: 0 <= k < |kept| ==> kept[k] == frames[KeptIndices(|frames|, stride)[k]]
  {
    if frames == [] then []
    else
      var n := |frames| - 1;
      Sample(frames[..n], stride) + (if n % stride == 0 then [frames[n]] else [])
  }

  /** Euclidean division is determined by quotient and remainder. */
  lemma DivOfQuotientRemainder(a: int, s: int, q: int, r: int)
    requires s >= 1 && 0 <= r < s && a == q * s + r
    ensures a / s == q && a % s == r
  {
    var d := a / s - q;
    assert d * s == r - a % s by {
      assert a == (a / s) * s + a % s;
      assert (a / s) * s - q * s == d * s;
    }
    if d >= 1 {
      MulAtLeast(d, s);
    } else if d <= -1 {
      MulAtLeast(-d, s);
    }
  }

  lemma MulAtLeast(d: int, s: int)
    requires d >= 1 && s >= 1
    ensures d * s >= s
  {
    if d > 1 {
      MulAtLeast(d - 1, s);
      assert d * s == (d - 1) * s + s;
    }
  }

  /** ceil((n + 1) / s) grows over ceil(n / s) exactly when n is a multiple of s. */
  lemma CeilDivStep(n: nat, s: nat)
    requires s >= 1
    ensures (n + s) / s == (n + s - 1) / s + (if n % s == 0 then 1 else 0)
    ensures n % s == 0 ==> (n + s - 1) / s * s == n
  {
    var q, r := n / s, n % s;
    assert n == q * s + r;
    DivOfQuotientRemainder(n + s, s, q + 1, r);
    if r == 0 {
      DivOfQuotientRemainder(n + s - 1, s, q, s - 1);
    } else {
      DivOfQuotientRemainder(n + s - 1, s, q + 1, r - 1);
    }
  }

  /**
   * Closed form of the kept indices: with `n` frames read, ceil(n / stride)
   * frames are kept, and the k-th of them is frame k * stride.
   */
  lemma {:induction false} KeptIndicesClosedForm(n: nat, stride: nat)
    requires stride >= 1
    ensures |KeptIndices(n, stride)| == (n + stride - 1) / stride
    ensures forall k :: 0 <= k < |KeptIndices(n, stride)| ==> KeptIndices(n, stride)[k] == k * stride
  {
    if n == 0 {
      DivOfQuotientRemainder(stride - 1, stride, 0, stride - 1);
    } else {
      KeptIndicesClosedForm(n - 1, stride);
      CeilDivStep(n - 1, stride);
    }
  }

  /**
   * The number of frames kept out of `|frames|` is ceil(|frames| / stride);
   * an empty video yields an empty list, and otherwise frame 0 is kept first.
   */
  lemma SampleCount<T>(frames: seq<T>, stride: nat)
    requires stride >= 1
    ensures |Sample(frames, stride)| == (|frames| + stride - 1) / stride
    ensures frames == [] ==> Sample(frames, stride) == []
    ensures frames != [] ==> |Sample(frames, stride)| >= 1 && Sample(frames, stride)[0] == frames[0]
  {
    KeptIndicesClosedForm(|frames|, stride);
    if frames != [] {
      assert 0 in KeptIndices(|frames|, stride);
    }
  }

  /**
   * Conditioning every read frame and then filtering gives the same list
   * as filtering first and conditioning only the kept frames.
   */
  lemma ConditionCommutesWithSample(video: seq<Image>, stride: nat, mode: Mode, blur: Image -> Image)
    requires stride >= 1
    ensures Sample(Conditioned(video, mode, blur), stride)
         == Conditioned(Sample(video, stride), mode, blur)
  {
    var lhs := Sample(Conditioned(video, mode, blur), stride);
    var rhs := Conditioned(Sample(video, stride), mode, blur);
    assert |lhs| == |rhs|;
    forall k | 0 <= k < |lhs| ensures lhs[k] == rhs[k] {
      var ks := KeptIndices(|video|, stride);
      assert ks[k] in ks;
    }
  }

  /**
   * 300 frames at 30 fps sampled at one frame per second (stride 30) keep
   * exactly ten frames: 0, 30, ..., 270.
   */
  lemma TenSecondsAtThirtyFps<T>(frames: seq<T>)
    requires |frames| == 300
    ensures |Sample(frames, 30)| == 10
    ensures forall k :: 0 <= k < 10 ==> Sample(frames, 30)[k] == frames[30 * k]
  {
    KeptIndicesClosedForm(300, 30);
  }

  /** Reading one more frame appends it to the sample exactly when its index is a multiple of the stride. */
  lemma SampleExtend<T>(frames: seq<T>, idx: nat, stride: nat)
    requires stride >= 1 && idx < |frames|
    ensures Sample(frames[..idx + 1], stride)
         == Sample(frames[..idx], stride) + (if idx % stride == 0 then [frames[idx]] else [])
  {
    assert frames[..idx + 1][..idx] == frames[..idx];
  }

  /**
   * `extract_frames` over already-decoded frames. The stride is
   * `int(fps / rate)` and is not clamped: a zero stride fails at the first
   * frame read, while a video with no frames returns the empty list before
   * the modulo is ever evaluated.
   */
  method ExtractFrames(video: seq<Image>, stride: nat, mode: Mode, blur: Image -> Image)
    returns (r: Result<seq<Image>, SampleError>)
    ensures stride == 0 ==> r == if video == [] then Ok([]) else Err(ModuloByZero)
    ensures stride >= 1 ==> r == Ok(Sample(Conditioned(video, mode, blur), stride))
  {
    ghost var all := Conditioned(video, mode, blur);
    var colorFrames: seq<Image> := [];
    var idx := 0;
    while idx < |video|
      invariant 0 <= idx <= |video|
      invariant stride == 0 ==> idx == 0 && colorFrames == []
      invariant stride >= 1 ==> colorFrames == Sample(all[..idx], stride)
    {
      var frame := video[idx];
      if mode == Night {
        frame := blur(Brighten(frame));
      }
      if stride == 0 {
        return Err(ModuloByZero);
      }
      assert frame == all[idx];
      if idx % stride == 0 {
        colorFrames := colorFrames + [frame];
      }
      SampleExtend(all, idx, stride);
      idx := idx + 1;
    }
    assert all[..idx] == all;
    r := Ok(colorFrames);
  }

  /**
   * `int(fps / float(rate))` for the non-negative frame rate the capture
   * reports and the positive sampling rate (real arithmetic stands in for
   * floating point; `int` truncates, which is the floor here).
   */
  function StrideOf(fps: real, rate: real): (s: nat)
    requires fps >= 0.0 && rate > 0.0
    ensures s as real <= fps / rate < s as real + 1.0
  {
    (fps / rate).Floor
  }

  /**
   * A 2 fps video sampled at 3 frames per second: the stride is 0 and the
   * first frame read makes `extract_frames` fail.
   */
  method LowFrameRateFails(frame: Image, mode: Mode, blur: Image -> Image)
    returns (r: Result<seq<Image>, SampleError>)
    ensures r == Err(ModuloByZero)
  {
    var stride := StrideOf(2.0, 3.0);
    r := ExtractFrames([frame], stride, mode, blur);
  }

  /** The stride clamped to at least 1, so the modulo never divides by zero. */
  function ClampedStride(fps: real, rate: real): (s: nat)
    requires fps >= 0.0 && rate > 0.0
    ensures s >= 1
    ensures StrideOf(fps, rate) >= 1 ==> s == StrideOf(fps, rate)
  {
    var s := StrideOf(fps, rate);
    if s == 0 then 1 else s
  }

  /**
   * `extract_frames` with the clamped stride: it never fails, keeps
   * ceil(n / stride) of the n frames read, and keeps frame 0 of a
   * non-empty video.
   */
  method ExtractFramesClamped(video: seq<Image>, fps: real, rate: real, mode: Mode, blur: Image -> Image)
    returns (frames: seq<Image>)
    requires fps >= 0.0 && rate > 0.0
    ensures frames == Sample(Conditioned(video, mode, blur), ClampedStride(fps, rate))
    ensures |frames| == (|video| + ClampedStride(fps, rate) - 1) / ClampedStride(fps, rate)
    ensures video != [] ==> frames != [] && frames[0] == Condition(video[0], mode, blur)
  {
    var stride := ClampedStride(fps, rate);
    var r := ExtractFrames(video, stride, mode, blur);
    frames := r.value;
    SampleCount(Conditioned(video, mode, blur), stride);
  }
}
