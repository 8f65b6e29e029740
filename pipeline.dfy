/**
 * `create_panorama`: stitch the sampled frames, and only when the stitcher
 * reports success, crop the black borders, inpaint the remaining black
 * pixels and enhance the result. The OpenCV stitcher and the PIL enhancers
 * are library algorithms; a `Toolkit` value carries them, together with the
 * OpenCV routines border recovery needs.
 */
module Pipeline {
  import opened Images
  import opened Wrappers
  import opened BorderRecovery

  /** `cv2.Stitcher_OK`. */
  const StitcherOk: int := 0

  /** What `stitcher.stitch` returns: a status code and the stitched image. */
  datatype StitchReply = StitchReply(status: int, pano: Image)

  /** The three PIL enhancers `enhance_image_with_pil` applies. */
  datatype Enhancer = Color | Contrast | Sharpness

  /** The library routines the pipeline calls but does not define. */
  datatype Toolkit = Toolkit(
    stitch: seq<Image> -> StitchReply,
    cvtGray: Image -> Gray,
    equalizeHist: Gray -> Gray,
    findContours: Gray -> seq<Region>,
    inpaintTelea: (Image, Gray, nat) -> Image,
    enhance: (Enhancer, real, Image) -> Image)

  /** `cv2.cvtColor` between BGR and RGB order: the first and third channels trade places. */
  function SwapRedBlue(img: Image): (out: Image)
    ensures SameShape(img, out)
    ensures forall i, j :: 0 <= i < |img| && 0 <= j < |img[i]| ==>
      out[i][j].b == img[i][j].r && out[i][j].g == img[i][j].g && out[i][j].r == img[i][j].b
  {
    seq(|img|, i requires 0 <= i < |img| =>
      seq(|img[i]|, j requires 0 <= j < |img[i]| =>
        Pixel(img[i][j].r, img[i][j].g, img[i][j].b)))
  }

  /** Converting to RGB and back restores the image. */
  lemma SwapRedBlueRoundTrip(img: Image)
    ensures SwapRedBlue(SwapRedBlue(img)) == img
  {
    var twice := SwapRedBlue(SwapRedBlue(img));
    assert |twice| == |img|;
    forall i | 0 <= i < |img| ensures twice[i] == img[i] {
      assert |twice[i]| == |img[i]|;
      forall j | 0 <= j < |img[i]| ensures twice[i][j] == img[i][j] {
      }
    }
  }

  /** `enhance_image_with_pil`: saturation x1.3, then contrast x1.1, then sharpness x1.5. */
  function EnhanceWithPil(enhance: (Enhancer, real, Image) -> Image, img: Image): Image {
    enhance(Sharpness, 1.5, enhance(Contrast, 1.1, enhance(Color, 1.3, img)))
  }

  /**
   * The chain is fixed: two enhancers that agree on saturation x1.3,
   * contrast x1.1 and sharpness x1.5 give the same result, whatever they
   * do with any other kind or factor.
   */
  lemma EnhanceUsesFixedFactors(e1: (Enhancer, real, Image) -> Image,
                                e2: (Enhancer, real, Image) -> Image, img: Image)
    requires forall x :: e1(Color, 1.3, x) == e2(Color, 1.3, x)
    requires forall x :: e1(Contrast, 1.1, x) == e2(Contrast, 1.1, x)
    requires forall x :: e1(Sharpness, 1.5, x) == e2(Sharpness, 1.5, x)
    ensures EnhanceWithPil(e1, img) == EnhanceWithPil(e2, img)
  {
    var a := e1(Color, 1.3, img);
    var b := e1(Contrast, 1.1, a);
    assert a == e2(Color, 1.3, img);
    assert b == e2(Contrast, 1.1, a);
  }

  /**
   * `create_panorama`: a stitcher status other than OK yields no image;
   * only a successful stitch goes on to border recovery and enhancement.
   */
  function CreatePanorama(tk: Toolkit, frames: seq<Image>): (pano: Option<Image>)
    ensures pano.None? <==> tk.stitch(frames).status != StitcherOk
  {
    var reply := tk.stitch(frames);
    if reply.status != StitcherOk then None
    else
      var cropped := CropBlackBorders(reply.pano, tk.cvtGray, tk.equalizeHist, tk.findContours);
      var inpainted := InpaintBlackEdges(cropped, tk.cvtGray, tk.inpaintTelea);
      Some(SwapRedBlue(EnhanceWithPil(tk.enhance, SwapRedBlue(inpainted))))
  }

  /**
   * On a failed stitch the outcome is no image and depends on the stitcher
   * alone: with any other gray conversion, equalisation, contour finding,
   * inpainting or enhancement the result is the same, so none of those
   * stages contributes to it.
   */
  lemma FailureIgnoresLaterStages(tk1: Toolkit, tk2: Toolkit, frames: seq<Image>)
    requires tk1.stitch == tk2.stitch
    requires tk1.stitch(frames).status != StitcherOk
    ensures CreatePanorama(tk1, frames) == CreatePanorama(tk2, frames) == None
  {
  }

  /**
   * On a successful stitch the panorama is the stitched image cropped,
   * then inpainted, then enhanced: the enhancers see the inpainted crop,
   * converted to RGB, and the result is converted back to BGR.
   */
  lemma SuccessComposesStages(tk: Toolkit, frames: seq<Image>)
    requires tk.stitch(frames).status == StitcherOk
    ensures var inpainted := InpaintBlackEdges(
        CropBlackBorders(tk.stitch(frames).pano, tk.cvtGray, tk.equalizeHist, tk.findContours),
        tk.cvtGray, tk.inpaintTelea);
      SwapRedBlue(CreatePanorama(tk, frames).value)
        == EnhanceWithPil(tk.enhance, SwapRedBlue(inpainted))
  {
    var inpainted := InpaintBlackEdges(
      CropBlackBorders(tk.stitch(frames).pano, tk.cvtGray, tk.equalizeHist, tk.findContours),
      tk.cvtGray, tk.inpaintTelea);
    SwapRedBlueRoundTrip(EnhanceWithPil(tk.enhance, SwapRedBlue(inpainted)));
  }
}
