/**
 * The lung-segmentation unit: the preprocessing applied before inference,
 * the post-processing of the network's per-pixel probabilities into a
 * displayable mask, and the overlay that paints the mask onto the X-ray.
 * The network is a parameter; only its output range is assumed.
 */
module Segmentation {
  import opened Images
  import opened Outcomes

  /** Weight of the original image in the overlay blend. */
  const ImageWeight: real := 0.6
  /** Weight of the painted mask in the overlay blend. */
  const MaskWeight: real := 0.4
  /** Default highlight colour of the overlay, in B, G, R order (magenta). */
  const Highlight: Pixel := Pixel(255, 20, 255)

  /** A batch of single-channel real-valued images: batch, rows, columns. */
  type Tensor = seq<seq<seq<real>>>

  /** Every entry of the grid is a probability. */
  predicate Probabilities(probs: seq<seq<real>>) {
    forall i, j :: 0 <= i < |probs| && 0 <= j < |probs[i]| ==> 0.0 <= probs[i][j] <= 1.0
  }

  // ---------------------------------------------------------------------------
  // Preprocessing
  // ---------------------------------------------------------------------------

  /**
   * Divide every 8-bit intensity by 255 and add a leading batch axis of
   * length one. Every value lands in [0, 1] and multiplying back by 255
   * recovers the original byte, so no intensity is lost.
   */
  function Normalize(g: seq<seq<byte>>): (t: Tensor)
    ensures |t| == 1 && SameShape(t[0], g)
    ensures forall i, j :: 0 <= i < |g| && 0 <= j < |g[i]| ==>
      0.0 <= t[0][i][j] <= 1.0 && t[0][i][j] * 255.0 == g[i][j] as real
  {
    [seq(|g|, i requires 0 <= i < |g| =>
      seq(|g[i]|, j requires 0 <= j < |g[i]| => g[i][j] as real / 255.0))]
  }

  /**
   * The network input built from an (already resized) image: grayscale,
   * normalise, batch. Shape (1, rows, columns), values in [0, 1]. OpenCV
   * raises on an image without pixels.
   */
  function Preprocess(img: Image, gray: Pixel -> byte): (r: Result<Tensor, ImageError>)
    ensures r.Success? <==> HasPixels(img)
    ensures r.Failure? ==> r.error == EmptyImage
    ensures r.Success? ==> |r.value| == 1 && SameShape(r.value[0], img)
    ensures r.Success? ==> forall i, j :: 0 <= i < |img| && 0 <= j < |img[i]| ==>
      0.0 <= r.value[0][i][j] <= 1.0 && r.value[0][i][j] * 255.0 == gray(img[i][j]) as real
  {
    if HasPixels(img) then Success(Normalize(ToGray(img, gray))) else Failure(EmptyImage)
  }

  /** The network's squeezed output on the preprocessed image. */
  function Infer(img: Image, net: Tensor -> seq<seq<real>>, gray: Pixel -> byte): seq<seq<real>>
    requires HasPixels(img)
  {
    net(Preprocess(img, gray).value)
  }

  // ---------------------------------------------------------------------------
  // Post-processing
  // ---------------------------------------------------------------------------

  /**
   * Scale a probability to 0..255 and cast to `uint8`; the cast truncates,
   * so the byte is the greatest integer not above `255 * p`.
   */
  function ToByte(p: real): (v: byte)
    requires 0.0 <= p <= 1.0
    ensures v as real <= p * 255.0 < v as real + 1.0
  {
    (p * 255.0).Floor
  }

  /**
   * Turn the squeezed network output into an 8-bit, three-channel mask:
   * each probability becomes one byte replicated on all three channels.
   * The grey-to-colour conversion raises on an output without pixels.
   */
  function PostProcess(probs: seq<seq<real>>): (r: Result<Image, ImageError>)
    requires Probabilities(probs)
    ensures r.Success? <==> HasPixels(probs)
    ensures r.Failure? ==> r.error == EmptyImage
    ensures r.Success? ==> SameShape(r.value, probs)
    ensures r.Success? ==> forall i, j :: 0 <= i < |probs| && 0 <= j < |probs[i]| ==>
      r.value[i][j] == Grey(r.value[i][j].c0) &&
      r.value[i][j].c0 as real <= probs[i][j] * 255.0 < r.value[i][j].c0 as real + 1.0
  {
    if !HasPixels(probs) then Failure(EmptyImage)
    else
      Success(seq(|probs|, i requires 0 <= i < |probs| =>
        seq(|probs[i]|, j requires 0 <= j < |probs[i]| => Grey(ToByte(probs[i][j])))))
  }

  /**
   * Segmentation `predict`: preprocess, run the network, post-process its
   * output. It fails when the image or the network's output has no pixels.
   */
  function Predict(img: Image, net: Tensor -> seq<seq<real>>, gray: Pixel -> byte): (r: Result<Image, ImageError>)
    requires HasPixels(img) ==> Probabilities(Infer(img, net, gray))
    ensures r.Success? <==> HasPixels(img) && HasPixels(Infer(img, net, gray))
    ensures r.Failure? ==> r.error == EmptyImage
    ensures r.Success? ==> SameShape(r.value, Infer(img, net, gray))
    ensures r.Success? ==> forall i, j :: 0 <= i < |r.value| && 0 <= j < |r.value[i]| ==>
      r.value[i][j] == Grey(r.value[i][j].c0) &&
      r.value[i][j].c0 as real <= Infer(img, net, gray)[i][j] * 255.0 < r.value[i][j].c0 as real + 1.0
  {
    var t :- Preprocess(img, gray);
    PostProcess(net(t))
  }

  // ---------------------------------------------------------------------------
  // Overlay
  // ---------------------------------------------------------------------------

  /**
   * Masked bitwise AND of the mask with itself: every pixel either keeps its
   * value or turns black, and it stays non-black exactly when it was
   * non-black and its grayscale value is non-zero.
   */
  function Suppress(mask: Image, gray: Pixel -> byte): (kept: Image)
    ensures SameShape(kept, mask)
    ensures forall i, j :: 0 <= i < |mask| && 0 <= j < |mask[i]| ==>
      (kept[i][j] == mask[i][j] || kept[i][j] == Black) &&
      (kept[i][j] != Black <==> gray(mask[i][j]) != 0 && mask[i][j] != Black)
  {
    seq(|mask|, i requires 0 <= i < |mask| =>
      seq(|mask[i]|, j requires 0 <= j < |mask[i]| =>
        if gray(mask[i][j]) != 0 then mask[i][j] else Black))
  }

  /** Every pixel of the grid is grey, as the masks `Predict` returns are. */
  predicate AllGrey(m: Image) {
    forall i, j :: 0 <= i < |m| && 0 <= j < |m[i]| ==> m[i][j] == Grey(m[i][j].c0)
  }

  /** On a grey mask, with a conversion that keeps grey pixels, suppression changes nothing. */
  lemma SuppressKeepsGreyMasks(mask: Image, gray: Pixel -> byte)
    requires KeepsGrey(gray) && AllGrey(mask)
    ensures Suppress(mask, gray) == mask
  {
    var kept := Suppress(mask, gray);
    forall i, j | 0 <= i < |mask| && 0 <= j < |mask[i]|
      ensures kept[i][j] == mask[i][j]
    {
      assert gray(Grey(mask[i][j].c0)) == mask[i][j].c0;
    }
    GridsEqual(kept, mask);
  }

  /** When black converts to 0, suppressing twice is the same as suppressing once. */
  lemma SuppressIdempotent(mask: Image, gray: Pixel -> byte)
    requires gray(Black) == 0
    ensures Suppress(Suppress(mask, gray), gray) == Suppress(mask, gray)
  {
    var once := Suppress(mask, gray);
    var twice := Suppress(once, gray);
    forall i, j | 0 <= i < |once| && 0 <= j < |once[i]|
      ensures twice[i][j] == once[i][j]
    {
      if once[i][j] != Black {
        assert once[i][j] == mask[i][j];
      }
    }
    GridsEqual(twice, once);
  }

  /**
   * The (row, column) pairs `np.where` over a channel-wise non-zero test yields for one
   * pixel: one pair for every non-zero channel, so up to three repeats.
   */
  function ChannelHits(p: Pixel, i: int, j: int): seq<(int, int)> {
    (if p.c0 != 0 then [(i, j)] else []) +
    (if p.c1 != 0 then [(i, j)] else []) +
    (if p.c2 != 0 then [(i, j)] else [])
  }

  /** The pairs `np.where` yields for row `i` from column `j` on. */
  function RowHits(row: seq<Pixel>, i: int, j: nat): seq<(int, int)>
    decreases |row| - j
  {
    if j >= |row| then [] else ChannelHits(row[j], i, j) + RowHits(row, i, j + 1)
  }

  /** The pairs `np.where` yields for the rows from `i` on, in row-major order. */
  function GridHits(m: Image, i: nat): seq<(int, int)>
    decreases |m| - i
  {
    if i >= |m| then [] else RowHits(m[i], i, 0) + GridHits(m, i + 1)
  }

  /** Every pair names a position inside the grid. */
  predicate InBounds(m: Image, cs: seq<(int, int)>) {
    forall k :: 0 <= k < |cs| ==> 0 <= cs[k].0 < |m| && 0 <= cs[k].1 < |m[cs[k].0]|
  }

  lemma {:induction false} ChannelHitsExact(p: Pixel, i: int, j: int)
    ensures forall a, b :: (a, b) in ChannelHits(p, i, j) <==> a == i && b == j && p != Black
  {
  }

  lemma {:induction false} RowHitsExact(row: seq<Pixel>, i: int, j: nat)
    ensures forall a, b :: (a, b) in RowHits(row, i, j) <==> a == i && j <= b < |row| && row[b] != Black
    decreases |row| - j
  {
    if j < |row| {
      ChannelHitsExact(row[j], i, j);
      RowHitsExact(row, i, j + 1);
    }
  }

  /** `np.where` over the channels names exactly the non-black pixels from row `i` on. */
  lemma {:induction false} GridHitsExact(m: Image, i: nat)
    ensures forall a, b :: (a, b) in GridHits(m, i) <==>
      i <= a < |m| && 0 <= b < |m[a]| && m[a][b] != Black
    decreases |m| - i
  {
    if i < |m| {
      RowHitsExact(m[i], i, 0);
      GridHitsExact(m, i + 1);
    }
  }

  /** The coordinates of the non-black pixels as `np.where` lists them. */
  function NonBlackCoords(m: Image): (cs: seq<(int, int)>)
    ensures InBounds(m, cs)
    ensures forall a, b :: (a, b) in cs <==> 0 <= a < |m| && 0 <= b < |m[a]| && m[a][b] != Black
  {
    GridHitsExact(m, 0);
    var cs := GridHits(m, 0);
    assert forall k :: 0 <= k < |cs| ==> (cs[k].0, cs[k].1) in cs;
    cs
  }

  /**
   * Fancy-index assignment of one colour: write `color` at every listed position,
   * one after another. The result only depends on WHICH positions are
   * listed, not on their order or how often they repeat.
   */
  function Paint(m: Image, cs: seq<(int, int)>, color: Pixel): (r: Image)
    requires InBounds(m, cs)
    ensures SameShape(r, m)
    ensures forall i, j :: 0 <= i < |m| && 0 <= j < |m[i]| ==>
      r[i][j] == (if (i, j) in cs then color else m[i][j])
    decreases |cs|
  {
    if |cs| == 0 then m
    else
      var i, j := cs[0].0, cs[0].1;
      var m' := m[i := m[i][j := color]];
      assert forall k :: 0 <= k < |cs| - 1 ==> cs[1..][k] == cs[k + 1];
      var r := Paint(m', cs[1..], color);
      assert forall a, b :: (a, b) in cs <==> (a, b) == cs[0] || (a, b) in cs[1..];
      r
  }

  /** `cv2.addWeighted` of one pixel pair with the overlay's weights 0.6 and 0.4. */
  function Blend(a: Pixel, b: Pixel, round: real -> int): Pixel {
    Pixel(AddWeighted(a.c0, ImageWeight, b.c0, MaskWeight, 0.0, round),
          AddWeighted(a.c1, ImageWeight, b.c1, MaskWeight, 0.0, round),
          AddWeighted(a.c2, ImageWeight, b.c2, MaskWeight, 0.0, round))
  }

  /** `cv2.addWeighted` over whole images of the same shape. */
  function BlendImages(image: Image, painted: Image, round: real -> int): Image
    requires SameShape(image, painted)
  {
    seq(|image|, i requires 0 <= i < |image| =>
      seq(|image[i]|, j requires 0 <= j < |image[i]| => Blend(image[i][j], painted[i][j], round)))
  }

  /**
   * `getColoredMask`: suppress mask pixels whose grayscale value is zero,
   * paint the remaining non-black pixels with `color`, and blend with the
   * image. The grayscale conversion raises on a mask without pixels, and
   * `cv2.addWeighted` raises when the image and the mask differ in size;
   * otherwise each output pixel is the blend of its own image pixel with
   * either `color` or black.
   */
  function ColoredMask(image: Image, maskImage: Image, color: Pixel, gray: Pixel -> byte, round: real -> int)
    : (r: Result<Image, ImageError>)
    ensures r.Success? <==> HasPixels(maskImage) && SameShape(image, maskImage)
    ensures r.Failure? ==> r.error == (if HasPixels(maskImage) then SizeMismatch else EmptyImage)
    ensures r.Success? ==> SameShape(r.value, image)
    ensures r.Success? ==> forall i, j :: 0 <= i < |image| && 0 <= j < |image[i]| ==>
      r.value[i][j] == Blend(image[i][j],
        if gray(maskImage[i][j]) != 0 && maskImage[i][j] != Black then color else Black, round)
  {
    if !HasPixels(maskImage) then Failure(EmptyImage)
    else
      var kept := Suppress(maskImage, gray);
      var painted := Paint(kept, NonBlackCoords(kept), color);
      if SameShape(image, painted) then Success(BlendImages(image, painted, round))
      else Failure(SizeMismatch)
  }

  // ---------------------------------------------------------------------------
  // Properties of the overlay
  // ---------------------------------------------------------------------------

  /** Painting the same positions twice changes nothing. */
  lemma PaintIdempotent(m: Image, cs: seq<(int, int)>, color: Pixel)
    requires InBounds(m, cs)
    ensures Paint(Paint(m, cs, color), cs, color) == Paint(m, cs, color)
  {
    var once := Paint(m, cs, color);
    GridsEqual(Paint(once, cs, color), once);
  }

  /** Repeated or reordered coordinates paint the same image. */
  lemma PaintSeesOnlyPositions(m: Image, cs: seq<(int, int)>, ds: seq<(int, int)>, color: Pixel)
    requires InBounds(m, cs) && InBounds(m, ds)
    requires forall p :: p in cs <==> p in ds
    ensures Paint(m, cs, color) == Paint(m, ds, color)
  {
    GridsEqual(Paint(m, cs, color), Paint(m, ds, color));
  }

  /**
   * With a grayscale conversion that keeps grey pixels (so black maps to 0),
   * a mask pixel is painted exactly when its grayscale value is non-zero.
   */
  lemma PaintedExactlyWhereGrayNonZero(image: Image, maskImage: Image, color: Pixel,
                                       gray: Pixel -> byte, round: real -> int)
    requires KeepsGrey(gray) && HasPixels(maskImage) && SameShape(image, maskImage)
    ensures var r := ColoredMask(image, maskImage, color, gray, round);
      r.Success? && forall i, j :: 0 <= i < |image| && 0 <= j < |image[i]| ==>
        r.value[i][j] == Blend(image[i][j], if gray(maskImage[i][j]) != 0 then color else Black, round)
  {
    assert gray(Grey(0)) == 0;
  }

  /** `Blend` written out with the overlay's literal weights 0.6 and 0.4 (a helper for the two lemmas below). */
  lemma BlendChannels(a: Pixel, b: Pixel, round: real -> int)
    ensures Blend(a, b, round) == Pixel(Saturate(round(a.c0 as real * 0.6 + b.c0 as real * 0.4)),
                                        Saturate(round(a.c1 as real * 0.6 + b.c1 as real * 0.4)),
                                        Saturate(round(a.c2 as real * 0.6 + b.c2 as real * 0.4)))
  {
    assert a.c0 as real * ImageWeight + b.c0 as real * MaskWeight + 0.0 == a.c0 as real * 0.6 + b.c0 as real * 0.4;
    assert a.c1 as real * ImageWeight + b.c1 as real * MaskWeight + 0.0 == a.c1 as real * 0.6 + b.c1 as real * 0.4;
    assert a.c2 as real * ImageWeight + b.c2 as real * MaskWeight + 0.0 == a.c2 as real * 0.6 + b.c2 as real * 0.4;
  }

  /** An all-black mask leaves only 0.6 times the image, with no highlight. */
  lemma EmptyMaskDimsImage(image: Image, maskImage: Image, color: Pixel, gray: Pixel -> byte, round: real -> int)
    requires HasPixels(maskImage) && SameShape(image, maskImage)
    requires forall i, j :: 0 <= i < |maskImage| && 0 <= j < |maskImage[i]| ==> maskImage[i][j] == Black
    ensures var r := ColoredMask(image, maskImage, color, gray, round);
      r.Success? && forall i, j :: 0 <= i < |image| && 0 <= j < |image[i]| ==>
        r.value[i][j] == Pixel(Saturate(round(image[i][j].c0 as real * 0.6)),
                               Saturate(round(image[i][j].c1 as real * 0.6)),
                               Saturate(round(image[i][j].c2 as real * 0.6)))
  {
    var r := ColoredMask(image, maskImage, color, gray, round);
    forall i, j | 0 <= i < |image| && 0 <= j < |image[i]|
      ensures r.value[i][j] == Pixel(Saturate(round(image[i][j].c0 as real * 0.6)),
                                     Saturate(round(image[i][j].c1 as real * 0.6)),
                                     Saturate(round(image[i][j].c2 as real * 0.6)))
    {
      BlendChannels(image[i][j], Black, round);
    }
  }

  /** A mask that is foreground everywhere blends `color` uniformly into the image. */
  lemma FullMaskTintsImage(image: Image, maskImage: Image, color: Pixel, gray: Pixel -> byte, round: real -> int)
    requires KeepsGrey(gray) && HasPixels(maskImage) && SameShape(image, maskImage)
    requires forall i, j :: 0 <= i < |maskImage| && 0 <= j < |maskImage[i]| ==> gray(maskImage[i][j]) != 0
    ensures var r := ColoredMask(image, maskImage, color, gray, round);
      r.Success? && forall i, j :: 0 <= i < |image| && 0 <= j < |image[i]| ==>
        r.value[i][j] == Pixel(Saturate(round(image[i][j].c0 as real * 0.6 + color.c0 as real * 0.4)),
                               Saturate(round(image[i][j].c1 as real * 0.6 + color.c1 as real * 0.4)),
                               Saturate(round(image[i][j].c2 as real * 0.6 + color.c2 as real * 0.4)))
  {
    var r := ColoredMask(image, maskImage, color, gray, round);
    PaintedExactlyWhereGrayNonZero(image, maskImage, color, gray, round);
    forall i, j | 0 <= i < |image| && 0 <= j < |image[i]|
      ensures r.value[i][j] == Pixel(Saturate(round(image[i][j].c0 as real * 0.6 + color.c0 as real * 0.4)),
                                     Saturate(round(image[i][j].c1 as real * 0.6 + color.c1 as real * 0.4)),
                                     Saturate(round(image[i][j].c2 as real * 0.6 + color.c2 as real * 0.4)))
    {
      BlendChannels(image[i][j], color, round);
    }
  }

  /**
   * Blending never saturates: every output channel lies within one unit of
   * 0.6 * image + 0.4 * mask, whatever the rounding mode.
   */
  lemma BlendWithinOneLevel(a: Pixel, b: Pixel, round: real -> int)
    requires IsRounding(round)
    ensures var o := Blend(a, b, round);
      a.c0 as real * 0.6 + b.c0 as real * 0.4 - 1.0 < o.c0 as real < a.c0 as real * 0.6 + b.c0 as real * 0.4 + 1.0 &&
      a.c1 as real * 0.6 + b.c1 as real * 0.4 - 1.0 < o.c1 as real < a.c1 as real * 0.6 + b.c1 as real * 0.4 + 1.0 &&
      a.c2 as real * 0.6 + b.c2 as real * 0.4 - 1.0 < o.c2 as real < a.c2 as real * 0.6 + b.c2 as real * 0.4 + 1.0
  {
    var w0 := a.c0 as real * 0.6 + b.c0 as real * 0.4 + 0.0;
    var w1 := a.c1 as real * 0.6 + b.c1 as real * 0.4 + 0.0;
    var w2 := a.c2 as real * 0.6 + b.c2 as real * 0.4 + 0.0;
    assert w0 - 1.0 < round(w0) as real < w0 + 1.0;
    assert w1 - 1.0 < round(w1) as real < w1 + 1.0;
    assert w2 - 1.0 < round(w2) as real < w2 + 1.0;
  }

  /**
   * The overlay never saturates: under any rounding within one unit, each
   * channel of an output pixel lies within one unit of 0.6 times the image
   * plus 0.4 times the colour (where the mask is painted) or black.
   */
  lemma OverlayWithinOneLevel(image: Image, maskImage: Image, color: Pixel, gray: Pixel -> byte,
                              round: real -> int, i: int, j: int)
    requires IsRounding(round) && HasPixels(maskImage) && SameShape(image, maskImage)
    requires 0 <= i < |image| && 0 <= j < |image[i]|
    ensures var o := ColoredMask(image, maskImage, color, gray, round).value[i][j];
      var a := image[i][j];
      var b := if gray(maskImage[i][j]) != 0 && maskImage[i][j] != Black then color else Black;
      a.c0 as real * 0.6 + b.c0 as real * 0.4 - 1.0 < o.c0 as real < a.c0 as real * 0.6 + b.c0 as real * 0.4 + 1.0 &&
      a.c1 as real * 0.6 + b.c1 as real * 0.4 - 1.0 < o.c1 as real < a.c1 as real * 0.6 + b.c1 as real * 0.4 + 1.0 &&
      a.c2 as real * 0.6 + b.c2 as real * 0.4 - 1.0 < o.c2 as real < a.c2 as real * 0.6 + b.c2 as real * 0.4 + 1.0
  {
    var b := if gray(maskImage[i][j]) != 0 && maskImage[i][j] != Black then color else Black;
    BlendWithinOneLevel(image[i][j], b, round);
  }

  /**
   * Post-processing followed by the overlay: a pixel is highlighted exactly
   * when its predicted probability reaches 1/255, i.e. when it survives the
   * cast to `uint8` as a non-zero byte. There is no 0.5 cut-off here.
   */
  lemma HighlightIffProbabilityReachesOneLevel(image: Image, probs: seq<seq<real>>, color: Pixel,
                                               gray: Pixel -> byte, round: real -> int)
    requires Probabilities(probs) && HasPixels(probs) && KeepsGrey(gray) && SameShape(image, probs)
    ensures var r := ColoredMask(image, PostProcess(probs).value, color, gray, round);
      r.Success? && forall i, j :: 0 <= i < |image| && 0 <= j < |image[i]| ==>
        r.value[i][j] == Blend(image[i][j], if probs[i][j] * 255.0 >= 1.0 then color else Black, round)
  {
    var mask := PostProcess(probs).value;
    PaintedExactlyWhereGrayNonZero(image, mask, color, gray, round);
    forall i, j | 0 <= i < |image| && 0 <= j < |image[i]|
      ensures (gray(mask[i][j]) != 0) == (probs[i][j] * 255.0 >= 1.0)
    {
      assert mask[i][j] == Grey(mask[i][j].c0);
    }
  }

  /** Each overlay pixel depends only on the image and mask pixels at its own position. */
  lemma OverlayIsPerPixel(image1: Image, mask1: Image, image2: Image, mask2: Image, i: int, j: int,
                          color: Pixel, gray: Pixel -> byte, round: real -> int)
    requires HasPixels(mask1) && HasPixels(mask2) && SameShape(image1, mask1) && SameShape(image2, mask2)
    requires 0 <= i < |image1| && 0 <= j < |image1[i]| && 0 <= i < |image2| && 0 <= j < |image2[i]|
    requires image1[i][j] == image2[i][j] && mask1[i][j] == mask2[i][j]
    ensures ColoredMask(image1, mask1, color, gray, round).value[i][j]
         == ColoredMask(image2, mask2, color, gray, round).value[i][j]
  {
  }
}
