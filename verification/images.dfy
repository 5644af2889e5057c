/**
 * Raster images as OpenCV and numpy hold them: grids of 8-bit, 3-channel
 * pixels stored row by row, plus the two OpenCV operations the pipeline relies on
 * (grayscale conversion and weighted blending), kept as abstract as the
 * pipeline allows.
 */
module Images {

  /** An unsigned 8-bit sample (numpy `uint8`). */
  type byte = x: int | 0 <= x < 256

  /** One pixel with three channels, in the order OpenCV decodes them (B, G, R). */
  datatype Pixel = Pixel(c0: byte, c1: byte, c2: byte)

  /** A height-by-width grid of pixels, rows first. */
  type Image = seq<seq<Pixel>>

  /** The errors an image operation of the pipeline can raise. */
  datatype ImageError =
    | DecodeFailed   // `cv2.imread` returned nothing for the chosen file
    | EmptyImage     // an OpenCV conversion was given an image without pixels
    | SizeMismatch   // `cv2.addWeighted` was given images of different sizes

  const Black: Pixel := Pixel(0, 0, 0)

  /** The pixel whose three channels all hold `v` (what `COLOR_GRAY2RGB` produces). */
  function Grey(v: byte): Pixel {
    Pixel(v, v, v)
  }

  /**
   * The grid has a row and its first row is non-empty; OpenCV refuses
   * images for which this fails. On a rectangular grid, as every numpy
   * array is, it means the grid holds at least one pixel
   * (`HasPixelsOnRectangular`).
   */
  predicate HasPixels<T>(g: seq<seq<T>>) {
    |g| > 0 && |g[0]| > 0
  }

  /** Every row has the length of the first one. */
  predicate Rectangular<T>(g: seq<seq<T>>) {
    forall i :: 0 <= i < |g| ==> |g[i]| == |g[0]|
  }

  /** On a rectangular grid, `HasPixels` holds exactly when some row is non-empty. */
  lemma HasPixelsOnRectangular<T>(g: seq<seq<T>>)
    requires Rectangular(g)
    ensures HasPixels(g) <==> exists i :: 0 <= i < |g| && |g[i]| > 0
  {
    if exists i :: 0 <= i < |g| && |g[i]| > 0 {
      var i :| 0 <= i < |g| && |g[i]| > 0;
      assert |g[0]| == |g[i]|;
    }
  }

  /** `a` and `b` have the same number of rows and each row the same length. */
  predicate SameShape<A, B>(a: seq<seq<A>>, b: seq<seq<B>>) {
    |a| == |b| && forall i :: 0 <= i < |a| ==> |a[i]| == |b[i]|
  }

  /** A grid of exactly `side` rows of `side` columns. */
  predicate IsSquare<T>(g: seq<seq<T>>, side: nat) {
    |g| == side && forall i :: 0 <= i < |g| ==> |g[i]| == side
  }

  /**
   * The only facts the pipeline needs from OpenCV's `COLOR_BGR2GRAY`
   * conversion: a pixel whose three channels are equal converts to that value.
   * The luma weights themselves are not modelled.
   */
  predicate KeepsGrey(gray: Pixel -> byte) {
    forall v: byte :: gray(Grey(v)) == v
  }

  /** A rounding function: whatever mode it uses, it lands within one unit of its argument. */
  ghost predicate IsRounding(round: real -> int) {
    forall x: real :: x - 1.0 < round(x) as real < x + 1.0
  }

  /** The distance between two integers. */
  function Dist(p: int, q: int): nat {
    if p >= q then p - q else q - p
  }

  /**
   * OpenCV's `saturate_cast<uchar>`: the byte nearest to `x`. No other byte
   * is as close, so the result is well defined.
   */
  function Saturate(x: int): (v: byte)
    ensures forall b: byte :: Dist(v, x) <= Dist(b, x)
    ensures forall b: byte :: Dist(b, x) == Dist(v, x) ==> b == v
  {
    if x < 0 then 0 else if x > 255 then 255 else x
  }

  /** One channel of `cv2.addWeighted(a, alpha, b, beta, gamma)`: round, then saturate. */
  function AddWeighted(a: byte, alpha: real, b: byte, beta: real, gamma: real, round: real -> int): byte {
    Saturate(round(a as real * alpha + b as real * beta + gamma))
  }

  /** The 8-bit grid obtained by applying a grayscale conversion to every pixel. */
  function ToGray(img: Image, gray: Pixel -> byte): seq<seq<byte>> {
    seq(|img|, i requires 0 <= i < |img| =>
      seq(|img[i]|, j requires 0 <= j < |img[i]| => gray(img[i][j])))
  }

  /** Two grids of the same shape that agree at every position are equal. */
  lemma GridsEqual<T>(a: seq<seq<T>>, b: seq<seq<T>>)
    requires SameShape(a, b)
    requires forall i, j :: 0 <= i < |a| && 0 <= j < |a[i]| ==> a[i][j] == b[i][j]
    ensures a == b
  {
    forall i | 0 <= i < |a|
      ensures a[i] == b[i]
    {
      assert forall j :: 0 <= j < |a[i]| ==> a[i][j] == b[i][j];
    }
  }
}
