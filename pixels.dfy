/**
 * Pixels and the background classifier shared by the slicing scripts.
 *
 * An image is a rectangular grid of RGBA pixels, row-major (`img[row][col]`),
 * every channel an unsigned byte, as numpy holds a PIL image converted to RGBA.
 * The background colour is estimated from the four corner pixels and a pixel is
 * background when its summed absolute channel difference from that colour is
 * below a threshold. The scripts differ only in the threshold and in whether
 * alpha takes part; both are parameters here.
 */
module Pixels {

  type Byte = x: int | 0 <= x < 256

  datatype Pixel = Pixel(r: Byte, g: Byte, b: Byte, a: Byte)

  /** The all-zero pixel of `np.zeros_like`. */
  const Blank := Pixel(0, 0, 0, 0)

  type Image = seq<seq<Pixel>>

  /** `g` has `h` rows of `w` cells each. */
  predicate IsRect<T>(g: seq<seq<T>>, h: nat, w: nat) {
    |g| == h && forall i :: 0 <= i < h ==> |g[i]| == w
  }

  /** A non-empty rectangular image, as every decoded PNG is. */
  predicate IsImage(img: Image) {
    |img| > 0 && |img[0]| > 0 && IsRect(img, |img|, |img[0]|)
  }

  function Height(img: Image): nat { |img| }

  function Width(img: Image): nat { if |img| == 0 then 0 else |img[0]| }

  function Abs(x: int): nat { if x < 0 then -x else x }

  /** Which channels the distance compares: all four, or red, green and blue only (`pixel[:3]`). */
  datatype Channels = RGBA | RGB

  /** Sum of absolute channel differences, computed on ints as `astype(int)` does. */
  function Distance(p: Pixel, q: Pixel, ch: Channels): nat {
    Abs(p.r - q.r) + Abs(p.g - q.g) + Abs(p.b - q.b) + (if ch == RGBA then Abs(p.a - q.a) else 0)
  }

  /** `is_background_pixel(pixel, bg, threshold)`: the distance is strictly below the threshold. */
  predicate IsBackground(p: Pixel, bg: Pixel, threshold: int, ch: Channels): (likeBg: bool)
    ensures likeBg ==> threshold > 0
    ensures p == bg ==> (likeBg <==> threshold > 0)
  {
    Distance(p, bg, ch) < threshold
  }

  /** The truncated (`astype(np.uint8)`) mean of four bytes. */
  function Mean4(w: Byte, x: Byte, y: Byte, z: Byte): (m: Byte)
    ensures 4 * m <= w + x + y + z < 4 * m + 4
    ensures Min4(w, x, y, z) <= m <= Max4(w, x, y, z)
  {
    (w + x + y + z) / 4
  }

  function Min4(w: int, x: int, y: int, z: int): int {
    var a := if w < x then w else x;
    var b := if y < z then y else z;
    if a < b then a else b
  }

  function Max4(w: int, x: int, y: int, z: int): int {
    var a := if w > x then w else x;
    var b := if y > z then y else z;
    if a > b then a else b
  }

  function TopLeft(img: Image): Pixel requires IsImage(img) { img[0][0] }
  function TopRight(img: Image): Pixel requires IsImage(img) { img[0][|img[0]| - 1] }
  function BottomLeft(img: Image): Pixel requires IsImage(img) { img[|img| - 1][0] }
  function BottomRight(img: Image): Pixel requires IsImage(img) { img[|img| - 1][|img[0]| - 1] }

  /**
   * `get_background_color`: per channel, the truncated mean of the corners
   * `img[0,0]`, `img[0,-1]`, `img[-1,0]` and `img[-1,-1]`. The result lies,
   * channel by channel, between the smallest and the largest corner value.
   */
  function BackgroundColor(img: Image): (bg: Pixel)
    requires IsImage(img)
    ensures var tl, tr, bl, br := TopLeft(img), TopRight(img), BottomLeft(img), BottomRight(img);
      && 4 * bg.r <= tl.r + tr.r + bl.r + br.r < 4 * bg.r + 4
      && 4 * bg.g <= tl.g + tr.g + bl.g + br.g < 4 * bg.g + 4
      && 4 * bg.b <= tl.b + tr.b + bl.b + br.b < 4 * bg.b + 4
      && 4 * bg.a <= tl.a + tr.a + bl.a + br.a < 4 * bg.a + 4
  {
    var tl, tr, bl, br := TopLeft(img), TopRight(img), BottomLeft(img), BottomRight(img);
    Pixel(Mean4(tl.r, tr.r, bl.r, br.r), Mean4(tl.g, tr.g, bl.g, br.g),
          Mean4(tl.b, tr.b, bl.b, br.b), Mean4(tl.a, tr.a, bl.a, br.a))
  }

  /** When the four corners agree, the estimate is exactly that colour, so every corner is background for any positive threshold. */
  lemma UniformCornersGiveCornerColour(img: Image, threshold: int, ch: Channels)
    requires IsImage(img)
    requires TopLeft(img) == TopRight(img) == BottomLeft(img) == BottomRight(img)
    requires threshold > 0
    ensures BackgroundColor(img) == TopLeft(img)
    ensures IsBackground(TopLeft(img), BackgroundColor(img), threshold, ch)
  {
    var p := TopLeft(img);
    var bg := BackgroundColor(img);
    assert 4 * bg.r <= 4 * p.r < 4 * bg.r + 4;
    assert 4 * bg.g <= 4 * p.g < 4 * bg.g + 4;
    assert 4 * bg.b <= 4 * p.b < 4 * bg.b + 4;
    assert 4 * bg.a <= 4 * p.a < 4 * bg.a + 4;
  }

  /** The distance is zero exactly when the compared channels agree. */
  lemma DistanceZeroIff(p: Pixel, q: Pixel, ch: Channels)
    ensures Distance(p, q, ch) == 0 <==> (p.r == q.r && p.g == q.g && p.b == q.b && (ch == RGBA ==> p.a == q.a))
  {
  }

  /** A pixel that is background under a threshold is background under every larger one. */
  lemma BackgroundMonotone(p: Pixel, bg: Pixel, t1: int, t2: int, ch: Channels)
    requires t1 <= t2
    requires IsBackground(p, bg, t1, ch)
    ensures IsBackground(p, bg, t2, ch)
  {
  }

  /** The RGB-only test ignores alpha; the RGBA test never says background where the RGB test does not. */
  lemma RgbIgnoresAlpha(p: Pixel, bg: Pixel, threshold: int, alpha: Byte)
    ensures IsBackground(p.(a := alpha), bg, threshold, RGB) == IsBackground(p, bg, threshold, RGB)
    ensures IsBackground(p, bg, threshold, RGBA) ==> IsBackground(p, bg, threshold, RGB)
  {
  }
}
