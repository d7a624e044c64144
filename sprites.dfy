/**
 * Cropping a box out of an image and the transparency pass that follows it in
 * every slicing script: each background pixel of the crop gets alpha 0 and
 * every other channel and pixel is left alone.
 */
module Sprites {
  import opened Pixels
  import opened Masks

  /** `img[minRow:maxRow+1, minCol:maxCol+1]` for a box inside the image. */
  function Crop(img: Image, h: nat, w: nat, b: Box): (r: Image)
    requires IsRect(img, h, w) && b.InGrid(h, w)
    ensures IsRect(r, b.Height(), b.Width())
    ensures forall i, j :: 0 <= i < b.Height() && 0 <= j < b.Width() ==> r[i][j] == img[b.minRow + i][b.minCol + j]
  {
    seq(b.Height(), i requires 0 <= i < b.Height() =>
      seq(b.Width(), j requires 0 <= j < b.Width() => img[b.minRow + i][b.minCol + j]))
  }

  /** A pixel after the transparency pass. */
  function Cleared(p: Pixel, bg: Pixel, threshold: int, ch: Channels): Pixel {
    if IsBackground(p, bg, threshold, ch) then p.(a := 0) else p
  }

  /** The pass never changes colour; it zeroes alpha exactly on background pixels and leaves the rest whole. */
  lemma ClearedSpec(p: Pixel, bg: Pixel, threshold: int, ch: Channels)
    ensures var q := Cleared(p, bg, threshold, ch);
      && q.r == p.r && q.g == p.g && q.b == p.b
      && (IsBackground(p, bg, threshold, ch) ==> q.a == 0)
      && (!IsBackground(p, bg, threshold, ch) ==> q == p)
      && (q.a != p.a ==> IsBackground(p, bg, threshold, ch))
  {
  }

  /**
   * With a transparency threshold no larger than the mask threshold, a pixel
   * the mask calls foreground keeps all four channels.
   */
  lemma ForegroundKeepsAlpha(p: Pixel, bg: Pixel, clearThreshold: int, maskThreshold: int, ch: Channels)
    requires clearThreshold <= maskThreshold
    requires !IsBackground(p, bg, maskThreshold, ch)
    ensures Cleared(p, bg, clearThreshold, ch) == p
  {
  }

  /** The nested loops over a crop setting `region[r, c, 3] = 0` on background pixels. */
  method ClearBackground(img: Image, h: nat, w: nat, bg: Pixel, threshold: int, ch: Channels) returns (out: Image)
    requires IsRect(img, h, w)
    ensures IsRect(out, h, w)
    ensures forall r, c :: 0 <= r < h && 0 <= c < w ==> out[r][c] == Cleared(img[r][c], bg, threshold, ch)
  {
    out := img;
    for r := 0 to h
      invariant IsRect(out, h, w)
      invariant forall i, j :: 0 <= i < h && 0 <= j < w ==>
        out[i][j] == if i < r then Cleared(img[i][j], bg, threshold, ch) else img[i][j]
    {
      for c := 0 to w
        invariant IsRect(out, h, w)
        invariant forall i, j :: 0 <= i < h && 0 <= j < w ==>
          out[i][j] == if i < r || (i == r && j < c) then Cleared(img[i][j], bg, threshold, ch) else img[i][j]
      {
        if IsBackground(out[r][c], bg, threshold, ch) {
          out := out[r := out[r][c := out[r][c].(a := 0)]];
        }
      }
    }
  }
}
