/**
 * Padding a bounding box before cropping.
 *
 * Two conventions occur. The boss scripts keep inclusive row/column bounds and
 * clamp each padded bound to the image (`max(0, lo - p)`, `min(n - 1, hi + p)`).
 * The SAM tools keep OpenCV's `(x, y, w, h)` with exclusive right and bottom
 * edges, and clamp the origin and then the size (`x = max(0, x - p)`,
 * `w = min(W - x, w + 2p)`).
 */
module Boxes {
  import opened Masks

  function Max(a: int, b: int): int { if a >= b then a else b }
  function Min(a: int, b: int): int { if a <= b then a else b }

  /**
   * The inclusive box grown by `pad` on every side and clamped to an `h` by `w`
   * image. Each padded bound is either exactly `pad` away from the original or
   * pinned at the image border, so the result lies in the image and encloses a
   * box that was already inside it.
   */
  function PadClamp(b: Box, pad: nat, h: int, w: int): (r: Box)
    requires b.InGrid(h, w)
    ensures r.InGrid(h, w) && r.Encloses(b)
    ensures r.minRow == b.minRow - pad || (r.minRow == 0 && b.minRow < pad)
    ensures r.maxRow == b.maxRow + pad || (r.maxRow == h - 1 && b.maxRow + pad > h - 1)
    ensures r.minCol == b.minCol - pad || (r.minCol == 0 && b.minCol < pad)
    ensures r.maxCol == b.maxCol + pad || (r.maxCol == w - 1 && b.maxCol + pad > w - 1)
    ensures r.Width() >= 1 && r.Height() >= 1
  {
    Box(Max(0, b.minRow - pad), Min(h - 1, b.maxRow + pad), Max(0, b.minCol - pad), Min(w - 1, b.maxCol + pad))
  }

  /** A rectangle `(x, y, w, h)` covering columns `x..x+w-1` and rows `y..y+h-1`. */
  datatype Rect = Rect(x: int, y: int, w: int, h: int)
  {
    predicate InImage(width: int, height: int) { 0 <= x && 0 <= y && 0 <= w && 0 <= h && x + w <= width && y + h <= height }
    predicate HasPixel(row: int, col: int) { x <= col < x + w && y <= row < y + h }
    predicate Encloses(inner: Rect) { x <= inner.x && inner.x + inner.w <= x + w && y <= inner.y && inner.y + inner.h <= y + h }
  }

  /**
   * The SAM tools' padding, OpenCV coordinates. The origin never goes negative,
   * and a rectangle that lay in the image still lies in it and is enclosed.
   */
  function PadRect(rect: Rect, pad: nat, width: int, height: int): (r: Rect)
    ensures 0 <= r.x <= Max(0, rect.x) && 0 <= r.y <= Max(0, rect.y)
    ensures r.x == rect.x - pad || (r.x == 0 && rect.x < pad)
    ensures r.y == rect.y - pad || (r.y == 0 && rect.y < pad)
    ensures r.x + r.w <= width && r.y + r.h <= height
    ensures rect.InImage(width, height) ==> r.InImage(width, height) && r.Encloses(rect)
  {
    var x := Max(0, rect.x - pad);
    var y := Max(0, rect.y - pad);
    Rect(x, y, Min(width - x, rect.w + 2 * pad), Min(height - y, rect.h + 2 * pad))
  }

  /** The inclusive box as a rectangle with exclusive far edges. */
  function BoxToRect(b: Box): (r: Rect)
    ensures forall row, col :: r.HasPixel(row, col) <==> b.Contains(row, col)
  {
    Rect(b.minCol, b.minRow, b.Width(), b.Height())
  }
}
