/**
 * Boolean masks over an image grid, pixel counts and tight bounding boxes.
 *
 * Every script reduces a set of pixels to "rows/columns of the first and last
 * member plus the member count": `np.where` followed by `min`/`max` and `len`,
 * `np.argmax` over `np.any`, or an explicit scan updating `min_x`/`max_x`.
 * `BoundingBox` is that scan, proved against the counting functions below.
 */
module Masks {
  import opened Wrappers
  import opened Pixels

  type Mask = seq<seq<bool>>

  /** One bound of a Python slice over `n` items: negative counts from the end, then clipped to `0..n`. */
  function SliceBound(i: int, n: nat): (r: nat)
    ensures r <= n
    ensures 0 <= i <= n ==> r == i
    ensures i > n ==> r == n
    ensures i < 0 ==> r == if n + i < 0 then 0 else n + i
  {
    if i < 0 then (if n + i < 0 then 0 else n + i) else if i > n then n else i
  }

  /** Number of true cells in a row (counted over prefixes, as a left-to-right scan does). */
  function CountRow(row: seq<bool>): nat
  {
    if |row| == 0 then 0 else CountRow(row[..|row| - 1]) + (if row[|row| - 1] then 1 else 0)
  }

  /** Number of true cells in a mask. */
  function CountMask(m: Mask): nat
  {
    if |m| == 0 then 0 else CountMask(m[..|m| - 1]) + CountRow(m[|m| - 1])
  }

  /** An inclusive box: rows `minRow..maxRow`, columns `minCol..maxCol`. */
  datatype Box = Box(minRow: int, maxRow: int, minCol: int, maxCol: int)
  {
    function Width(): int { maxCol - minCol + 1 }
    function Height(): int { maxRow - minRow + 1 }
    predicate Contains(r: int, c: int) { minRow <= r <= maxRow && minCol <= c <= maxCol }
    /** This box contains all of `inner`. */
    predicate Encloses(inner: Box) {
      minRow <= inner.minRow && inner.maxRow <= maxRow && minCol <= inner.minCol && inner.maxCol <= maxCol
    }
    /** The box lies inside an `h` by `w` grid and is not empty. */
    predicate InGrid(h: int, w: int) { 0 <= minRow <= maxRow < h && 0 <= minCol <= maxCol < w }
  }

  /** Every true cell of the mask lies in the box. */
  ghost predicate Covers(m: Mask, h: nat, w: nat, b: Box)
    requires IsRect(m, h, w)
  {
    forall r, c :: 0 <= r < h && 0 <= c < w && m[r][c] ==> b.Contains(r, c)
  }

  /** The box is the tight bounding box of the mask's true cells: it covers them and each edge holds one. */
  ghost predicate IsTightBox(m: Mask, h: nat, w: nat, b: Box)
    requires IsRect(m, h, w)
  {
    && b.InGrid(h, w)
    && Covers(m, h, w, b)
    && (exists c :: 0 <= c < w && m[b.minRow][c])
    && (exists c :: 0 <= c < w && m[b.maxRow][c])
    && (exists r :: 0 <= r < h && m[r][b.minCol])
    && (exists r :: 0 <= r < h && m[r][b.maxCol])
  }

  /** No cell of the mask is true. */
  ghost predicate IsEmptyMask(m: Mask, h: nat, w: nat)
    requires IsRect(m, h, w)
  {
    forall r, c :: 0 <= r < h && 0 <= c < w ==> !m[r][c]
  }

  lemma {:induction false} CountRowBound(row: seq<bool>)
    ensures CountRow(row) <= |row|
    ensures CountRow(row) == 0 <==> forall i :: 0 <= i < |row| ==> !row[i]
  {
    if |row| > 0 {
      var p := row[..|row| - 1];
      CountRowBound(p);
      assert forall i :: 0 <= i < |p| ==> p[i] == row[i];
    }
  }

  lemma {:induction false} CountMaskZero(m: Mask, h: nat, w: nat)
    requires IsRect(m, h, w)
    ensures CountMask(m) == 0 <==> IsEmptyMask(m, h, w)
  {
    if h > 0 {
      var p := m[..h - 1];
      CountMaskZero(p, h - 1, w);
      CountRowBound(m[h - 1]);
      assert forall i :: 0 <= i < h - 1 ==> p[i] == m[i];
    }
  }

  /** A row whose true cells all lie in `lo..hi` has at most `hi - lo + 1` of them. */
  lemma {:induction false} CountRowWithin(row: seq<bool>, lo: int, hi: int, n: nat)
    requires 0 <= lo <= hi && n <= |row|
    requires forall i :: 0 <= i < |row| && row[i] ==> lo <= i <= hi
    ensures CountRow(row[..n]) <= if n <= lo then 0 else if n > hi then hi - lo + 1 else n - lo
  {
    if n > 0 {
      CountRowWithin(row, lo, hi, n - 1);
      assert row[..n][..n - 1] == row[..n - 1];
    }
  }

  /** How many of the first `n` rows fall inside the box's row range. */
  function RowsIn(n: int, b: Box): int {
    if n <= b.minRow then 0 else if n > b.maxRow then b.Height() else n - b.minRow
  }

  /** A mask whose true cells lie in a box has at most the box's area of them. */
  lemma {:induction false} CountMaskWithin(m: Mask, h: nat, w: nat, b: Box, n: nat)
    requires IsRect(m, h, w) && b.InGrid(h, w) && Covers(m, h, w, b) && n <= h
    ensures CountMask(m[..n]) <= b.Width() * RowsIn(n, b)
  {
    if n > 0 {
      CountMaskWithin(m, h, w, b, n - 1);
      assert m[..n][..n - 1] == m[..n - 1];
      var row := m[n - 1];
      var k := b.Width();
      if b.minRow <= n - 1 <= b.maxRow {
        CountRowWithin(row, b.minCol, b.maxCol, |row|);
        assert row[..|row|] == row;
        assert RowsIn(n, b) == RowsIn(n - 1, b) + 1;
        assert k * RowsIn(n, b) == k * RowsIn(n - 1, b) + k;
      } else {
        assert forall i :: 0 <= i < |row| ==> !row[i];
        CountRowBound(row);
        assert RowsIn(n, b) == RowsIn(n - 1, b);
      }
    }
  }

  /** Box area bounds the count of a covered mask. */
  lemma CountMaskInBox(m: Mask, h: nat, w: nat, b: Box)
    requires IsRect(m, h, w) && b.InGrid(h, w) && Covers(m, h, w, b)
    ensures CountMask(m) <= b.Width() * b.Height()
  {
    CountMaskWithin(m, h, w, b, h);
    assert m[..h] == m;
  }

  /** Cell (i, j) comes before (r, c) in raster (row-major) order. */
  predicate Before(i: int, j: int, r: int, c: int) { i < r || (i == r && j < c) }

  /**
   * What the raster scan keeps: whether a true cell was seen, the first/last
   * row and column so far, and, for the proof, a true cell on each of them.
   */
  datatype Scan = Scan(found: bool, minR: int, maxR: int, minC: int, maxC: int,
                       topC: int, botC: int, leftR: int, rightR: int)

  /** The scan state is right for every cell before (r, c). */
  ghost predicate ScanInv(m: Mask, h: nat, w: nat, s: Scan, r: int, c: int)
    requires IsRect(m, h, w)
  {
    && (!s.found ==> forall i, j :: 0 <= i < h && 0 <= j < w && Before(i, j, r, c) ==> !m[i][j])
    && (s.found ==>
          && 0 <= s.minR <= s.maxR < h && s.maxR <= r && 0 <= s.minC <= s.maxC < w
          && 0 <= s.topC < w && m[s.minR][s.topC] && 0 <= s.botC < w && m[s.maxR][s.botC]
          && 0 <= s.leftR < h && m[s.leftR][s.minC] && 0 <= s.rightR < h && m[s.rightR][s.maxC]
          && forall i, j :: 0 <= i < h && 0 <= j < w && Before(i, j, r, c) && m[i][j] ==>
               s.minR <= i <= s.maxR && s.minC <= j <= s.maxC)
  }

  /** One cell of the scan: a true cell opens the box or widens it. */
  method ScanCell(m: Mask, h: nat, w: nat, s: Scan, r: nat, c: nat) returns (s': Scan)
    requires IsRect(m, h, w) && r < h && c < w && ScanInv(m, h, w, s, r, c)
    ensures ScanInv(m, h, w, s', r, c + 1)
  {
    s' := s;
    if m[r][c] {
      if !s.found {
        s' := Scan(true, r, r, c, c, c, c, r, r);
      } else {
        s' := s'.(maxR := r, botC := c);
        if c < s.minC { s' := s'.(minC := c, leftR := r); }
        if c > s.maxC { s' := s'.(maxC := c, rightR := r); }
      }
    }
  }

  /** One row of the scan, which also counts the row's true cells. */
  method ScanRow(m: Mask, h: nat, w: nat, s: Scan, r: nat) returns (s': Scan, count: nat)
    requires IsRect(m, h, w) && r < h && ScanInv(m, h, w, s, r, 0)
    ensures ScanInv(m, h, w, s', r + 1, 0) && count == CountRow(m[r])
  {
    s', count := s, 0;
    for c := 0 to w
      invariant ScanInv(m, h, w, s', r, c) && count == CountRow(m[r][..c])
    {
      assert m[r][..c + 1][..c] == m[r][..c];
      if m[r][c] {
        count := count + 1;
      }
      s' := ScanCell(m, h, w, s', r, c);
    }
    assert m[r][..w] == m[r];
    ScanNextRow(m, h, w, s', r);
  }

  /** Past the last column of row r is the start of row r + 1. */
  lemma ScanNextRow(m: Mask, h: nat, w: nat, s: Scan, r: nat)
    requires IsRect(m, h, w) && r < h && ScanInv(m, h, w, s, r, w)
    ensures ScanInv(m, h, w, s, r + 1, 0)
  {
    assert forall i, j :: 0 <= j < w ==> (Before(i, j, r + 1, 0) <==> Before(i, j, r, w));
  }

  /**
   * Raster scan of a mask that keeps the first/last row and column of a true
   * cell and counts the true cells. `None` exactly when the mask is empty;
   * otherwise the tight box, whose area bounds the count.
   */
  method BoundingBox(m: Mask, h: nat, w: nat) returns (box: Option<Box>, area: nat)
    requires IsRect(m, h, w)
    ensures area == CountMask(m)
    ensures box.None? <==> area == 0
    ensures box.None? ==> IsEmptyMask(m, h, w)
    ensures box.Some? ==> IsTightBox(m, h, w, box.value) && area <= box.value.Width() * box.value.Height()
  {
    var s := Scan(false, 0, 0, 0, 0, 0, 0, 0, 0);
    area := 0;
    for r := 0 to h
      invariant ScanInv(m, h, w, s, r, 0) && area == CountMask(m[..r])
    {
      assert m[..r + 1][..r] == m[..r];
      var count;
      s, count := ScanRow(m, h, w, s, r);
      area := area + count;
    }
    assert m[..h] == m;
    if s.found {
      box := Some(Box(s.minR, s.maxR, s.minC, s.maxC));
      assert Covers(m, h, w, box.value);
      CountMaskInBox(m, h, w, box.value);
      CountMaskPositive(m, h, w, s.minR, s.topC);
    } else {
      box := None;
      CountMaskZero(m, h, w);
    }
  }

  /** A mask with a true cell has a positive count. */
  lemma CountMaskPositive(m: Mask, h: nat, w: nat, r: int, c: int)
    requires IsRect(m, h, w) && 0 <= r < h && 0 <= c < w && m[r][c]
    ensures CountMask(m) > 0
  {
    CountMaskZero(m, h, w);
  }

  /** The opaque pixels, `alpha > 10`, as several scripts define them. */
  function OpaqueMask(img: Image, h: nat, w: nat): (op: Mask)
    requires IsRect(img, h, w)
    ensures IsRect(op, h, w)
    ensures forall y, x :: 0 <= y < h && 0 <= x < w ==> (op[y][x] <==> img[y][x].a > 10)
  {
    seq(h, y requires 0 <= y < h => seq(w, x requires 0 <= x < w => img[y][x].a > 10))
  }

  /** `m` marks exactly the pixels that are not background. */
  ghost predicate IsForegroundMask(m: Mask, img: Image, h: nat, w: nat, bg: Pixel, threshold: int, ch: Channels)
    requires IsRect(img, h, w)
  {
    IsRect(m, h, w) && forall r, c :: 0 <= r < h && 0 <= c < w ==> (m[r][c] <==> !IsBackground(img[r][c], bg, threshold, ch))
  }

  /** The nested loops that start from an all-false mask and set `mask[r, c] = True` on every non-background pixel. */
  method ForegroundMask(img: Image, h: nat, w: nat, bg: Pixel, threshold: int, ch: Channels) returns (m: Mask)
    requires IsRect(img, h, w)
    ensures IsForegroundMask(m, img, h, w, bg, threshold, ch)
  {
    m := seq(h, _ => seq(w, _ => false));
    for r := 0 to h
      invariant IsRect(m, h, w)
      invariant forall i, j :: 0 <= i < h && 0 <= j < w ==>
        (m[i][j] <==> i < r && !IsBackground(img[i][j], bg, threshold, ch))
    {
      for c := 0 to w
        invariant IsRect(m, h, w)
        invariant forall i, j :: 0 <= i < h && 0 <= j < w ==>
          (m[i][j] <==> (i < r || (i == r && j < c)) && !IsBackground(img[i][j], bg, threshold, ch))
      {
        if !IsBackground(img[r][c], bg, threshold, ch) {
          m := m[r := m[r][c := true]];
        }
      }
    }
  }

  /** The foreground mask as a value. */
  ghost function ForegroundOf(img: Image, h: nat, w: nat, bg: Pixel, threshold: int, ch: Channels): (m: Mask)
    requires IsRect(img, h, w)
    ensures IsForegroundMask(m, img, h, w, bg, threshold, ch)
  {
    seq(h, r requires 0 <= r < h => seq(w, c requires 0 <= c < w => !IsBackground(img[r][c], bg, threshold, ch)))
  }

  /** An image has one foreground mask per test. */
  lemma ForegroundMaskUnique(m: Mask, img: Image, h: nat, w: nat, bg: Pixel, threshold: int, ch: Channels)
    requires IsRect(img, h, w) && IsForegroundMask(m, img, h, w, bg, threshold, ch)
    ensures m == ForegroundOf(img, h, w, bg, threshold, ch)
  {
    var f := ForegroundOf(img, h, w, bg, threshold, ch);
    forall r | 0 <= r < h ensures m[r] == f[r] {
      assert forall c :: 0 <= c < w ==> m[r][c] == f[r][c];
    }
  }
}
