/**
 * `scripts/check_boss_completeness.py`: for one hand-drawn region of the boss
 * sheet, count the pixels that differ from the sheet's background and the
 * ones on each of the four edges, and warn about every edge holding more than
 * five of them, since a sprite there is probably cut off.
 */
module BossCompleteness {
  import opened Wrappers
  import opened Pixels
  import opened Masks

  /** The sheet's background, `(104, 101, 87)`; only red, green and blue are compared. */
  const SheetBackground := Pixel(104, 101, 87, 255)
  const ContentThreshold := 15
  const EdgeLimit := 5

  /** `diff >= 15`: the RGB distance from the background. */
  predicate IsContent(p: Pixel) {
    Distance(p, SheetBackground, RGB) >= ContentThreshold
  }

  /** Content is exactly what the 15-threshold background test rejects. */
  lemma ContentIsNotBackground(p: Pixel)
    ensures IsContent(p) <==> !IsBackground(p, SheetBackground, ContentThreshold, RGB)
  {
  }

  /** A region as the table gives it: `(min_col, min_row, max_col, max_row)`, inclusive. */
  datatype Area = Area(minCol: int, minRow: int, maxCol: int, maxRow: int)

  /**
   * The length of `a[lo:hi + 1]` on an axis of length `n`, as numpy slices it:
   * each bound counts from the end when negative and is clipped to `0..n`, and
   * the slice is empty once its stop is not past its start.
   */
  function ClippedLength(lo: int, hi: int, n: nat): (len: nat)
    ensures SliceBound(lo, n) + len <= n
    ensures 0 <= lo <= hi < n ==> len == hi - lo + 1
    ensures 0 <= lo && hi >= -1 ==> len <= if hi - lo + 1 < 0 then 0 else hi - lo + 1
    ensures 0 <= lo && hi < -1 ==> len == if n + hi + 1 > lo then n + hi + 1 - lo else 0
  {
    var start, stop := SliceBound(lo, n), SliceBound(hi + 1, n);
    if stop <= start then 0 else stop - start
  }

  /** The content mask of the clipped region, which starts at the normalised lower bounds. */
  function ContentMask(img: Image, h: nat, w: nat, a: Area): (m: Mask)
    requires IsRect(img, h, w)
    ensures IsRect(m, ClippedLength(a.minRow, a.maxRow, h), ClippedLength(a.minCol, a.maxCol, w))
    ensures forall i, j :: 0 <= i < |m| && 0 <= j < ClippedLength(a.minCol, a.maxCol, w) ==>
      (m[i][j] <==> IsContent(img[SliceBound(a.minRow, h) + i][SliceBound(a.minCol, w) + j]))
  {
    var rows, cols := ClippedLength(a.minRow, a.maxRow, h), ClippedLength(a.minCol, a.maxCol, w);
    var top, left := SliceBound(a.minRow, h), SliceBound(a.minCol, w);
    seq(rows, i requires 0 <= i < rows => seq(cols, j requires 0 <= j < cols => IsContent(img[top + i][left + j])))
  }

  /** Column `j` of a mask. */
  function ColumnOf(m: Mask, rows: nat, cols: nat, j: int): (col: seq<bool>)
    requires IsRect(m, rows, cols) && 0 <= j < cols
    ensures |col| == rows && forall i :: 0 <= i < rows ==> col[i] == m[i][j]
  {
    seq(rows, i requires 0 <= i < rows => m[i][j])
  }

  datatype Edge = Top | Bottom | Left | Right

  /** What the script prints for one region. */
  datatype Report = Report(nonBg: nat, width: int, height: int, top: nat, bottom: nat, left: nat, right: nat, warnings: seq<Edge>)
  {
    /** `[OK]` is printed. */
    predicate Complete() { |warnings| == 0 }
  }

  /** The warnings, in the order the script appends them. */
  function Warnings(top: nat, bottom: nat, left: nat, right: nat): (ws: seq<Edge>)
    ensures Top in ws <==> top > EdgeLimit
    ensures Bottom in ws <==> bottom > EdgeLimit
    ensures Left in ws <==> left > EdgeLimit
    ensures Right in ws <==> right > EdgeLimit
    ensures |ws| == 0 <==> top <= EdgeLimit && bottom <= EdgeLimit && left <= EdgeLimit && right <= EdgeLimit
  {
    (if top > EdgeLimit then [Top] else []) + (if bottom > EdgeLimit then [Bottom] else [])
    + (if left > EdgeLimit then [Left] else []) + (if right > EdgeLimit then [Right] else [])
  }

  /** Counting the content pixels of one row of the mask, left to right. */
  method CountLine(line: seq<bool>) returns (n: nat)
    ensures n == CountRow(line)
  {
    n := 0;
    for j := 0 to |line|
      invariant n == CountRow(line[..j])
    {
      assert line[..j + 1][..j] == line[..j];
      if line[j] {
        n := n + 1;
      }
    }
    assert line[..|line|] == line;
  }

  /** The double loop counting `non_bg_pixels`. */
  method CountContent(m: Mask, rows: nat, cols: nat) returns (n: nat)
    requires IsRect(m, rows, cols)
    ensures n == CountMask(m)
  {
    n := 0;
    for i := 0 to rows
      invariant n == CountMask(m[..i])
    {
      assert m[..i + 1][..i] == m[..i];
      var k := CountLine(m[i]);
      n := n + k;
    }
    assert m[..rows] == m;
  }

  /**
   * One region: the content count, the declared size, the four edge counts and
   * the warnings. `None` is the `IndexError` the edge loops raise when the
   * clipped region has rows but no columns, or columns but no rows.
   */
  method CheckRegion(img: Image, h: nat, w: nat, a: Area) returns (report: Option<Report>)
    requires IsRect(img, h, w)
    ensures var rows, cols := ClippedLength(a.minRow, a.maxRow, h), ClippedLength(a.minCol, a.maxCol, w);
      report.None? <==> (rows == 0) != (cols == 0)
    ensures report.Some? ==>
      var r := report.value;
      var rows, cols := ClippedLength(a.minRow, a.maxRow, h), ClippedLength(a.minCol, a.maxCol, w);
      var m := ContentMask(img, h, w, a);
      && r.nonBg == CountMask(m)
      && r.width == a.maxCol - a.minCol + 1 && r.height == a.maxRow - a.minRow + 1
      && (rows > 0 ==>
            && r.top == CountRow(m[0]) && r.bottom == CountRow(m[rows - 1])
            && r.left == CountRow(ColumnOf(m, rows, cols, 0)) && r.right == CountRow(ColumnOf(m, rows, cols, cols - 1)))
      && (rows == 0 ==> r.top == 0 && r.bottom == 0 && r.left == 0 && r.right == 0)
      && r.warnings == Warnings(r.top, r.bottom, r.left, r.right)
  {
    var rows, cols := ClippedLength(a.minRow, a.maxRow, h), ClippedLength(a.minCol, a.maxCol, w);
    if (rows == 0) != (cols == 0) {
      return None;
    }
    var m := ContentMask(img, h, w, a);
    var nonBg := CountContent(m, rows, cols);
    var top, bottom, left, right := EdgeCounts(m, rows, cols);
    report := Some(Report(nonBg, a.maxCol - a.minCol + 1, a.maxRow - a.minRow + 1, top, bottom, left, right,
                          Warnings(top, bottom, left, right)));
  }

  /** The four edge loops: the first and last row, the first and last column; all zero for an empty region. */
  method EdgeCounts(m: Mask, rows: nat, cols: nat) returns (top: nat, bottom: nat, left: nat, right: nat)
    requires IsRect(m, rows, cols) && (rows == 0) == (cols == 0)
    ensures rows > 0 ==>
      && top == CountRow(m[0]) && bottom == CountRow(m[rows - 1])
      && left == CountRow(ColumnOf(m, rows, cols, 0)) && right == CountRow(ColumnOf(m, rows, cols, cols - 1))
    ensures rows == 0 ==> top == 0 && bottom == 0 && left == 0 && right == 0
  {
    top, bottom, left, right := 0, 0, 0, 0;
    if rows > 0 {
      top := CountLine(m[0]);
      bottom := CountLine(m[rows - 1]);
      left := CountLine(ColumnOf(m, rows, cols, 0));
      right := CountLine(ColumnOf(m, rows, cols, cols - 1));
    }
  }

  /**
   * The counts are bounded by the clipped region: the content count by its
   * area, each edge count by that edge's length.
   */
  lemma CountsBounded(m: Mask, rows: nat, cols: nat)
    requires IsRect(m, rows, cols)
    ensures CountMask(m) <= rows * cols
    ensures rows > 0 && cols > 0 ==>
      && CountRow(m[0]) <= cols && CountRow(m[rows - 1]) <= cols
      && CountRow(ColumnOf(m, rows, cols, 0)) <= rows && CountRow(ColumnOf(m, rows, cols, cols - 1)) <= rows
  {
    if rows > 0 && cols > 0 {
      var whole := Box(0, rows - 1, 0, cols - 1);
      assert Covers(m, rows, cols, whole);
      CountMaskInBox(m, rows, cols, whole);
      assert whole.Width() * whole.Height() == cols * rows;
      CountRowBound(m[0]);
      CountRowBound(m[rows - 1]);
      CountRowBound(ColumnOf(m, rows, cols, 0));
      CountRowBound(ColumnOf(m, rows, cols, cols - 1));
    } else {
      assert IsEmptyMask(m, rows, cols);
      CountMaskZero(m, rows, cols);
      assert rows * cols == 0;
    }
  }

  /** `[OK]` exactly when no edge holds more than five content pixels. */
  lemma CompleteIff(r: Report)
    requires r.warnings == Warnings(r.top, r.bottom, r.left, r.right)
    ensures r.Complete() <==> r.top <= EdgeLimit && r.bottom <= EdgeLimit && r.left <= EdgeLimit && r.right <= EdgeLimit
  {
  }
}
