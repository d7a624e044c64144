/**
 * `extract_bosses_manual_regions.py` (in the repository root and under
 * `scripts/`; the two differ only in their region tables): each table entry
 * names a boss and a rough `(min_col, min_row, max_col, max_row)` window; the
 * window is cut out, its content is found with the RGB test at threshold 15,
 * the tight content box is padded by 2 within the window, and the crop gets
 * alpha 0 where the RGB distance to the background is below 10.
 */
module ManualRegions {
  import opened Wrappers
  import opened Pixels
  import opened Masks
  import opened Boxes
  import opened Sprites

  const MaskThreshold := 15
  const ClearThreshold := 10
  const Padding: nat := 2

  /** A table entry's bounds, in the table's own order. */
  datatype Bounds = Bounds(minCol: int, minRow: int, maxCol: int, maxRow: int)

  /** The part of the image a slice covers: its top-left corner and size. */
  datatype Window = Window(top: nat, left: nat, rows: nat, cols: nat)

  /** `img_array[min_row:max_row+1, min_col:max_col+1]` as a window of an `h` by `w` image. */
  function RegionWindow(b: Bounds, h: nat, w: nat): (win: Window)
    ensures win.top + win.rows <= h && win.left + win.cols <= w
  {
    var r0, r1 := SliceBound(b.minRow, h), SliceBound(b.maxRow + 1, h);
    var c0, c1 := SliceBound(b.minCol, w), SliceBound(b.maxCol + 1, w);
    Window(r0, c0, if r1 > r0 then r1 - r0 else 0, if c1 > c0 then c1 - c0 else 0)
  }

  /** When the bounds lie inside the image, the window is exactly the inclusive bounds. */
  lemma WindowOfInnerBounds(b: Bounds, h: nat, w: nat)
    requires 0 <= b.minRow <= b.maxRow < h && 0 <= b.minCol <= b.maxCol < w
    ensures RegionWindow(b, h, w) == Window(b.minRow, b.minCol, b.maxRow - b.minRow + 1, b.maxCol - b.minCol + 1)
  {
  }

  /** A window that clips the far edges to the image when the table overshoots it. */
  lemma WindowClipsOvershoot(b: Bounds, h: nat, w: nat)
    requires 0 <= b.minRow < h && 0 <= b.minCol < w && b.maxRow >= h && b.maxCol >= w
    ensures RegionWindow(b, h, w) == Window(b.minRow, b.minCol, h - b.minRow, w - b.minCol)
  {
  }

  /** The pixels of a window. */
  function Sub(img: Image, h: nat, w: nat, win: Window): (r: Image)
    requires IsRect(img, h, w) && win.top + win.rows <= h && win.left + win.cols <= w
    ensures IsRect(r, win.rows, win.cols)
    ensures forall i, j :: 0 <= i < win.rows && 0 <= j < win.cols ==> r[i][j] == img[win.top + i][win.left + j]
  {
    seq(win.rows, i requires 0 <= i < win.rows =>
      seq(win.cols, j requires 0 <= j < win.cols => img[win.top + i][win.left + j]))
  }

  /** The window holds a pixel that is not background under the RGB test at threshold 15. */
  ghost predicate HasContent(img: Image, h: nat, w: nat, bg: Pixel, b: Bounds)
    requires IsRect(img, h, w)
  {
    var win := RegionWindow(b, h, w);
    var region := Sub(img, h, w, win);
    exists i, j :: 0 <= i < win.rows && 0 <= j < win.cols && !IsBackground(region[i][j], bg, MaskThreshold, RGB)
  }

  /**
   * `cut` is what a region (`rows` by `cols`) gives: the tight box of its
   * content, padded by 2 within the region, cropped, with alpha zeroed where
   * the RGB distance to the background is below 10.
   */
  ghost predicate IsCut(region: Image, rows: nat, cols: nat, bg: Pixel, tight: Box, cut: Image)
    requires IsRect(region, rows, cols)
  {
    && IsTightBox(ForegroundOf(region, rows, cols, bg, MaskThreshold, RGB), rows, cols, tight)
    && IsClearedCrop(region, rows, cols, bg, PadClamp(tight, Padding, rows, cols), cut)
  }

  /** `cut` is box `p` of the region with alpha zeroed where the RGB distance to the background is below 10. */
  ghost predicate IsClearedCrop(region: Image, rows: nat, cols: nat, bg: Pixel, p: Box, cut: Image)
    requires IsRect(region, rows, cols) && p.InGrid(rows, cols)
  {
    && IsRect(cut, p.Height(), p.Width())
    && forall i, j :: 0 <= i < p.Height() && 0 <= j < p.Width() ==>
         cut[i][j] == Cleared(region[p.minRow + i][p.minCol + j], bg, ClearThreshold, RGB)
  }

  /** The window of table entry `b`, cut as `IsCut` says (`tight` in window coordinates). */
  ghost predicate IsCutOf(img: Image, h: nat, w: nat, bg: Pixel, b: Bounds, tight: Box, cut: Image)
    requires IsRect(img, h, w)
  {
    var win := RegionWindow(b, h, w);
    IsCut(Sub(img, h, w, win), win.rows, win.cols, bg, tight, cut)
  }

  /** Mask, tight box, padding, crop and transparency for one region. */
  method CutContent(region: Image, rows: nat, cols: nat, bg: Pixel) returns (cut: Option<Image>, ghost tight: Box)
    requires IsRect(region, rows, cols)
    ensures cut.None? <==> forall i, j :: 0 <= i < rows && 0 <= j < cols ==> IsBackground(region[i][j], bg, MaskThreshold, RGB)
    ensures cut.Some? ==> IsCut(region, rows, cols, bg, tight, cut.value)
  {
    var mask := ForegroundMask(region, rows, cols, bg, MaskThreshold, RGB);
    ForegroundMaskUnique(mask, region, rows, cols, bg, MaskThreshold, RGB);
    var box, _ := BoundingBox(mask, rows, cols);
    if box.None? {
      cut := None;
      tight := Box(0, 0, 0, 0);
      return;
    }
    var content := box.value;
    tight := content;
    ghost var c :| 0 <= c < cols && mask[content.minRow][c];
    assert !IsBackground(region[content.minRow][c], bg, MaskThreshold, RGB);
    var p := PadClamp(content, Padding, rows, cols);
    var cropped := Crop(region, rows, cols, p);
    var cleared := ClearBackground(cropped, p.Height(), p.Width(), bg, ClearThreshold, RGB);
    assert IsTightBox(ForegroundOf(region, rows, cols, bg, MaskThreshold, RGB), rows, cols, content);
    forall i, j | 0 <= i < p.Height() && 0 <= j < p.Width()
      ensures cleared[i][j] == Cleared(region[p.minRow + i][p.minCol + j], bg, ClearThreshold, RGB)
    {
      assert cropped[i][j] == region[p.minRow + i][p.minCol + j];
    }
    assert IsClearedCrop(region, rows, cols, bg, p, cleared);
    cut := Some(cleared);
  }

  /**
   * `extract_boss_from_region`: `None` exactly when the window holds no
   * content; otherwise the padded, cleared crop of its tight content box.
   */
  method ExtractBossFromRegion(img: Image, h: nat, w: nat, bg: Pixel, b: Bounds) returns (cut: Option<Image>, ghost tight: Box)
    requires IsRect(img, h, w)
    ensures cut.None? <==> !HasContent(img, h, w, bg, b)
    ensures cut.Some? ==> IsCutOf(img, h, w, bg, b, tight, cut.value)
  {
    var win := RegionWindow(b, h, w);
    var region := Sub(img, h, w, win);
    cut, tight := CutContent(region, win.rows, win.cols, bg);
  }

  /** A content pixel of the window keeps all four channels in the cut. */
  lemma ContentKeepsAlpha(img: Image, h: nat, w: nat, bg: Pixel, b: Bounds, tight: Box, cut: Image, i: int, j: int)
    requires IsRect(img, h, w) && IsCutOf(img, h, w, bg, b, tight, cut)
    requires var win := RegionWindow(b, h, w);
      var p := PadClamp(tight, Padding, win.rows, win.cols);
      0 <= i < p.Height() && 0 <= j < p.Width()
      && !IsBackground(img[win.top + p.minRow + i][win.left + p.minCol + j], bg, MaskThreshold, RGB)
    ensures var win := RegionWindow(b, h, w);
      var p := PadClamp(tight, Padding, win.rows, win.cols);
      cut[i][j] == img[win.top + p.minRow + i][win.left + p.minCol + j]
  {
    var win := RegionWindow(b, h, w);
    var p := PadClamp(tight, Padding, win.rows, win.cols);
    ForegroundKeepsAlpha(img[win.top + p.minRow + i][win.left + p.minCol + j], bg, ClearThreshold, MaskThreshold, RGB);
  }

  /** A saved boss: `boss_{index}_{name}.png` and the cut image. */
  datatype Saved = Saved(name: string, index: nat, image: Image)

  /** Some saved file carries table index `idx`. */
  ghost predicate IsSavedIndex(saved: seq<Saved>, idx: int) {
    exists k :: 0 <= k < |saved| && saved[k].index == idx
  }

  /** File `s` is the cut of the window of its own table entry, under that entry's name. */
  ghost predicate SavedRight(img: Image, h: nat, w: nat, bg: Pixel, table: seq<(string, Bounds)>, s: Saved, tight: Box)
    requires IsRect(img, h, w)
  {
    s.index < |table| && s.name == table[s.index].0 && IsCutOf(img, h, w, bg, table[s.index].1, tight, s.image)
  }

  /** Every file is the cut of its own entry. */
  ghost predicate AllSavedRight(img: Image, h: nat, w: nat, bg: Pixel, table: seq<(string, Bounds)>, saved: seq<Saved>, tights: seq<Box>)
    requires IsRect(img, h, w)
  {
    |tights| == |saved| && forall k :: 0 <= k < |saved| ==> SavedRight(img, h, w, bg, table, saved[k], tights[k])
  }

  /** After the entries below `idx`: one file per entry with content, in table order. */
  ghost predicate DriverInv(img: Image, h: nat, w: nat, bg: Pixel, table: seq<(string, Bounds)>, idx: int, saved: seq<Saved>, tights: seq<Box>)
    requires IsRect(img, h, w)
  {
    && 0 <= idx <= |table| && AllSavedRight(img, h, w, bg, table, saved, tights)
    && (forall k :: 0 <= k < |saved| ==> saved[k].index < idx)
    && (forall k1, k2 :: 0 <= k1 < k2 < |saved| ==> saved[k1].index < saved[k2].index)
    && (forall i :: 0 <= i < idx ==> (HasContent(img, h, w, bg, table[i].1) <==> IsSavedIndex(saved, i)))
  }

  /** Appending a right file keeps every file right. */
  lemma AppendSavedRight(img: Image, h: nat, w: nat, bg: Pixel, table: seq<(string, Bounds)>, saved: seq<Saved>, tights: seq<Box>, s: Saved, tight: Box)
    requires IsRect(img, h, w) && AllSavedRight(img, h, w, bg, table, saved, tights)
    requires SavedRight(img, h, w, bg, table, s, tight)
    ensures AllSavedRight(img, h, w, bg, table, saved + [s], tights + [tight])
  {
    var saved', tights' := saved + [s], tights + [tight];
    forall k | 0 <= k < |saved'| ensures SavedRight(img, h, w, bg, table, saved'[k], tights'[k]) {
      if k < |saved| {
        assert saved'[k] == saved[k] && tights'[k] == tights[k];
      }
    }
  }

  /** Skipping entry `idx`, whose window has no content. */
  lemma SkipEntry(img: Image, h: nat, w: nat, bg: Pixel, table: seq<(string, Bounds)>, idx: int, saved: seq<Saved>, tights: seq<Box>)
    requires IsRect(img, h, w) && idx < |table| && DriverInv(img, h, w, bg, table, idx, saved, tights)
    requires !HasContent(img, h, w, bg, table[idx].1)
    ensures DriverInv(img, h, w, bg, table, idx + 1, saved, tights)
  {
  }

  /** Saving entry `idx`, whose window has content, as the next file. */
  lemma SaveEntry(img: Image, h: nat, w: nat, bg: Pixel, table: seq<(string, Bounds)>, idx: int, saved: seq<Saved>, tights: seq<Box>, s: Saved, tight: Box)
    requires IsRect(img, h, w) && idx < |table| && DriverInv(img, h, w, bg, table, idx, saved, tights)
    requires HasContent(img, h, w, bg, table[idx].1)
    requires s.index == idx && SavedRight(img, h, w, bg, table, s, tight)
    ensures DriverInv(img, h, w, bg, table, idx + 1, saved + [s], tights + [tight])
  {
    AppendSavedRight(img, h, w, bg, table, saved, tights, s, tight);
    AppendIndex(saved, s, idx);
  }

  /** Appending a file with a new index `idx`, above every earlier one, leaves the earlier indices as they were. */
  lemma AppendIndex(saved: seq<Saved>, s: Saved, idx: int)
    requires s.index == idx && forall k :: 0 <= k < |saved| ==> saved[k].index < idx
    requires forall k1, k2 :: 0 <= k1 < k2 < |saved| ==> saved[k1].index < saved[k2].index
    ensures forall k :: 0 <= k < |saved + [s]| ==> (saved + [s])[k].index <= idx
    ensures forall k1, k2 :: 0 <= k1 < k2 < |saved + [s]| ==> (saved + [s])[k1].index < (saved + [s])[k2].index
    ensures IsSavedIndex(saved + [s], idx) && !IsSavedIndex(saved, idx)
    ensures forall i :: i != idx ==> (IsSavedIndex(saved + [s], i) <==> IsSavedIndex(saved, i))
  {
    var saved' := saved + [s];
    assert saved'[|saved'| - 1].index == idx;
    forall i | i != idx ensures IsSavedIndex(saved', i) <==> IsSavedIndex(saved, i) {
      if IsSavedIndex(saved', i) {
        var k :| 0 <= k < |saved'| && saved'[k].index == i;
        assert k < |saved| && saved[k] == saved'[k];
      }
      if IsSavedIndex(saved, i) {
        var k :| 0 <= k < |saved| && saved[k].index == i;
        assert saved'[k] == saved[k];
      }
    }
  }

  /** One table entry: cut its window and save it unless it is empty. */
  method DriverStep(img: Image, h: nat, w: nat, bg: Pixel, table: seq<(string, Bounds)>, idx: int, saved: seq<Saved>, ghost tights: seq<Box>)
    returns (saved': seq<Saved>, ghost tights': seq<Box>)
    requires IsRect(img, h, w) && idx < |table| && DriverInv(img, h, w, bg, table, idx, saved, tights)
    ensures DriverInv(img, h, w, bg, table, idx + 1, saved', tights')
  {
    var (name, bounds) := table[idx];
    var cut, tight := ExtractBossFromRegion(img, h, w, bg, bounds);
    if cut.None? {
      SkipEntry(img, h, w, bg, table, idx, saved, tights);
      saved', tights' := saved, tights;
    } else {
      var s := Saved(name, idx, cut.value);
      SaveEntry(img, h, w, bg, table, idx, saved, tights, s, tight);
      saved', tights' := saved + [s], tights + [tight];
    }
  }

  /**
   * `extract_bosses_manual`: entries whose window has no content are skipped;
   * every other entry is saved under its own table index, so skipped entries
   * leave gaps in the numbering.
   */
  method ExtractBossesManual(img: Image, h: nat, w: nat, table: seq<(string, Bounds)>)
    returns (saved: seq<Saved>, ghost tights: seq<Box>)
    requires IsRect(img, h, w) && h > 0 && w > 0
    ensures |tights| == |saved|
    ensures forall k :: 0 <= k < |saved| ==> SavedRight(img, h, w, BackgroundColor(img), table, saved[k], tights[k])
    ensures forall k1, k2 :: 0 <= k1 < k2 < |saved| ==> saved[k1].index < saved[k2].index
    ensures forall idx :: 0 <= idx < |table| ==>
      (HasContent(img, h, w, BackgroundColor(img), table[idx].1) <==> IsSavedIndex(saved, idx))
  {
    var bg := BackgroundColor(img);
    saved, tights := [], [];
    for idx := 0 to |table|
      invariant DriverInv(img, h, w, bg, table, idx, saved, tights)
    {
      saved, tights := DriverStep(img, h, w, bg, table, idx, saved, tights);
    }
  }
}
