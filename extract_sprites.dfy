/**
 * `extract_sprites.py`: slice a sprite sheet into bands of rows that hold
 * content, slice each band into runs of columns that hold content, cut each
 * cell out with its background made transparent, and file the sprites of each
 * band under a category chosen from the band's index and average height.
 *
 * The background test is the one with the default threshold 30 over all four
 * channels.
 */
module ExtractSprites {
  import opened Pixels
  import opened Masks
  import opened Runs
  import opened Sprites

  const Threshold := 30

  ghost predicate RowHasContent(img: Image, h: nat, w: nat, bg: Pixel, r: int)
    requires IsRect(img, h, w) && 0 <= r < h
  {
    exists c :: 0 <= c < w && !IsBackground(img[r][c], bg, Threshold, RGBA)
  }

  /** For each row, whether it has a pixel that is not background. */
  ghost function ContentRows(img: Image, h: nat, w: nat, bg: Pixel): (flags: seq<bool>)
    requires IsRect(img, h, w)
    ensures |flags| == h
  {
    seq(h, r requires 0 <= r < h => RowHasContent(img, h, w, bg, r))
  }

  ghost predicate ColHasContent(img: Image, h: nat, w: nat, bg: Pixel, rowStart: int, rowEnd: int, c: int)
    requires IsRect(img, h, w) && 0 <= rowStart && rowEnd < h && 0 <= c < w
  {
    exists r :: rowStart <= r <= rowEnd && !IsBackground(img[r][c], bg, Threshold, RGBA)
  }

  /** For each column, whether rows `rowStart..rowEnd` hold a pixel of it that is not background. */
  ghost function ContentCols(img: Image, h: nat, w: nat, bg: Pixel, rowStart: int, rowEnd: int): (flags: seq<bool>)
    requires IsRect(img, h, w) && 0 <= rowStart && rowEnd < h
    ensures |flags| == w
  {
    seq(w, c requires 0 <= c < w => ColHasContent(img, h, w, bg, rowStart, rowEnd, c))
  }

  /** `row_has_content`: for each row, scan until the first non-background pixel. */
  method RowContent(img: Image, h: nat, w: nat, bg: Pixel) returns (flags: seq<bool>)
    requires IsRect(img, h, w)
    ensures flags == ContentRows(img, h, w, bg)
  {
    flags := [];
    for row := 0 to h
      invariant flags == ContentRows(img, h, w, bg)[..row]
    {
      var hasContent := false;
      var col := 0;
      while col < w
        invariant 0 <= col <= w
        invariant !hasContent ==> forall c :: 0 <= c < col ==> IsBackground(img[row][c], bg, Threshold, RGBA)
        invariant hasContent ==> RowHasContent(img, h, w, bg, row)
        decreases w - col, if hasContent then 0 else 1
      {
        if !IsBackground(img[row][col], bg, Threshold, RGBA) {
          hasContent := true;
          break;
        }
        col := col + 1;
      }
      flags := flags + [hasContent];
    }
  }

  /** `col_has_content`: for each column, scan rows `rowStart..rowEnd` until the first non-background pixel. */
  method ColumnContent(img: Image, h: nat, w: nat, bg: Pixel, rowStart: int, rowEnd: int) returns (flags: seq<bool>)
    requires IsRect(img, h, w) && 0 <= rowStart && rowEnd < h
    ensures flags == ContentCols(img, h, w, bg, rowStart, rowEnd)
  {
    flags := [];
    for col := 0 to w
      invariant flags == ContentCols(img, h, w, bg, rowStart, rowEnd)[..col]
    {
      var hasContent := false;
      var row := rowStart;
      while row <= rowEnd
        invariant rowStart <= row && (row <= rowEnd + 1 || row == rowStart)
        invariant !hasContent ==> forall r :: rowStart <= r < row ==> IsBackground(img[r][col], bg, Threshold, RGBA)
        invariant hasContent ==> ColHasContent(img, h, w, bg, rowStart, rowEnd, col)
        decreases rowEnd + 1 - row, if hasContent then 0 else 1
      {
        if !IsBackground(img[row][col], bg, Threshold, RGBA) {
          hasContent := true;
          break;
        }
        row := row + 1;
      }
      flags := flags + [hasContent];
    }
  }

  /** `find_sprite_rows`: the maximal bands of rows with content. */
  method FindSpriteRows(img: Image, h: nat, w: nat, bg: Pixel) returns (rows: seq<Run>)
    requires IsRect(img, h, w)
    ensures IsRunsOf(ContentRows(img, h, w, bg), rows)
  {
    var flags := RowContent(img, h, w, bg);
    rows := FindRuns(flags);
  }

  /** `find_sprite_columns`: the maximal runs of columns with content inside one band. */
  method FindSpriteColumns(img: Image, h: nat, w: nat, rowStart: int, rowEnd: int, bg: Pixel) returns (cols: seq<Run>)
    requires IsRect(img, h, w) && 0 <= rowStart && rowEnd < h
    ensures IsRunsOf(ContentCols(img, h, w, bg, rowStart, rowEnd), cols)
  {
    var flags := ColumnContent(img, h, w, bg, rowStart, rowEnd);
    cols := FindRuns(flags);
  }

  /** One extracted sprite: its transparent-background image, its size, its band and its place in the band. */
  datatype Sprite = Sprite(image: Image, width: int, height: int, row: nat, spriteInRow: nat)

  /** Sprite `s` is box `b` of the sheet with background alpha zeroed. */
  ghost predicate CutFrom(img: Image, h: nat, w: nat, bg: Pixel, s: Sprite, b: Box)
    requires IsRect(img, h, w)
  {
    && b.InGrid(h, w)
    && s.width == b.Width() >= 1 && s.height == b.Height() >= 1
    && IsRect(s.image, s.height, s.width)
    && (forall r, c :: 0 <= r < s.height && 0 <= c < s.width ==>
          s.image[r][c] == Cleared(img[b.minRow + r][b.minCol + c], bg, Threshold, RGBA))
  }

  /** Sprites are listed band by band, and by place within a band. */
  predicate InSheetOrder(ss: seq<Sprite>) {
    forall i, j :: 0 <= i < j < |ss| ==>
      ss[i].row < ss[j].row || (ss[i].row == ss[j].row && ss[i].spriteInRow < ss[j].spriteInRow)
  }

  /** Cutting box `b` out of the sheet and clearing its background. */
  method CutSprite(img: Image, h: nat, w: nat, bg: Pixel, b: Box, rowIdx: nat, spriteIdx: nat) returns (s: Sprite)
    requires IsRect(img, h, w) && b.InGrid(h, w)
    ensures CutFrom(img, h, w, bg, s, b) && s.row == rowIdx && s.spriteInRow == spriteIdx
  {
    var region := Crop(img, h, w, b);
    region := ClearBackground(region, b.Height(), b.Width(), bg, Threshold, RGBA);
    s := Sprite(region, b.Width(), b.Height(), rowIdx, spriteIdx);
  }

  /** The sprites of one band: one per maximal run of content columns within the band's rows. */
  method ExtractBand(img: Image, h: nat, w: nat, bg: Pixel, rowIdx: nat, band: Run) returns (sprites: seq<Sprite>, ghost boxes: seq<Box>, ghost cols: seq<Run>)
    requires IsRect(img, h, w) && 0 <= band.start <= band.end < h
    ensures |boxes| == |sprites|
    ensures forall i :: 0 <= i < |sprites| ==>
      && CutFrom(img, h, w, bg, sprites[i], boxes[i])
      && boxes[i].minRow == band.start && boxes[i].maxRow == band.end
      && sprites[i].row == rowIdx && sprites[i].spriteInRow == i
    ensures IsRunsOf(ContentCols(img, h, w, bg, band.start, band.end), cols) && |cols| == |sprites|
    ensures forall i :: 0 <= i < |cols| ==> boxes[i].minCol == cols[i].start && boxes[i].maxCol == cols[i].end
  {
    var spriteCols := FindSpriteColumns(img, h, w, band.start, band.end, bg);
    cols := spriteCols;
    sprites, boxes := [], [];
    for spriteIdx := 0 to |spriteCols|
      invariant |boxes| == |sprites| == spriteIdx
      invariant forall i :: 0 <= i < |sprites| ==>
        && CutFrom(img, h, w, bg, sprites[i], boxes[i])
        && boxes[i].minRow == band.start && boxes[i].maxRow == band.end
        && sprites[i].row == rowIdx && sprites[i].spriteInRow == i
      invariant forall i :: 0 <= i < |boxes| ==> boxes[i].minCol == cols[i].start && boxes[i].maxCol == cols[i].end
    {
      var box := Box(band.start, band.end, spriteCols[spriteIdx].start, spriteCols[spriteIdx].end);
      var sprite := CutSprite(img, h, w, bg, box, rowIdx, spriteIdx);
      sprites := sprites + [sprite];
      boxes := boxes + [box];
    }
  }

  /**
   * `extract_sprites_smart`. The bands are the maximal runs of content rows
   * and `cols[r]` the maximal runs of content columns within band `r`. Sprite
   * `k` is the box of its band's rows and of column run `spriteInRow` of that
   * band, with background alpha zeroed, and every column run of every band
   * gives a sprite; sprites come band by band, left to right.
   */
  method ExtractSpritesSmart(img: Image, h: nat, w: nat)
    returns (sprites: seq<Sprite>, ghost boxes: seq<Box>, ghost bands: seq<Run>, ghost cols: seq<seq<Run>>)
    requires IsRect(img, h, w) && h > 0 && w > 0
    ensures IsRunsOf(ContentRows(img, h, w, BackgroundColor(img)), bands)
    ensures |cols| == |bands|
    ensures forall r :: 0 <= r < |bands| ==>
      IsRunsOf(ContentCols(img, h, w, BackgroundColor(img), bands[r].start, bands[r].end), cols[r])
    ensures |boxes| == |sprites|
    ensures forall i :: 0 <= i < |sprites| ==>
      && CutFrom(img, h, w, BackgroundColor(img), sprites[i], boxes[i])
      && sprites[i].row < |bands|
      && boxes[i].minRow == bands[sprites[i].row].start && boxes[i].maxRow == bands[sprites[i].row].end
      && sprites[i].spriteInRow < |cols[sprites[i].row]|
      && boxes[i].minCol == cols[sprites[i].row][sprites[i].spriteInRow].start
      && boxes[i].maxCol == cols[sprites[i].row][sprites[i].spriteInRow].end
    ensures forall r, j :: 0 <= r < |cols| && 0 <= j < |cols[r]| ==> HasSprite(sprites, r, j)
    ensures InSheetOrder(sprites)
  {
    var bg := BackgroundColor(img);
    var rows := FindSpriteRows(img, h, w, bg);
    bands := rows;
    sprites, boxes, cols := [], [], [];
    for rowIdx := 0 to |rows|
      invariant SheetInv(img, h, w, bg, rows, rowIdx, sprites, boxes, cols)
    {
      var band, bandBoxes, bandCols := ExtractBand(img, h, w, bg, rowIdx, rows[rowIdx]);
      SheetAppend(img, h, w, bg, rows, rowIdx, sprites, boxes, cols, band, bandBoxes, bandCols);
      sprites, boxes, cols := sprites + band, boxes + bandBoxes, cols + [bandCols];
    }
  }

  /** The sprites of the bands below `upTo`, cut from their boxes, one per column run, in sheet order. */
  ghost predicate SheetInv(img: Image, h: nat, w: nat, bg: Pixel, bands: seq<Run>, upTo: int,
                           sprites: seq<Sprite>, boxes: seq<Box>, cols: seq<seq<Run>>)
    requires IsRect(img, h, w) && IsRunsOf(ContentRows(img, h, w, bg), bands)
  {
    && 0 <= upTo <= |bands| && |cols| == upTo && |boxes| == |sprites|
    && (forall r :: 0 <= r < upTo ==> IsRunsOf(ContentCols(img, h, w, bg, bands[r].start, bands[r].end), cols[r]))
    && (forall i :: 0 <= i < |sprites| ==>
          && CutFrom(img, h, w, bg, sprites[i], boxes[i])
          && sprites[i].row < upTo
          && boxes[i].minRow == bands[sprites[i].row].start && boxes[i].maxRow == bands[sprites[i].row].end
          && sprites[i].spriteInRow < |cols[sprites[i].row]|
          && boxes[i].minCol == cols[sprites[i].row][sprites[i].spriteInRow].start
          && boxes[i].maxCol == cols[sprites[i].row][sprites[i].spriteInRow].end)
    && (forall r, j :: 0 <= r < upTo && 0 <= j < |cols[r]| ==> HasSprite(sprites, r, j))
    && InSheetOrder(sprites)
  }

  /** Appending the sprites of band `rowIdx` extends the invariant to that band. */
  lemma SheetAppend(img: Image, h: nat, w: nat, bg: Pixel, bands: seq<Run>, rowIdx: int,
                    sprites: seq<Sprite>, boxes: seq<Box>, cols: seq<seq<Run>>,
                    band: seq<Sprite>, bandBoxes: seq<Box>, bandCols: seq<Run>)
    requires IsRect(img, h, w) && IsRunsOf(ContentRows(img, h, w, bg), bands) && 0 <= rowIdx < |bands|
    requires SheetInv(img, h, w, bg, bands, rowIdx, sprites, boxes, cols)
    requires |bandBoxes| == |band| == |bandCols|
    requires forall i :: 0 <= i < |band| ==>
      && CutFrom(img, h, w, bg, band[i], bandBoxes[i])
      && bandBoxes[i].minRow == bands[rowIdx].start && bandBoxes[i].maxRow == bands[rowIdx].end
      && band[i].row == rowIdx && band[i].spriteInRow == i
      && bandBoxes[i].minCol == bandCols[i].start && bandBoxes[i].maxCol == bandCols[i].end
    requires IsRunsOf(ContentCols(img, h, w, bg, bands[rowIdx].start, bands[rowIdx].end), bandCols)
    ensures SheetInv(img, h, w, bg, bands, rowIdx + 1, sprites + band, boxes + bandBoxes, cols + [bandCols])
  {
    var ss, bs, cs := sprites + band, boxes + bandBoxes, cols + [bandCols];
    forall r | 0 <= r < rowIdx + 1
      ensures IsRunsOf(ContentCols(img, h, w, bg, bands[r].start, bands[r].end), cs[r])
    {
      if r < rowIdx {
        assert cs[r] == cols[r];
      }
    }
    BoxesAppend(img, h, w, bg, bands, rowIdx, sprites, boxes, cols, band, bandBoxes, bandCols);
    CoverAppend(sprites, cols, band, bandCols, rowIdx);
    OrderAppend(sprites, band, rowIdx);
  }

  /** Band `rowIdx`'s sprites are cut from their boxes, one per column run, like those of earlier bands. */
  lemma BoxesAppend(img: Image, h: nat, w: nat, bg: Pixel, bands: seq<Run>, rowIdx: int,
                    sprites: seq<Sprite>, boxes: seq<Box>, cols: seq<seq<Run>>,
                    band: seq<Sprite>, bandBoxes: seq<Box>, bandCols: seq<Run>)
    requires IsRect(img, h, w) && 0 <= rowIdx < |bands| && |cols| == rowIdx && |boxes| == |sprites|
    requires forall i :: 0 <= i < |sprites| ==>
      && CutFrom(img, h, w, bg, sprites[i], boxes[i])
      && sprites[i].row < rowIdx
      && boxes[i].minRow == bands[sprites[i].row].start && boxes[i].maxRow == bands[sprites[i].row].end
      && sprites[i].spriteInRow < |cols[sprites[i].row]|
      && boxes[i].minCol == cols[sprites[i].row][sprites[i].spriteInRow].start
      && boxes[i].maxCol == cols[sprites[i].row][sprites[i].spriteInRow].end
    requires |bandBoxes| == |band| == |bandCols|
    requires forall i :: 0 <= i < |band| ==>
      && CutFrom(img, h, w, bg, band[i], bandBoxes[i])
      && bandBoxes[i].minRow == bands[rowIdx].start && bandBoxes[i].maxRow == bands[rowIdx].end
      && band[i].row == rowIdx && band[i].spriteInRow == i
      && bandBoxes[i].minCol == bandCols[i].start && bandBoxes[i].maxCol == bandCols[i].end
    ensures forall i :: 0 <= i < |sprites + band| ==>
      && CutFrom(img, h, w, bg, (sprites + band)[i], (boxes + bandBoxes)[i])
      && (sprites + band)[i].row < rowIdx + 1
      && (boxes + bandBoxes)[i].minRow == bands[(sprites + band)[i].row].start && (boxes + bandBoxes)[i].maxRow == bands[(sprites + band)[i].row].end
      && (sprites + band)[i].spriteInRow < |(cols + [bandCols])[(sprites + band)[i].row]|
      && (boxes + bandBoxes)[i].minCol == (cols + [bandCols])[(sprites + band)[i].row][(sprites + band)[i].spriteInRow].start
      && (boxes + bandBoxes)[i].maxCol == (cols + [bandCols])[(sprites + band)[i].row][(sprites + band)[i].spriteInRow].end
  {
    var ss: seq<Sprite>, bs: seq<Box>, cs: seq<seq<Run>> := sprites + band, boxes + bandBoxes, cols + [bandCols];
    forall i | 0 <= i < |ss|
      ensures && CutFrom(img, h, w, bg, ss[i], bs[i])
              && ss[i].row < rowIdx + 1
              && bs[i].minRow == bands[ss[i].row].start && bs[i].maxRow == bands[ss[i].row].end
              && ss[i].spriteInRow < |cs[ss[i].row]|
              && bs[i].minCol == cs[ss[i].row][ss[i].spriteInRow].start
              && bs[i].maxCol == cs[ss[i].row][ss[i].spriteInRow].end
    {
      if i < |sprites| {
        assert ss[i] == sprites[i] && bs[i] == boxes[i] && cs[ss[i].row] == cols[ss[i].row];
      } else {
        assert ss[i] == band[i - |sprites|] && bs[i] == bandBoxes[i - |sprites|];
      }
    }
  }

  /** Some sprite is column run `j` of band `r`. */
  ghost predicate HasSprite(sprites: seq<Sprite>, r: int, j: int) {
    exists i :: 0 <= i < |sprites| && sprites[i].row == r && sprites[i].spriteInRow == j
  }

  /** Band `rowIdx`'s sprites, numbered by run, cover its runs and keep the earlier ones covered. */
  lemma CoverAppend(sprites: seq<Sprite>, cols: seq<seq<Run>>, band: seq<Sprite>, bandCols: seq<Run>, rowIdx: int)
    requires |cols| == rowIdx && |band| == |bandCols|
    requires forall r, j :: 0 <= r < rowIdx && 0 <= j < |cols[r]| ==> HasSprite(sprites, r, j)
    requires forall i :: 0 <= i < |band| ==> band[i].row == rowIdx && band[i].spriteInRow == i
    ensures forall r, j :: 0 <= r < rowIdx + 1 && 0 <= j < |(cols + [bandCols])[r]| ==> HasSprite(sprites + band, r, j)
  {
    var ss, cs := sprites + band, cols + [bandCols];
    forall r, j | 0 <= r < rowIdx + 1 && 0 <= j < |cs[r]|
      ensures HasSprite(ss, r, j)
    {
      if r < rowIdx {
        assert cs[r] == cols[r] && HasSprite(sprites, r, j);
        var i :| 0 <= i < |sprites| && sprites[i].row == r && sprites[i].spriteInRow == j;
        assert ss[i] == sprites[i];
      } else {
        assert ss[|sprites| + j] == band[j];
      }
    }
  }

  /** Band `rowIdx`'s sprites, numbered by run, go after those of earlier bands. */
  lemma OrderAppend(sprites: seq<Sprite>, band: seq<Sprite>, rowIdx: int)
    requires InSheetOrder(sprites) && forall i :: 0 <= i < |sprites| ==> sprites[i].row < rowIdx
    requires forall i :: 0 <= i < |band| ==> band[i].row == rowIdx && band[i].spriteInRow == i
    ensures InSheetOrder(sprites + band)
  {
    var ss := sprites + band;
    forall i, j | 0 <= i < j < |ss|
      ensures ss[i].row < ss[j].row || (ss[i].row == ss[j].row && ss[i].spriteInRow < ss[j].spriteInRow)
    {
      if j < |sprites| {
        assert ss[i] == sprites[i] && ss[j] == sprites[j];
      } else if i < |sprites| {
        assert ss[i] == sprites[i] && ss[j] == band[j - |sprites|];
      } else {
        assert ss[i] == band[i - |sprites|] && ss[j] == band[j - |sprites|];
      }
    }
  }

  /** Sprites that share a band share its height. */
  lemma BandHeights(img: Image, h: nat, w: nat, sprites: seq<Sprite>, boxes: seq<Box>, bands: seq<Run>, i: int, j: int)
    requires IsRect(img, h, w) && h > 0 && w > 0 && |boxes| == |sprites|
    requires forall i :: 0 <= i < |sprites| ==>
      && CutFrom(img, h, w, BackgroundColor(img), sprites[i], boxes[i])
      && sprites[i].row < |bands|
      && boxes[i].minRow == bands[sprites[i].row].start && boxes[i].maxRow == bands[sprites[i].row].end
    requires 0 <= i < |sprites| && 0 <= j < |sprites| && sprites[i].row == sprites[j].row
    ensures sprites[i].height == sprites[j].height == bands[sprites[i].row].end - bands[sprites[i].row].start + 1
  {
  }

  datatype Category = Players | SmallMonsters | Monsters | EliteMonsters | Bosses

  /**
   * The category of band `rowIdx` with `count` sprites of total height
   * `sumHeight`: the first band holds the players; the others go by average
   * height (at most 25, 35 or 50, else bosses), compared exactly.
   */
  function CategoryOf(rowIdx: nat, sumHeight: int, count: nat): (cat: Category)
    requires count > 0
    ensures rowIdx == 0 <==> cat == Players
    ensures cat == SmallMonsters ==> sumHeight <= 25 * count
    ensures cat == Bosses ==> sumHeight > 50 * count
  {
    if rowIdx == 0 then Players
    else if sumHeight <= 25 * count then SmallMonsters
    else if sumHeight <= 35 * count then Monsters
    else if sumHeight <= 50 * count then EliteMonsters
    else Bosses
  }

  /** The category of a banded size, by the height every sprite of the band shares. */
  function CategoryOfHeight(rowIdx: nat, height: int): Category {
    if rowIdx == 0 then Players
    else if height <= 25 then SmallMonsters
    else if height <= 35 then Monsters
    else if height <= 50 then EliteMonsters
    else Bosses
  }

  /** When every sprite of a band has the same height, the average is that height. */
  lemma {:induction false} UniformBandCategory(rowIdx: nat, height: int, count: nat)
    requires count > 0
    ensures CategoryOf(rowIdx, height * count, count) == CategoryOfHeight(rowIdx, height)
  {
    ScaleCompare(height, 25, count);
    ScaleCompare(height, 35, count);
    ScaleCompare(height, 50, count);
  }

  /** Multiplying both sides by a positive count keeps the comparison. */
  lemma {:induction false} ScaleCompare(height: int, t: int, count: nat)
    requires count > 0
    ensures height * count <= t * count <==> height <= t
  {
    if count > 1 {
      ScaleCompare(height, t, count - 1);
      assert height * count == height * (count - 1) + height;
      assert t * count == t * (count - 1) + t;
    }
  }

  function SumHeights(ss: seq<Sprite>): int {
    if |ss| == 0 then 0 else SumHeights(ss[..|ss| - 1]) + ss[|ss| - 1].height
  }

  /** The sprites of band `row`, in input order. */
  function InRow(ss: seq<Sprite>, row: nat): (r: seq<Sprite>)
    ensures forall i :: 0 <= i < |r| ==> r[i] in ss && r[i].row == row
    ensures |r| <= |ss|
  {
    if |ss| == 0 then []
    else InRow(ss[..|ss| - 1], row) + (if ss[|ss| - 1].row == row then [ss[|ss| - 1]] else [])
  }

  /** The saved file `row{row}_sprite{index}.png` in the directory of `category`. */
  datatype Saved = Saved(category: Category, row: nat, index: nat, sprite: Sprite)

  /** File `f` holds sprite `f.index` of its band's group, under the band's category. */
  ghost predicate SavedRight(sprites: seq<Sprite>, f: Saved) {
    var group := InRow(sprites, f.row);
    && f.index < |group| && f.sprite == group[f.index]
    && f.category == CategoryOf(f.row, SumHeights(group), |group|)
  }

  ghost predicate IsSaved(saved: seq<Saved>, s: Sprite) {
    exists k :: 0 <= k < |saved| && saved[k].sprite == s
  }

  /** Some file is `row{row}_sprite{index}.png`. */
  ghost predicate HasFile(saved: seq<Saved>, row: nat, index: nat) {
    exists k :: 0 <= k < |saved| && saved[k].row == row && saved[k].index == index
  }

  /** Every place below band `upTo` of every band has its file. */
  ghost predicate PlacesSaved(sprites: seq<Sprite>, saved: seq<Saved>, upTo: nat) {
    forall r: nat, i: nat :: r < upTo && i < |InRow(sprites, r)| ==> HasFile(saved, r, i)
  }

  predicate FileOrder(saved: seq<Saved>) {
    forall k1, k2 :: 0 <= k1 < k2 < |saved| ==>
      saved[k1].row < saved[k2].row || (saved[k1].row == saved[k2].row && saved[k1].index < saved[k2].index)
  }

  /** `rows[row].append(sprite)` over all sprites: each band's group, in input order. */
  method GroupByRow(sprites: seq<Sprite>) returns (rows: map<nat, seq<Sprite>>, maxRow: nat)
    ensures forall r :: r in rows <==> |InRow(sprites, r)| > 0
    ensures forall r :: r in rows ==> rows[r] == InRow(sprites, r)
    ensures forall j :: 0 <= j < |sprites| ==> sprites[j].row <= maxRow
  {
    rows, maxRow := map[], 0;
    for i := 0 to |sprites|
      invariant forall r :: r in rows <==> |InRow(sprites[..i], r)| > 0
      invariant forall r :: r in rows ==> rows[r] == InRow(sprites[..i], r)
      invariant forall j :: 0 <= j < i ==> sprites[j].row <= maxRow
    {
      var row := sprites[i].row;
      InRowStep(sprites, i);
      if row !in rows {
        rows := rows[row := []];
      }
      rows := rows[row := rows[row] + [sprites[i]]];
      if row > maxRow { maxRow := row; }
    }
    assert sprites[..|sprites|] == sprites;
  }

  /** One more sprite extends only its own band's group. */
  lemma InRowStep(ss: seq<Sprite>, i: int)
    requires 0 <= i < |ss|
    ensures forall r :: InRow(ss[..i + 1], r) == InRow(ss[..i], r) + (if ss[i].row == r then [ss[i]] else [])
  {
    assert ss[..i + 1][..i] == ss[..i];
  }

  /** `sum(s['height'] for s in row_sprites)`. */
  method BandHeightSum(group: seq<Sprite>) returns (sum: int)
    ensures sum == SumHeights(group)
  {
    sum := 0;
    for j := 0 to |group|
      invariant sum == SumHeights(group[..j])
    {
      assert group[..j + 1][..j] == group[..j];
      sum := sum + group[j].height;
    }
    assert group[..|group|] == group;
  }

  /** The files of one band, numbered by place in the group. */
  method SaveBand(sprites: seq<Sprite>, rowIdx: nat, group: seq<Sprite>) returns (files: seq<Saved>)
    requires group == InRow(sprites, rowIdx) && |group| > 0
    ensures |files| == |group|
    ensures forall k :: 0 <= k < |files| ==> SavedRight(sprites, files[k]) && files[k].row == rowIdx && files[k].index == k
    ensures forall i :: 0 <= i < |sprites| && sprites[i].row == rowIdx ==> IsSaved(files, sprites[i])
  {
    var sum := BandHeightSum(group);
    var category := CategoryOf(rowIdx, sum, |group|);
    files := [];
    for j := 0 to |group|
      invariant |files| == j
      invariant forall k :: 0 <= k < j ==> files[k] == Saved(category, rowIdx, k, group[k])
    {
      files := files + [Saved(category, rowIdx, j, group[j])];
    }
    BandFilesRight(sprites, rowIdx, group, files);
    BandAllSaved(sprites, rowIdx, group, files);
  }

  /** File k of the band, holding sprite k of its group under the band's category, is right. */
  lemma BandFilesRight(sprites: seq<Sprite>, rowIdx: nat, group: seq<Sprite>, files: seq<Saved>)
    requires group == InRow(sprites, rowIdx) && |group| > 0 && |files| == |group|
    requires forall k :: 0 <= k < |files| ==> files[k] == Saved(CategoryOf(rowIdx, SumHeights(group), |group|), rowIdx, k, group[k])
    ensures forall k :: 0 <= k < |files| ==> SavedRight(sprites, files[k]) && files[k].row == rowIdx && files[k].index == k
  {
  }

  /** Every sprite of the band is in the band's files when file k holds sprite k of its group. */
  lemma BandAllSaved(sprites: seq<Sprite>, rowIdx: nat, group: seq<Sprite>, files: seq<Saved>)
    requires group == InRow(sprites, rowIdx) && |files| == |group|
    requires forall k :: 0 <= k < |files| ==> files[k].sprite == group[k]
    ensures forall i :: 0 <= i < |sprites| && sprites[i].row == rowIdx ==> IsSaved(files, sprites[i])
  {
    forall i | 0 <= i < |sprites| && sprites[i].row == rowIdx
      ensures IsSaved(files, sprites[i])
    {
      InRowHas(sprites, i);
      var k :| 0 <= k < |group| && group[k] == sprites[i];
      assert files[k].sprite == sprites[i];
    }
  }


  /**
   * `classify_and_save_sprites`. Sprites are grouped by band in input order
   * and bands are visited in increasing order; every sprite of a band is saved
   * under the band's category, numbered by its place in the group.
   */
  method ClassifyAndSave(sprites: seq<Sprite>) returns (saved: seq<Saved>)
    ensures sprites == [] ==> saved == []
    ensures forall k :: 0 <= k < |saved| ==> SavedRight(sprites, saved[k])
    ensures forall i :: 0 <= i < |sprites| ==> IsSaved(saved, sprites[i])
    ensures forall r: nat, i: nat :: i < |InRow(sprites, r)| ==> HasFile(saved, r, i)
    ensures FileOrder(saved)
  {
    saved := [];
    if |sprites| == 0 {
      return;
    }
    var rows, maxRow := GroupByRow(sprites);
    for rowIdx := 0 to maxRow + 1
      invariant SavedBelow(sprites, saved, rowIdx)
    {
      if rowIdx in rows {
        var files := SaveBand(sprites, rowIdx, rows[rowIdx]);
        AppendBand(sprites, saved, files, rowIdx);
        saved := saved + files;
      } else {
        SkipBand(sprites, saved, rowIdx);
      }
    }
    AllBandsSaved(sprites, saved, maxRow);
  }

  /** The files saved once the bands below `upTo` are done. */
  ghost predicate SavedBelow(sprites: seq<Sprite>, saved: seq<Saved>, upTo: nat) {
    && (forall k :: 0 <= k < |saved| ==> SavedRight(sprites, saved[k]) && saved[k].row < upTo)
    && (forall i :: 0 <= i < |sprites| && sprites[i].row < upTo ==> IsSaved(saved, sprites[i]))
    && PlacesSaved(sprites, saved, upTo)
    && FileOrder(saved)
  }

  /** Appending the files of band `rowIdx` after those of earlier bands. */
  lemma AppendBand(sprites: seq<Sprite>, saved: seq<Saved>, files: seq<Saved>, rowIdx: nat)
    requires SavedBelow(sprites, saved, rowIdx)
    requires |files| == |InRow(sprites, rowIdx)|
    requires forall k :: 0 <= k < |files| ==> SavedRight(sprites, files[k]) && files[k].row == rowIdx && files[k].index == k
    requires forall i :: 0 <= i < |sprites| && sprites[i].row == rowIdx ==> IsSaved(files, sprites[i])
    ensures SavedBelow(sprites, saved + files, rowIdx + 1)
  {
    AppendBandFiles(sprites, saved, files, rowIdx);
    AppendBandPlaces(sprites, saved, files, rowIdx);
  }

  /** The files and sprites part of `AppendBand`. */
  lemma AppendBandFiles(sprites: seq<Sprite>, saved: seq<Saved>, files: seq<Saved>, rowIdx: nat)
    requires forall k :: 0 <= k < |saved| ==> SavedRight(sprites, saved[k]) && saved[k].row < rowIdx
    requires forall i :: 0 <= i < |sprites| && sprites[i].row < rowIdx ==> IsSaved(saved, sprites[i])
    requires FileOrder(saved)
    requires forall k :: 0 <= k < |files| ==> SavedRight(sprites, files[k]) && files[k].row == rowIdx && files[k].index == k
    requires forall i :: 0 <= i < |sprites| && sprites[i].row == rowIdx ==> IsSaved(files, sprites[i])
    ensures var all := saved + files;
      && (forall k :: 0 <= k < |all| ==> SavedRight(sprites, all[k]) && all[k].row < rowIdx + 1)
      && (forall i :: 0 <= i < |sprites| && sprites[i].row < rowIdx + 1 ==> IsSaved(all, sprites[i]))
      && FileOrder(all)
  {
    var all := saved + files;
    forall i | 0 <= i < |sprites| && sprites[i].row < rowIdx + 1 ensures IsSaved(all, sprites[i]) {
      if sprites[i].row < rowIdx {
        var k :| 0 <= k < |saved| && saved[k].sprite == sprites[i];
        assert all[k] == saved[k];
      } else {
        var k :| 0 <= k < |files| && files[k].sprite == sprites[i];
        assert all[|saved| + k] == files[k];
      }
    }
  }

  /** A band without sprites adds no files and leaves nothing unsaved. */
  lemma SkipBand(sprites: seq<Sprite>, saved: seq<Saved>, rowIdx: nat)
    requires SavedBelow(sprites, saved, rowIdx)
    requires |InRow(sprites, rowIdx)| == 0
    ensures SavedBelow(sprites, saved, rowIdx + 1)
  {
    forall i | 0 <= i < |sprites| && sprites[i].row == rowIdx ensures false {
      InRowHas(sprites, i);
    }
    AppendBandPlaces(sprites, saved, [], rowIdx);
    assert saved + [] == saved;
  }

  /** After band `rowIdx`, every place of every band up to it has its file. */
  lemma AppendBandPlaces(sprites: seq<Sprite>, saved: seq<Saved>, files: seq<Saved>, rowIdx: nat)
    requires PlacesSaved(sprites, saved, rowIdx)
    requires |files| == |InRow(sprites, rowIdx)|
    requires forall k :: 0 <= k < |files| ==> files[k].row == rowIdx && files[k].index == k
    ensures PlacesSaved(sprites, saved + files, rowIdx + 1)
  {
    var all := saved + files;
    forall r: nat, i: nat | r < rowIdx + 1 && i < |InRow(sprites, r)| ensures HasFile(all, r, i) {
      if r < rowIdx {
        assert HasFile(saved, r, i);
        var k :| 0 <= k < |saved| && saved[k].row == r && saved[k].index == i;
        assert all[k] == saved[k];
      } else {
        assert all[|saved| + i] == files[i];
      }
    }
  }

  /** Once every band up to the last sprite's is done, every sprite and every place is saved. */
  lemma AllBandsSaved(sprites: seq<Sprite>, saved: seq<Saved>, maxRow: nat)
    requires forall j :: 0 <= j < |sprites| ==> sprites[j].row <= maxRow
    requires SavedBelow(sprites, saved, maxRow + 1)
    ensures forall k :: 0 <= k < |saved| ==> SavedRight(sprites, saved[k])
    ensures forall i :: 0 <= i < |sprites| ==> IsSaved(saved, sprites[i])
    ensures forall r: nat, i: nat :: i < |InRow(sprites, r)| ==> HasFile(saved, r, i)
    ensures FileOrder(saved)
  {
    forall r: nat | r > maxRow ensures InRow(sprites, r) == [] {
      InRowBeyond(sprites, r, maxRow);
    }
  }

  /** A band past every sprite's band has an empty group. */
  lemma {:induction false} InRowBeyond(ss: seq<Sprite>, row: nat, maxRow: nat)
    requires forall j :: 0 <= j < |ss| ==> ss[j].row <= maxRow
    requires row > maxRow
    ensures InRow(ss, row) == []
  {
    if |ss| > 0 {
      InRowBeyond(ss[..|ss| - 1], row, maxRow);
    }
  }

  /** Every sprite is in the group of its own band. */
  lemma {:induction false} InRowHas(ss: seq<Sprite>, i: int)
    requires 0 <= i < |ss|
    ensures ss[i] in InRow(ss, ss[i].row)
  {
    if i < |ss| - 1 {
      InRowHas(ss[..|ss| - 1], i);
    }
  }
}
