/**
 * `tools/extract_objects_sam2.py`: cutting objects out of a sheet from masks
 * produced elsewhere.
 *
 * The SAM model, `cv2.findContours`, `cv2.contourArea`, `cv2.boundingRect` and
 * `cv2.morphologyEx` are library code: their masks, contours and rectangles
 * reach the model as inputs, with the stated precondition that a rectangle they
 * report lies in the image. What the script itself decides is modelled: which
 * masks survive sorting, filtering and truncation, the bounding box when a
 * mask has none, the padding, the colour test against the background, the
 * alpha of every output pixel, and which cells of a regular grid are saved.
 */
module ObjectsSam2 {
  import opened Wrappers
  import opened Pixels
  import opened Masks
  import opened Boxes
  import opened Sorting

  // ------------------------------------------------------- mask selection

  /** A mask dict: `segmentation`, `area` and, when present, `bbox` as `(x, y, w, h)`. */
  datatype SamMask = SamMask(segmentation: Mask, area: int, bbox: Option<Rect>)

  function AreaOf(m: SamMask): int { m.area }

  /** `[m for m in masks if m['area'] >= min_area]`: the large masks in their order. */
  function FilterArea(ms: seq<SamMask>, minArea: int): (r: seq<SamMask>)
    ensures |r| <= |ms|
    ensures forall x :: x in r <==> x in ms && x.area >= minArea
  {
    if |ms| == 0 then []
    else
      var rest := FilterArea(ms[1..], minArea);
      assert forall x :: x in ms <==> x == ms[0] || x in ms[1..];
      if ms[0].area >= minArea then [ms[0]] + rest else rest
  }

  /** The filter keeps the masks in their order, so a list sorted largest first stays sorted. */
  lemma {:induction false} FilterAreaSorted(ms: seq<SamMask>, minArea: int)
    requires SortedDesc(ms, AreaOf)
    ensures SortedDesc(FilterArea(ms, minArea), AreaOf)
  {
    if |ms| > 0 {
      SortedTail(ms, AreaOf);
      FilterAreaSorted(ms[1..], minArea);
      if ms[0].area >= minArea {
        SortedCons(ms[0], FilterArea(ms[1..], minArea), AreaOf);
      }
    }
  }

  /** Sorted by area, largest first, then filtered, then cut to at most `max_objects`. */
  function SelectMasks(ms: seq<SamMask>, minArea: int, maxObjects: nat): (r: seq<SamMask>)
    ensures |r| <= maxObjects
    ensures SortedDesc(r, AreaOf)
    ensures forall x :: x in r ==> x in ms && x.area >= minArea
  {
    var sorted := SortDesc(ms, AreaOf);
    var large := FilterArea(sorted, minArea);
    FilterAreaSorted(sorted, minArea);
    var r := if |large| <= maxObjects then large else large[..maxObjects];
    assert forall x :: x in r ==> x in large;
    forall x | x in r ensures x in ms {
      SortDescSameElements(ms, AreaOf, x);
    }
    r
  }

  /**
   * A large mask that is left out was cut by the limit: the selection is full
   * and every selected mask is at least as large.
   */
  lemma {:induction false} SelectedAreLargest(ms: seq<SamMask>, minArea: int, maxObjects: nat, x: SamMask)
    requires x in ms && x.area >= minArea && x !in SelectMasks(ms, minArea, maxObjects)
    ensures |SelectMasks(ms, minArea, maxObjects)| == maxObjects
    ensures forall y :: y in SelectMasks(ms, minArea, maxObjects) ==> y.area >= x.area
  {
    var sorted := SortDesc(ms, AreaOf);
    SortDescSameElements(ms, AreaOf, x);
    var large := FilterArea(sorted, minArea);
    assert x in large;
    var j :| 0 <= j < |large| && large[j] == x;
    assert |large| > maxObjects && j >= maxObjects;
    FilterAreaSorted(sorted, minArea);
    forall y | y in SelectMasks(ms, minArea, maxObjects) ensures y.area >= x.area {
      var k :| 0 <= k < maxObjects && large[k] == y;
      assert AreaOf(large[k]) >= AreaOf(large[j]);
    }
  }

  // ------------------------------------------------------------ the box

  /**
   * The fallback box as written: `(x_min, y_min, x_max - x_min, y_max - y_min)`,
   * one short in each dimension against OpenCV's convention of `(x, y, w, h)`
   * covering `x..x+w-1`.
   */
  function FallbackRectAsWritten(b: Box): (r: Rect)
    ensures r.x == b.minCol && r.y == b.minRow && r.w == b.Width() - 1 && r.h == b.Height() - 1
  {
    Rect(b.minCol, b.minRow, b.maxCol - b.minCol, b.maxRow - b.minRow)
  }

  /**
   * With no padding, the box as written leaves out the mask's last column:
   * some mask pixel of column `max_col` lies outside the crop.
   */
  lemma FallbackAsWrittenLosesLastColumn(m: Mask, h: nat, w: nat, b: Box)
    requires IsRect(m, h, w) && IsTightBox(m, h, w, b)
    ensures exists r :: 0 <= r < h && m[r][b.maxCol] && !PadRect(FallbackRectAsWritten(b), 0, w, h).HasPixel(r, b.maxCol)
  {
    var r :| 0 <= r < h && m[r][b.maxCol];
    assert !PadRect(FallbackRectAsWritten(b), 0, w, h).HasPixel(r, b.maxCol);
  }

  /** The fallback box as intended: the tight box, width and height `max - min + 1`. */
  function FallbackRect(b: Box): (r: Rect)
    ensures forall row, col :: r.HasPixel(row, col) <==> b.Contains(row, col)
  {
    BoxToRect(b)
  }

  /** With the intended box, every mask pixel is in the crop for every padding. */
  lemma FallbackCoversMask(m: Mask, h: nat, w: nat, b: Box, pad: nat, r: int, c: int)
    requires IsRect(m, h, w) && IsTightBox(m, h, w, b) && 0 <= r < h && 0 <= c < w && m[r][c]
    ensures PadRect(FallbackRect(b), pad, w, h).HasPixel(r, c)
  {
    assert b.Contains(r, c);
  }

  // ------------------------------------------------------------- cutting

  /** `rgba[:, :, :3] = cropped_rgb` and `rgba[:, :, 3] = cropped_mask * 255`. */
  function MaskedPixel(p: Pixel, inMask: bool): (q: Pixel)
    ensures q.r == p.r && q.g == p.g && q.b == p.b
    ensures q.a == 255 <==> inMask
    ensures q.a == 0 <==> !inMask
  {
    Pixel(p.r, p.g, p.b, if inMask then 255 else 0)
  }

  /** `rect` of the image; with a mask, each pixel's alpha comes from the mask, without one the pixel is copied whole. */
  function CutRect(img: Image, h: nat, w: nat, mask: Option<Mask>, r: Rect): (out: Image)
    requires IsRect(img, h, w) && r.InImage(w, h)
    requires mask.Some? ==> IsRect(mask.value, h, w)
    ensures IsRect(out, r.h, r.w)
    ensures forall i, j :: 0 <= i < r.h && 0 <= j < r.w ==>
      out[i][j] == if mask.Some? then MaskedPixel(img[r.y + i][r.x + j], mask.value[r.y + i][r.x + j]) else img[r.y + i][r.x + j]
  {
    seq(r.h, i requires 0 <= i < r.h => seq(r.w, j requires 0 <= j < r.w =>
      if mask.Some? then MaskedPixel(img[r.y + i][r.x + j], mask.value[r.y + i][r.x + j]) else img[r.y + i][r.x + j]))
  }

  /** One saved object: the cut, the mask's area, the padded `(x, y, w, h)` and the loop index in its file name. */
  datatype Extracted = Extracted(image: Image, area: int, bbox: Rect, index: nat)

  /** The box a mask is cut with before padding: its own `bbox`, or the box of its pixels; `None` for an empty mask without one. */
  ghost predicate IsMaskRect(m: SamMask, h: nat, w: nat, r: Option<Rect>)
    requires IsRect(m.segmentation, h, w)
  {
    if m.bbox.Some? then r == m.bbox
    else if IsEmptyMask(m.segmentation, h, w) then r.None?
    else exists b :: IsTightBox(m.segmentation, h, w, b) && r == Some(FallbackRect(b))
  }

  /** Selected mask `idx` gave `out`. */
  ghost predicate ObjectFrom(img: Image, h: nat, w: nat, sel: seq<SamMask>, pad: nat, out: Extracted)
    requires IsRect(img, h, w)
  {
    && out.index < |sel| && IsRect(sel[out.index].segmentation, h, w)
    && var m := sel[out.index];
    && (exists r :: IsMaskRect(m, h, w, Some(r)) && out.bbox == PadRect(r, pad, w, h))
    && out.bbox.InImage(w, h) && out.area == m.area
    && out.image == CutRect(img, h, w, Some(m.segmentation), out.bbox)
  }

  /** A mask of its selection is cut unless it is empty and has no box of its own. */
  ghost predicate IsCutIndex(out: seq<Extracted>, idx: int) {
    exists k :: 0 <= k < |out| && out[k].index == idx
  }

  /** Every mask is an `h` by `w` grid and every reported box lies in the image. */
  predicate ValidMasks(ms: seq<SamMask>, h: nat, w: nat) {
    forall k :: 0 <= k < |ms| ==>
      && |ms[k].segmentation| == h && (forall r :: 0 <= r < h ==> |ms[k].segmentation[r]| == w)
      && (ms[k].bbox.Some? ==> ms[k].bbox.value.InImage(w, h))
  }

  /** The box of one selected mask. */
  method MaskRect(m: SamMask, h: nat, w: nat) returns (r: Option<Rect>)
    requires IsRect(m.segmentation, h, w) && (m.bbox.Some? ==> m.bbox.value.InImage(w, h))
    ensures IsMaskRect(m, h, w, r)
    ensures r.Some? ==> r.value.InImage(w, h)
  {
    if m.bbox.Some? {
      return m.bbox;
    }
    var box, area := BoundingBox(m.segmentation, h, w);
    if box.None? {
      return None;
    }
    r := Some(FallbackRect(box.value));
  }

  ghost predicate ObjectsInv(img: Image, h: nat, w: nat, sel: seq<SamMask>, pad: nat, upto: int, out: seq<Extracted>)
    requires IsRect(img, h, w) && ValidMasks(sel, h, w)
  {
    && (forall k :: 0 <= k < |out| ==> out[k].index < upto && ObjectFrom(img, h, w, sel, pad, out[k]))
    && (forall k1, k2 :: 0 <= k1 < k2 < |out| ==> out[k1].index < out[k2].index)
    && (forall idx :: 0 <= idx < upto && idx < |sel| ==> (IsCutIndex(out, idx) <==> IsCuttable(sel[idx], h, w)))
  }

  /** A mask is cut unless it is empty and has no box of its own. */
  ghost predicate IsCuttable(m: SamMask, h: nat, w: nat)
    requires IsRect(m.segmentation, h, w)
  {
    m.bbox.Some? || !IsEmptyMask(m.segmentation, h, w)
  }

  /** Appending an object numbered `idx` adds `idx` to the numbers and changes no other. */
  lemma AppendObject(out: seq<Extracted>, e: Extracted)
    ensures IsCutIndex(out + [e], e.index)
    ensures forall i :: i != e.index ==> (IsCutIndex(out + [e], i) <==> IsCutIndex(out, i))
  {
    var out' := out + [e];
    assert out'[|out|] == e;
    forall i | i != e.index ensures IsCutIndex(out', i) <==> IsCutIndex(out, i) {
      if IsCutIndex(out', i) {
        var k :| 0 <= k < |out'| && out'[k].index == i;
        assert k < |out| && out[k] == out'[k];
      }
      if IsCutIndex(out, i) {
        var k :| 0 <= k < |out| && out[k].index == i;
        assert out'[k] == out[k];
      }
    }
  }

  /** Skipping mask `idx`, which is empty and has no box. */
  lemma SkipObject(img: Image, h: nat, w: nat, sel: seq<SamMask>, pad: nat, idx: int, out: seq<Extracted>)
    requires IsRect(img, h, w) && ValidMasks(sel, h, w) && 0 <= idx < |sel|
    requires ObjectsInv(img, h, w, sel, pad, idx, out) && !IsCuttable(sel[idx], h, w)
    ensures ObjectsInv(img, h, w, sel, pad, idx + 1, out)
  {
  }

  /** Saving `e`, cut from mask `idx`. */
  lemma SaveObject(img: Image, h: nat, w: nat, sel: seq<SamMask>, pad: nat, idx: int, out: seq<Extracted>, e: Extracted)
    requires IsRect(img, h, w) && ValidMasks(sel, h, w) && 0 <= idx < |sel|
    requires ObjectsInv(img, h, w, sel, pad, idx, out) && IsCuttable(sel[idx], h, w)
    requires e.index == idx && ObjectFrom(img, h, w, sel, pad, e)
    ensures ObjectsInv(img, h, w, sel, pad, idx + 1, out + [e])
  {
    var out' := out + [e];
    forall k | 0 <= k < |out'| ensures out'[k].index < idx + 1 && ObjectFrom(img, h, w, sel, pad, out'[k]) {
      if k < |out| {
        assert out'[k] == out[k];
      }
    }
    AppendObject(out, e);
    ObjectOrderAppend(out, e);
  }

  /** Saving a mask after those with smaller indices keeps the saved objects in index order. */
  lemma ObjectOrderAppend(out: seq<Extracted>, e: Extracted)
    requires forall k :: 0 <= k < |out| ==> out[k].index < e.index
    requires forall k1, k2 :: 0 <= k1 < k2 < |out| ==> out[k1].index < out[k2].index
    ensures forall k1, k2 :: 0 <= k1 < k2 < |out| + 1 ==> (out + [e])[k1].index < (out + [e])[k2].index
  {
    var out' := out + [e];
    forall k1, k2 | 0 <= k1 < k2 < |out'| ensures out'[k1].index < out'[k2].index {
      assert out'[k1] == out[k1];
      if k2 < |out| {
        assert out'[k2] == out[k2];
      }
    }
  }

  /** Skipping or saving one selected mask keeps the loop invariant. */
  method ObjectStep(img: Image, h: nat, w: nat, sel: seq<SamMask>, pad: nat, idx: int, out: seq<Extracted>)
    returns (out': seq<Extracted>)
    requires IsRect(img, h, w) && ValidMasks(sel, h, w) && 0 <= idx < |sel|
    requires ObjectsInv(img, h, w, sel, pad, idx, out)
    ensures ObjectsInv(img, h, w, sel, pad, idx + 1, out')
  {
    var m := sel[idx];
    var r := MaskRect(m, h, w);
    if r.None? {
      SkipObject(img, h, w, sel, pad, idx, out);
      return out;
    }
    var padded := PadRect(r.value, pad, w, h);
    var e := Extracted(CutRect(img, h, w, Some(m.segmentation), padded), m.area, padded, idx);
    assert ObjectFrom(img, h, w, sel, pad, e);
    SaveObject(img, h, w, sel, pad, idx, out, e);
    out' := out + [e];
  }

  /**
   * `SAM2ObjectExtractor.extract_objects` after mask generation: select the
   * masks, then cut each with its padded box and mask alpha, numbered by its
   * position in the selection; an empty mask without a box is skipped and
   * leaves a gap in the numbering.
   */
  method ExtractObjects(img: Image, h: nat, w: nat, masks: seq<SamMask>, minArea: int, maxObjects: nat, pad: nat)
    returns (out: seq<Extracted>)
    requires IsRect(img, h, w) && ValidMasks(masks, h, w)
    ensures ValidMasks(SelectMasks(masks, minArea, maxObjects), h, w)
    ensures ObjectsInv(img, h, w, SelectMasks(masks, minArea, maxObjects), pad, |SelectMasks(masks, minArea, maxObjects)|, out)
  {
    var sel := SelectMasks(masks, minArea, maxObjects);
    forall k | 0 <= k < |sel| ensures sel[k] in masks {
      assert sel[k] in sel;
    }
    out := [];
    for idx := 0 to |sel|
      invariant ObjectsInv(img, h, w, sel, pad, idx, out)
    {
      out := ObjectStep(img, h, w, sel, pad, idx, out);
    }
  }

  // ------------------------------------------------ the simple extractors

  /** `diff > tolerance` on any of red, green and blue. */
  predicate DiffersFrom(p: Pixel, bg: Pixel, tolerance: int) {
    Abs(p.r - bg.r) > tolerance || Abs(p.g - bg.g) > tolerance || Abs(p.b - bg.b) > tolerance
  }

  /** The colour mask of `extract_by_color`, before the morphological clean-up. */
  function ColorMask(img: Image, h: nat, w: nat, bg: Pixel, tolerance: int): (m: Mask)
    requires IsRect(img, h, w)
    ensures IsRect(m, h, w)
    ensures forall r, c :: 0 <= r < h && 0 <= c < w ==> (m[r][c] <==> DiffersFrom(img[r][c], bg, tolerance))
  {
    seq(h, r requires 0 <= r < h => seq(w, c requires 0 <= c < w => DiffersFrom(img[r][c], bg, tolerance)))
  }

  /**
   * The colour mask counts no pixel exactly when every pixel is within
   * `tolerance` of the background on red, green and blue; in particular an
   * image in the background colour has an empty mask before the clean-up.
   */
  lemma ColorMaskEmptyIff(img: Image, h: nat, w: nat, bg: Pixel, tolerance: int)
    requires IsRect(img, h, w)
    ensures CountMask(ColorMask(img, h, w, bg, tolerance)) == 0 <==>
      forall r, c :: 0 <= r < h && 0 <= c < w ==> !DiffersFrom(img[r][c], bg, tolerance)
    ensures tolerance >= 0 && (forall r, c :: 0 <= r < h && 0 <= c < w ==>
        img[r][c].r == bg.r && img[r][c].g == bg.g && img[r][c].b == bg.b) ==>
      CountMask(ColorMask(img, h, w, bg, tolerance)) == 0
  {
    var m := ColorMask(img, h, w, bg, tolerance);
    CountMaskZero(m, h, w);
  }

  /** What `findContours` reports for one contour: its `contourArea` and its `boundingRect`. */
  datatype Contour = Contour(area: real, rect: Rect)

  /** One saved sprite: the cut, its contour's area, the padded box and the contour index in its file name. */
  datatype Sprite = Sprite(image: Image, area: real, bbox: Rect, index: nat)

  /** Contour `s.index` gave `s`. */
  ghost predicate SpriteFrom(img: Image, h: nat, w: nat, mask: Option<Mask>, contours: seq<Contour>, pad: nat, s: Sprite)
    requires IsRect(img, h, w) && (mask.Some? ==> IsRect(mask.value, h, w))
  {
    && s.index < |contours| && s.area == contours[s.index].area
    && s.bbox == PadRect(contours[s.index].rect, pad, w, h) && s.bbox.InImage(w, h)
    && s.image == CutRect(img, h, w, mask, s.bbox)
  }

  /**
   * The contour loop shared by `extract_by_transparency` (no mask: the crop is
   * saved as it is) and `extract_by_color` (the cleaned mask becomes alpha):
   * contours with `contourArea < min_area` are skipped, every other one is cut
   * with its padded box, in contour order.
   */
  method CutContours(img: Image, h: nat, w: nat, mask: Option<Mask>, contours: seq<Contour>, minArea: int, pad: nat)
    returns (out: seq<Sprite>)
    requires IsRect(img, h, w) && (mask.Some? ==> IsRect(mask.value, h, w))
    requires forall k :: 0 <= k < |contours| ==> contours[k].rect.InImage(w, h)
    ensures forall k :: 0 <= k < |out| ==> SpriteFrom(img, h, w, mask, contours, pad, out[k])
    ensures forall k1, k2 :: 0 <= k1 < k2 < |out| ==> out[k1].index < out[k2].index
    ensures forall idx :: 0 <= idx < |contours| ==> (IsSpriteIndex(out, idx) <==> contours[idx].area >= minArea as real)
  {
    out := [];
    for idx := 0 to |contours|
      invariant CutInv(img, h, w, mask, contours, minArea, pad, idx, out)
    {
      var c := contours[idx];
      if c.area < minArea as real {
        continue;
      }
      var r := PadRect(c.rect, pad, w, h);
      var s := Sprite(CutRect(img, h, w, mask, r), c.area, r, idx);
      CutAppend(img, h, w, mask, contours, minArea, pad, idx, out, s);
      out := out + [s];
    }
  }

  /** The sprites cut from the contours before `upto`, in contour order. */
  ghost predicate CutInv(img: Image, h: nat, w: nat, mask: Option<Mask>, contours: seq<Contour>, minArea: int, pad: nat,
                         upto: int, out: seq<Sprite>)
    requires IsRect(img, h, w) && (mask.Some? ==> IsRect(mask.value, h, w))
  {
    && (forall k :: 0 <= k < |out| ==> out[k].index < upto && SpriteFrom(img, h, w, mask, contours, pad, out[k]))
    && (forall k1, k2 :: 0 <= k1 < k2 < |out| ==> out[k1].index < out[k2].index)
    && (forall i :: 0 <= i < upto && i < |contours| ==> (IsSpriteIndex(out, i) <==> contours[i].area >= minArea as real))
  }

  /** Cutting contour `idx`, which is large enough, extends the invariant past it. */
  lemma CutAppend(img: Image, h: nat, w: nat, mask: Option<Mask>, contours: seq<Contour>, minArea: int, pad: nat,
                  idx: int, out: seq<Sprite>, s: Sprite)
    requires IsRect(img, h, w) && (mask.Some? ==> IsRect(mask.value, h, w))
    requires 0 <= idx < |contours| && CutInv(img, h, w, mask, contours, minArea, pad, idx, out)
    requires s.index == idx && contours[idx].area >= minArea as real && SpriteFrom(img, h, w, mask, contours, pad, s)
    ensures CutInv(img, h, w, mask, contours, minArea, pad, idx + 1, out + [s])
  {
    var next := out + [s];
    forall k | 0 <= k < |next| ensures next[k].index < idx + 1 && SpriteFrom(img, h, w, mask, contours, pad, next[k]) {
      if k < |out| {
        assert next[k] == out[k];
      }
    }
    SpriteIndexAppend(out, s, idx);
  }

  /** Appending the sprite of contour `idx` after those of earlier contours keeps the order and adds only `idx`. */
  lemma SpriteIndexAppend(out: seq<Sprite>, s: Sprite, idx: int)
    requires forall k :: 0 <= k < |out| ==> out[k].index < idx
    requires forall k1, k2 :: 0 <= k1 < k2 < |out| ==> out[k1].index < out[k2].index
    requires s.index == idx
    ensures forall k1, k2 :: 0 <= k1 < k2 < |out| + 1 ==> (out + [s])[k1].index < (out + [s])[k2].index
    ensures forall i :: IsSpriteIndex(out + [s], i) <==> IsSpriteIndex(out, i) || i == idx
  {
    var next := out + [s];
    forall k1, k2 | 0 <= k1 < k2 < |next| ensures next[k1].index < next[k2].index {
      assert next[k1] == out[k1];
      if k2 < |out| {
        assert next[k2] == out[k2];
      }
    }
    assert next[|out|].index == idx;
    forall i ensures IsSpriteIndex(next, i) <==> IsSpriteIndex(out, i) || i == idx {
      if IsSpriteIndex(next, i) && i != idx {
        var k :| 0 <= k < |next| && next[k].index == i;
        assert k < |out| && out[k] == next[k];
      }
      if IsSpriteIndex(out, i) {
        var k :| 0 <= k < |out| && out[k].index == i;
        assert next[k] == out[k];
      }
    }
  }

  ghost predicate IsSpriteIndex(out: seq<Sprite>, idx: int) {
    exists k :: 0 <= k < |out| && out[k].index == idx
  }

  /**
   * `extract_by_transparency`, with `findContours` passed in as `contoursOf`
   * and applied to the opaque mask (`alpha > 10`).
   * (The image is converted to RGBA first, so the branch for an image without
   * an alpha channel is never taken.)
   */
  method ExtractByTransparency(img: Image, h: nat, w: nat, contoursOf: Mask -> seq<Contour>, minArea: int, pad: nat)
    returns (out: seq<Sprite>)
    requires IsRect(img, h, w)
    requires forall m, k :: IsRect(m, h, w) && 0 <= k < |contoursOf(m)| ==> contoursOf(m)[k].rect.InImage(w, h)
    ensures var contours := contoursOf(OpaqueMask(img, h, w));
      && (forall k :: 0 <= k < |out| ==> SpriteFrom(img, h, w, None, contours, pad, out[k]))
      && (forall k1, k2 :: 0 <= k1 < k2 < |out| ==> out[k1].index < out[k2].index)
      && (forall idx :: 0 <= idx < |contours| ==> (IsSpriteIndex(out, idx) <==> contours[idx].area >= minArea as real))
  {
    var binary := OpaqueMask(img, h, w);
    out := CutContours(img, h, w, None, contoursOf(binary), minArea, pad);
  }

  /**
   * `extract_by_color`: the background is the given colour or the floor mean of
   * the four corners; the colour mask is cleaned by the morphology passed in as
   * `clean`, and its pixels become the alpha of each cut.
   */
  method ExtractByColor(img: Image, h: nat, w: nat, bgColor: Option<Pixel>, tolerance: int,
                        clean: Mask -> Mask, contoursOf: Mask -> seq<Contour>, minArea: int, pad: nat)
    returns (out: seq<Sprite>, ghost bg: Pixel, ghost mask: Mask)
    requires IsRect(img, h, w) && h > 0 && w > 0
    requires forall m :: IsRect(m, h, w) ==> IsRect(clean(m), h, w)
    requires forall m, k :: IsRect(m, h, w) && 0 <= k < |contoursOf(m)| ==> contoursOf(m)[k].rect.InImage(w, h)
    ensures bg == if bgColor.Some? then bgColor.value else BackgroundColor(img)
    ensures mask == clean(ColorMask(img, h, w, bg, tolerance)) && IsRect(mask, h, w)
    ensures var contours := contoursOf(mask);
      && (forall k :: 0 <= k < |out| ==> SpriteFrom(img, h, w, Some(mask), contours, pad, out[k]))
      && (forall k1, k2 :: 0 <= k1 < k2 < |out| ==> out[k1].index < out[k2].index)
      && (forall idx :: 0 <= idx < |contours| ==> (IsSpriteIndex(out, idx) <==> contours[idx].area >= minArea as real))
  {
    var color := if bgColor.Some? then bgColor.value else BackgroundColor(img);
    bg := color;
    var cleaned := clean(ColorMask(img, h, w, color, tolerance));
    mask := cleaned;
    out := CutContours(img, h, w, Some(cleaned), contoursOf(cleaned), minArea, pad);
  }

  // ------------------------------------------------------------ the grid

  /** One saved grid cell: the cut, its row and column, and `position = (x, y)`. */
  datatype Cell = Cell(image: Image, row: nat, col: nat, x: int, y: int)

  lemma MulMono(a: int, b: int, c: nat)
    requires a <= b
    ensures a * c <= b * c
  {
    assert b * c - a * c == (b - a) * c;
  }

  /** Row `row` of a grid of `h / gh` rows of height `gh` lies in the image. */
  lemma RowFits(h: nat, gh: nat, row: int)
    requires gh > 0 && 0 <= row < h / gh
    ensures 0 <= row * gh && (row + 1) * gh <= h
  {
    MulMono(row + 1, h / gh, gh);
    MulMono(0, row, gh);
  }

  /** The rectangle of cell `(row, col)`. */
  function CellRect(gw: nat, gh: nat, row: int, col: int): (r: Rect)
    ensures r.x == col * gw && r.y == row * gh && r.w == gw && r.h == gh
  {
    Rect(col * gw, row * gh, gw, gh)
  }

  /** Every cell of the `h / gh` by `w / gw` grid lies in the image. */
  lemma CellInImage(h: nat, w: nat, gw: nat, gh: nat, row: int, col: int)
    requires gw > 0 && gh > 0 && 0 <= row < h / gh && 0 <= col < w / gw
    ensures CellRect(gw, gh, row, col).InImage(w, h)
  {
    RowFits(h, gh, row);
    RowFits(w, gw, col);
  }

  /** `np.sum(cropped[:, :, 3] > empty_threshold)`. */
  function Opaque(cell: Image, threshold: int): nat
  {
    CountMask(seq(|cell|, i requires 0 <= i < |cell| => seq(|cell[i]|, j requires 0 <= j < |cell[i]| => cell[i][j].a > threshold)))
  }

  /** Cell `(row, col)` is saved: emptiness is not checked, or at least `empty_threshold` of its pixels have alpha above it. */
  ghost predicate Kept(img: Image, h: nat, w: nat, gw: nat, gh: nat, skipEmpty: bool, threshold: int, row: int, col: int)
    requires IsRect(img, h, w) && gw > 0 && gh > 0 && 0 <= row < h / gh && 0 <= col < w / gw
  {
    CellInImage(h, w, gw, gh, row, col);
    !skipEmpty || Opaque(CutRect(img, h, w, None, CellRect(gw, gh, row, col)), threshold) >= threshold
  }

  /** `c` is cell `(row, col)` of the grid, cut whole. */
  ghost predicate IsCell(img: Image, h: nat, w: nat, gw: nat, gh: nat, c: Cell)
    requires IsRect(img, h, w) && gw > 0 && gh > 0
  {
    && c.row < h / gh && c.col < w / gw
    && c.x == c.col * gw && c.y == c.row * gh
    && (CellInImage(h, w, gw, gh, c.row, c.col);
        c.image == CutRect(img, h, w, None, CellRect(gw, gh, c.row, c.col)))
  }

  /** The row-major position of a cell. */
  function Order(c: Cell, cols: nat): int { c.row * cols + c.col }

  ghost predicate HasCell(out: seq<Cell>, row: int, col: int) {
    exists k :: 0 <= k < |out| && out[k].row == row && out[k].col == col
  }

  /** After the cells before row-major position `upto`: the kept ones, in order. */
  ghost predicate GridInv(img: Image, h: nat, w: nat, gw: nat, gh: nat, skipEmpty: bool, threshold: int, upto: int, out: seq<Cell>)
    requires IsRect(img, h, w) && gw > 0 && gh > 0
  {
    && (forall k :: 0 <= k < |out| ==>
          IsCell(img, h, w, gw, gh, out[k]) && Order(out[k], w / gw) < upto && Kept(img, h, w, gw, gh, skipEmpty, threshold, out[k].row, out[k].col))
    && (forall k1, k2 :: 0 <= k1 < k2 < |out| ==> Order(out[k1], w / gw) < Order(out[k2], w / gw))
    && (forall row, col :: 0 <= row < h / gh && 0 <= col < w / gw && row * (w / gw) + col < upto ==>
          (Kept(img, h, w, gw, gh, skipEmpty, threshold, row, col) ==> HasCell(out, row, col)))
  }

  /** Row-major positions in a grid of `cols` columns are distinct. */
  lemma GridPosition(r1: int, c1: int, r2: int, c2: int, cols: nat)
    requires 0 <= c1 < cols && 0 <= c2 < cols && 0 <= r1 && 0 <= r2 && r1 * cols + c1 == r2 * cols + c2
    ensures r1 == r2 && c1 == c2
  {
    if r1 < r2 {
      MulMono(r1 + 1, r2, cols);
    } else if r2 < r1 {
      MulMono(r2 + 1, r1, cols);
    }
  }

  /** Skipping cell `(row, col)`, which is not kept. */
  lemma SkipCell(img: Image, h: nat, w: nat, gw: nat, gh: nat, skipEmpty: bool, threshold: int, row: int, col: int, out: seq<Cell>)
    requires IsRect(img, h, w) && gw > 0 && gh > 0 && 0 <= row < h / gh && 0 <= col < w / gw
    requires GridInv(img, h, w, gw, gh, skipEmpty, threshold, row * (w / gw) + col, out)
    requires !Kept(img, h, w, gw, gh, skipEmpty, threshold, row, col)
    ensures GridInv(img, h, w, gw, gh, skipEmpty, threshold, row * (w / gw) + col + 1, out)
  {
    var cols := w / gw;
    forall row', col' | 0 <= row' < h / gh && 0 <= col' < cols && row' * cols + col' < row * cols + col + 1 &&
        Kept(img, h, w, gw, gh, skipEmpty, threshold, row', col')
      ensures HasCell(out, row', col')
    {
      if row' * cols + col' == row * cols + col {
        GridPosition(row', col', row, col, cols);
      }
    }
  }

  /** Saving cell `c`, the kept cell `(row, col)`. */
  lemma SaveCell(img: Image, h: nat, w: nat, gw: nat, gh: nat, skipEmpty: bool, threshold: int, c: Cell, out: seq<Cell>)
    requires IsRect(img, h, w) && gw > 0 && gh > 0 && IsCell(img, h, w, gw, gh, c)
    requires GridInv(img, h, w, gw, gh, skipEmpty, threshold, Order(c, w / gw), out)
    requires Kept(img, h, w, gw, gh, skipEmpty, threshold, c.row, c.col)
    ensures GridInv(img, h, w, gw, gh, skipEmpty, threshold, Order(c, w / gw) + 1, out + [c])
  {
    var cols := w / gw;
    var out' := out + [c];
    assert out'[|out|] == c;
    forall row', col' | 0 <= row' < h / gh && 0 <= col' < cols && row' * cols + col' < Order(c, cols) + 1 &&
        Kept(img, h, w, gw, gh, skipEmpty, threshold, row', col')
      ensures HasCell(out', row', col')
    {
      if row' * cols + col' < Order(c, cols) {
        var k :| 0 <= k < |out| && out[k].row == row' && out[k].col == col';
        assert out'[k] == out[k];
      } else {
        GridPosition(row', col', c.row, c.col, cols);
      }
    }
  }

  /** One cell of the double loop. */
  method GridStep(img: Image, h: nat, w: nat, gw: nat, gh: nat, skipEmpty: bool, threshold: int, row: nat, col: nat, out: seq<Cell>)
    returns (out': seq<Cell>)
    requires IsRect(img, h, w) && gw > 0 && gh > 0 && row < h / gh && col < w / gw
    requires GridInv(img, h, w, gw, gh, skipEmpty, threshold, row * (w / gw) + col, out)
    ensures GridInv(img, h, w, gw, gh, skipEmpty, threshold, row * (w / gw) + col + 1, out')
  {
    CellInImage(h, w, gw, gh, row, col);
    var rect := CellRect(gw, gh, row, col);
    var cropped := CutRect(img, h, w, None, rect);
    if skipEmpty && Opaque(cropped, threshold) < threshold {
      SkipCell(img, h, w, gw, gh, skipEmpty, threshold, row, col, out);
      return out;
    }
    var c := Cell(cropped, row, col, rect.x, rect.y);
    SaveCell(img, h, w, gw, gh, skipEmpty, threshold, c, out);
    out' := out + [c];
  }

  /**
   * `extract_grid_sprites`: `cols = width // grid_width` and `rows = height //
   * grid_height` cells, visited row by row; a cell is saved unless emptiness
   * is checked and fewer than `empty_threshold` of its pixels have alpha above
   * `empty_threshold`. The saved cells are in row-major order, each lies whole
   * in the image, and there are at most `rows * cols` of them.
   */
  method ExtractGridSprites(img: Image, h: nat, w: nat, gw: nat, gh: nat, skipEmpty: bool, threshold: int)
    returns (out: seq<Cell>)
    requires IsRect(img, h, w) && gw > 0 && gh > 0
    ensures GridInv(img, h, w, gw, gh, skipEmpty, threshold, (h / gh) * (w / gw), out)
    ensures |out| <= (h / gh) * (w / gw)
  {
    var cols, rows := w / gw, h / gh;
    out := [];
    for row := 0 to rows
      invariant GridInv(img, h, w, gw, gh, skipEmpty, threshold, row * cols, out)
    {
      out := GridRow(img, h, w, gw, gh, skipEmpty, threshold, row, out);
    }
    GridCount(out, cols, rows * cols);
  }

  /** The inner loop: the cells of one grid row, left to right. */
  method GridRow(img: Image, h: nat, w: nat, gw: nat, gh: nat, skipEmpty: bool, threshold: int, row: nat, out: seq<Cell>)
    returns (out': seq<Cell>)
    requires IsRect(img, h, w) && gw > 0 && gh > 0 && row < h / gh
    requires GridInv(img, h, w, gw, gh, skipEmpty, threshold, row * (w / gw), out)
    ensures GridInv(img, h, w, gw, gh, skipEmpty, threshold, (row + 1) * (w / gw), out')
  {
    var cols := w / gw;
    out' := out;
    for col := 0 to cols
      invariant GridInv(img, h, w, gw, gh, skipEmpty, threshold, row * cols + col, out')
    {
      out' := GridStep(img, h, w, gw, gh, skipEmpty, threshold, row, col, out');
    }
    assert row * cols + cols == (row + 1) * cols;
  }

  /** Cells with distinct rising positions in `0..n` number at most `n`. */
  lemma {:induction false} GridCount(out: seq<Cell>, cols: nat, n: int)
    requires 0 <= n
    requires forall k :: 0 <= k < |out| ==> 0 <= Order(out[k], cols) < n
    requires forall k1, k2 :: 0 <= k1 < k2 < |out| ==> Order(out[k1], cols) < Order(out[k2], cols)
    ensures |out| <= n
  {
    if |out| > 0 {
      var prefix := out[..|out| - 1];
      var last := Order(out[|out| - 1], cols);
      assert forall k :: 0 <= k < |prefix| ==> prefix[k] == out[k] && Order(out[k], cols) < last;
      GridCount(prefix, cols, last);
    }
  }
}
