/**
 * Labelled regions of a foreground mask, as the boss scripts use them: the
 * label array comes from `ndimage.label` (4-connected components numbered
 * `1..count`, 0 for background), which is library code and reaches the model
 * as a parameter; each label is then reduced to its tight box and pixel count.
 */
module Regions {
  import opened Wrappers
  import opened Pixels
  import opened Masks

  /** What `ndimage.label(mask)` returns: a label per pixel and the number of labels. */
  datatype Labelling = Labelling(labels: seq<seq<int>>, count: nat)

  /** `labeled_array == label_idx`. */
  function LabelMask(labels: seq<seq<int>>, h: nat, w: nat, idx: int): (m: Mask)
    requires IsRect(labels, h, w)
    ensures IsRect(m, h, w)
    ensures forall r, c :: 0 <= r < h && 0 <= c < w ==> (m[r][c] <==> labels[r][c] == idx)
  {
    seq(h, r requires 0 <= r < h => seq(w, c requires 0 <= c < w => labels[r][c] == idx))
  }

  /** One region: its label, its inclusive bounds and its pixel count. */
  datatype Region = Region(labelIdx: int, box: Box, area: nat)
  {
    function Width(): int { box.Width() }
    function Height(): int { box.Height() }
  }

  function AreaOf(r: Region): int { r.area }

  function LabelOf(r: Region): int { r.labelIdx }

  /** `region` describes label `region.labelIdx` of `labels`: its tight box and its pixel count. */
  ghost predicate IsRegionOf(labels: seq<seq<int>>, h: nat, w: nat, region: Region)
    requires IsRect(labels, h, w)
  {
    var m := LabelMask(labels, h, w, region.labelIdx);
    IsTightBox(m, h, w, region.box) && region.area == CountMask(m)
  }

  /** No pixel carries label `idx`. */
  ghost predicate LabelAbsent(labels: seq<seq<int>>, h: nat, w: nat, idx: int)
    requires IsRect(labels, h, w)
  {
    forall r, c :: 0 <= r < h && 0 <= c < w ==> labels[r][c] != idx
  }

  /** `get_region_info`: `None` for a label no pixel carries, otherwise the region of that label. */
  method RegionInfo(labels: seq<seq<int>>, h: nat, w: nat, idx: int) returns (info: Option<Region>)
    requires IsRect(labels, h, w)
    ensures info.None? <==> LabelAbsent(labels, h, w, idx)
    ensures info.Some? ==> info.value.labelIdx == idx && IsRegionOf(labels, h, w, info.value)
    ensures info.Some? ==> 1 <= info.value.area <= info.value.Width() * info.value.Height()
  {
    var m := LabelMask(labels, h, w, idx);
    var box, area := BoundingBox(m, h, w);
    if box.None? {
      info := None;
    } else {
      info := Some(Region(idx, box.value, area));
      var tight := box.value;
      var c :| 0 <= c < w && m[tight.minRow][c];
      assert labels[tight.minRow][c] == idx;
    }
  }

  /** The area of a region never exceeds its box, and its box lies in the image. */
  lemma RegionBounds(labels: seq<seq<int>>, h: nat, w: nat, region: Region)
    requires IsRect(labels, h, w) && IsRegionOf(labels, h, w, region)
    ensures region.box.InGrid(h, w)
    ensures 1 <= region.area <= region.Width() * region.Height()
  {
    var m := LabelMask(labels, h, w, region.labelIdx);
    CountMaskInBox(m, h, w, region.box);
    var c :| 0 <= c < w && m[region.box.minRow][c];
    CountMaskPositive(m, h, w, region.box.minRow, c);
  }

  /** Two regions of the same labelling with the same label are the same region. */
  lemma RegionUnique(labels: seq<seq<int>>, h: nat, w: nat, a: Region, b: Region)
    requires IsRect(labels, h, w) && IsRegionOf(labels, h, w, a) && IsRegionOf(labels, h, w, b)
    requires a.labelIdx == b.labelIdx
    ensures a == b
  {
    var m := LabelMask(labels, h, w, a.labelIdx);
    var c1 :| 0 <= c1 < w && m[a.box.minRow][c1];
    var c2 :| 0 <= c2 < w && m[b.box.minRow][c2];
    var c3 :| 0 <= c3 < w && m[a.box.maxRow][c3];
    var c4 :| 0 <= c4 < w && m[b.box.maxRow][c4];
    var r1 :| 0 <= r1 < h && m[r1][a.box.minCol];
    var r2 :| 0 <= r2 < h && m[r2][b.box.minCol];
    var r3 :| 0 <= r3 < h && m[r3][a.box.maxCol];
    var r4 :| 0 <= r4 < h && m[r4][b.box.maxCol];
    assert b.box.Contains(a.box.minRow, c1) && a.box.Contains(b.box.minRow, c2);
    assert b.box.Contains(a.box.maxRow, c3) && a.box.Contains(b.box.maxRow, c4);
    assert b.box.Contains(r1, a.box.minCol) && a.box.Contains(r2, b.box.minCol);
    assert b.box.Contains(r3, a.box.maxCol) && a.box.Contains(r4, b.box.maxCol);
  }

  /** Labels are pairwise distinct. */
  predicate DistinctLabels(rs: seq<Region>) {
    forall i, j :: 0 <= i < j < |rs| ==> rs[i].labelIdx != rs[j].labelIdx
  }
}
