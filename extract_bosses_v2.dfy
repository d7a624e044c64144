/**
 * `scripts/extract_bosses_v2.py`: a stricter foreground test (colour channels
 * only, threshold 15), no speck merging: each label at least 10 by 10 is one
 * boss, largest area first, cut with a 2-pixel margin, and only pixels within
 * 10 of the background colour are made transparent.
 */
module ExtractBossesV2 {
  import opened Pixels
  import opened Masks
  import opened Boxes
  import opened Sorting
  import opened Regions
  import opened Sprites

  const MaskThreshold := 15
  const ClearThreshold := 10
  const Padding: nat := 2

  /** The size filter: regions narrower or shorter than 10 pixels are skipped. */
  predicate LargeEnough(r: Region) {
    r.Width() >= 10 && r.Height() >= 10
  }

  /** After the labels below `idx`: the large regions among them, in label order. */
  ghost predicate CollectInv(labels: seq<seq<int>>, h: nat, w: nat, idx: int, regions: seq<Region>)
    requires IsRect(labels, h, w)
  {
    && (forall i :: 0 <= i < |regions| ==>
          IsRegionOf(labels, h, w, regions[i]) && 1 <= regions[i].labelIdx < idx && LargeEnough(regions[i]))
    && (forall i, j :: 0 <= i < j < |regions| ==> regions[i].labelIdx < regions[j].labelIdx)
    && (forall r :: IsRegionOf(labels, h, w, r) && 1 <= r.labelIdx < idx && LargeEnough(r) ==> r in regions)
  }

  /** Keeping the region of label `idx`. */
  lemma AddLarge(labels: seq<seq<int>>, h: nat, w: nat, idx: int, regions: seq<Region>, info: Region)
    requires IsRect(labels, h, w) && idx >= 1 && CollectInv(labels, h, w, idx, regions)
    requires info.labelIdx == idx && IsRegionOf(labels, h, w, info) && LargeEnough(info)
    ensures CollectInv(labels, h, w, idx + 1, regions + [info])
  {
    var regions' := regions + [info];
    forall r | IsRegionOf(labels, h, w, r) && 1 <= r.labelIdx < idx + 1 && LargeEnough(r) ensures r in regions' {
      if r.labelIdx == idx {
        RegionUnique(labels, h, w, r, info);
      }
    }
  }

  /** Skipping label `idx`, whose region (if any) is too small. */
  lemma SkipLabel(labels: seq<seq<int>>, h: nat, w: nat, idx: int, regions: seq<Region>)
    requires IsRect(labels, h, w) && CollectInv(labels, h, w, idx, regions)
    requires forall r :: IsRegionOf(labels, h, w, r) && r.labelIdx == idx ==> !LargeEnough(r)
    ensures CollectInv(labels, h, w, idx + 1, regions)
  {
  }

  /** A label no pixel carries has no region. */
  lemma AbsentHasNoRegion(labels: seq<seq<int>>, h: nat, w: nat, r: Region)
    requires IsRect(labels, h, w) && LabelAbsent(labels, h, w, r.labelIdx)
    ensures !IsRegionOf(labels, h, w, r)
  {
    var m := LabelMask(labels, h, w, r.labelIdx);
    if r.box.InGrid(h, w) {
      assert forall c :: 0 <= c < w ==> !m[r.box.minRow][c];
    }
  }

  /** One label: look it up, and keep its region when it passes the size filter. */
  method CollectStep(labels: seq<seq<int>>, h: nat, w: nat, idx: int, regions: seq<Region>) returns (regions': seq<Region>)
    requires IsRect(labels, h, w) && idx >= 1 && CollectInv(labels, h, w, idx, regions)
    ensures CollectInv(labels, h, w, idx + 1, regions')
  {
    var info := RegionInfo(labels, h, w, idx);
    if info.None? {
      forall r: Region | r.labelIdx == idx ensures !IsRegionOf(labels, h, w, r) {
        AbsentHasNoRegion(labels, h, w, r);
      }
      SkipLabel(labels, h, w, idx, regions);
      regions' := regions;
    } else if LargeEnough(info.value) {
      AddLarge(labels, h, w, idx, regions, info.value);
      regions' := regions + [info.value];
    } else {
      forall r | IsRegionOf(labels, h, w, r) && r.labelIdx == idx ensures !LargeEnough(r) {
        RegionUnique(labels, h, w, r, info.value);
      }
      SkipLabel(labels, h, w, idx, regions);
      regions' := regions;
    }
  }

  /**
   * The loop over `range(1, num_features + 1)`: skip labels no pixel carries
   * and regions that fail the size filter, keep the rest in label order.
   */
  method CollectLargeRegions(labels: seq<seq<int>>, h: nat, w: nat, n: nat) returns (regions: seq<Region>)
    requires IsRect(labels, h, w)
    ensures forall i :: 0 <= i < |regions| ==>
      IsRegionOf(labels, h, w, regions[i]) && 1 <= regions[i].labelIdx <= n && LargeEnough(regions[i])
    ensures forall i, j :: 0 <= i < j < |regions| ==> regions[i].labelIdx < regions[j].labelIdx
    ensures forall r :: IsRegionOf(labels, h, w, r) && 1 <= r.labelIdx <= n && LargeEnough(r) ==> r in regions
  {
    regions := [];
    for idx := 1 to n + 1
      invariant CollectInv(labels, h, w, idx, regions)
    {
      regions := CollectStep(labels, h, w, idx, regions);
    }
  }

  /** One saved boss: `boss_{index}.png` and its size. */
  datatype Boss = Boss(image: Image, width: int, height: int, index: nat)

  /** `boss` is `box` of the sheet with pixels near the background made transparent, saved as number `index`. */
  ghost predicate BossFrom(img: Image, h: nat, w: nat, bg: Pixel, boss: Boss, box: Box, index: nat)
    requires IsRect(img, h, w)
  {
    && box.InGrid(h, w) && boss.index == index
    && boss.width == box.Width() && boss.height == box.Height()
    && IsRect(boss.image, boss.height, boss.width)
    && (forall r, c :: 0 <= r < boss.height && 0 <= c < boss.width ==>
          boss.image[r][c] == Cleared(img[box.minRow + r][box.minCol + c], bg, ClearThreshold, RGB))
  }

  /** The loop over `enumerate(regions)`: pad, crop and clear each region. */
  method CutBosses(img: Image, h: nat, w: nat, bg: Pixel, regions: seq<Region>) returns (bosses: seq<Boss>)
    requires IsRect(img, h, w)
    requires forall k :: 0 <= k < |regions| ==> regions[k].box.InGrid(h, w)
    ensures |bosses| == |regions|
    ensures forall i :: 0 <= i < |bosses| ==> BossFrom(img, h, w, bg, bosses[i], PadClamp(regions[i].box, Padding, h, w), i)
  {
    bosses := [];
    for i := 0 to |regions|
      invariant |bosses| == i
      invariant forall j :: 0 <= j < i ==> BossFrom(img, h, w, bg, bosses[j], PadClamp(regions[j].box, Padding, h, w), j)
    {
      var box := PadClamp(regions[i].box, Padding, h, w);
      var region := Crop(img, h, w, box);
      region := ClearBackground(region, box.Height(), box.Width(), bg, ClearThreshold, RGB);
      bosses := bosses + [Boss(region, box.Width(), box.Height(), i)];
    }
  }

  /**
   * `extract_bosses_by_grid`, with `ndimage.label` passed in as `labelOf`.
   * The regions are every region of the mask's labelling that is at least 10
   * by 10, each once, largest area first and, the sort being stable, in label
   * order among equal areas; boss `i` is region `i`'s box padded by 2.
   */
  method ExtractBossesByGrid(img: Image, h: nat, w: nat, labelOf: Mask -> Labelling)
    returns (bosses: seq<Boss>, ghost mask: Mask, ghost regions: seq<Region>)
    requires IsRect(img, h, w) && h > 0 && w > 0
    requires forall m :: IsRect(m, h, w) ==> IsRect(labelOf(m).labels, h, w)
    ensures IsForegroundMask(mask, img, h, w, BackgroundColor(img), MaskThreshold, RGB)
    ensures forall i :: 0 <= i < |regions| ==>
      IsRegionOf(labelOf(mask).labels, h, w, regions[i]) && 1 <= regions[i].labelIdx <= labelOf(mask).count && LargeEnough(regions[i])
    ensures forall r :: IsRegionOf(labelOf(mask).labels, h, w, r) && 1 <= r.labelIdx <= labelOf(mask).count && LargeEnough(r) ==> r in regions
    ensures SortedDesc(regions, AreaOf)
    ensures forall i, j :: 0 <= i < j < |regions| ==>
      && regions[i].labelIdx != regions[j].labelIdx
      && (regions[i].area == regions[j].area ==> regions[i].labelIdx < regions[j].labelIdx)
    ensures |bosses| == |regions|
    ensures forall i :: 0 <= i < |bosses| ==>
      regions[i].box.InGrid(h, w) && BossFrom(img, h, w, BackgroundColor(img), bosses[i], PadClamp(regions[i].box, Padding, h, w), i)
  {
    var bg := BackgroundColor(img);
    var fg := ForegroundMask(img, h, w, bg, MaskThreshold, RGB);
    mask := fg;
    var labelling := labelOf(fg);
    var labels := labelling.labels;
    var found := CollectLargeRegions(labels, h, w, labelling.count);
    var sorted := SortDesc(found, AreaOf);
    SortDescStable(found, AreaOf, LabelOf);
    forall i, j | 0 <= i < j < |sorted|
      ensures sorted[i].labelIdx != sorted[j].labelIdx && (sorted[i].area == sorted[j].area ==> sorted[i].labelIdx < sorted[j].labelIdx)
    {
      assert GoesBefore(sorted[i], sorted[j], AreaOf, LabelOf);
    }
    forall x ensures x in sorted <==> x in found {
      SortDescSameElements(found, AreaOf, x);
    }
    regions := sorted;
    forall k | 0 <= k < |sorted|
      ensures IsRegionOf(labels, h, w, sorted[k]) && 1 <= sorted[k].labelIdx <= labelling.count && LargeEnough(sorted[k])
      ensures sorted[k].box.InGrid(h, w)
    {
      assert sorted[k] in found;
      RegionBounds(labels, h, w, sorted[k]);
    }
    bosses := CutBosses(img, h, w, bg, sorted);
  }

  /**
   * A pixel of the mask keeps all four channels in the saved boss: the
   * transparency threshold (10) is below the mask threshold (15).
   */
  lemma MaskPixelsStayOpaque(img: Image, h: nat, w: nat, mask: Mask, boss: Boss, box: Box, index: nat, r: int, c: int)
    requires IsRect(img, h, w) && h > 0 && w > 0
    requires IsForegroundMask(mask, img, h, w, BackgroundColor(img), MaskThreshold, RGB)
    requires BossFrom(img, h, w, BackgroundColor(img), boss, box, index)
    requires 0 <= r < boss.height && 0 <= c < boss.width && mask[box.minRow + r][box.minCol + c]
    ensures boss.image[r][c] == img[box.minRow + r][box.minCol + c]
  {
    ForegroundKeepsAlpha(img[box.minRow + r][box.minCol + c], BackgroundColor(img), ClearThreshold, MaskThreshold, RGB);
  }
}
