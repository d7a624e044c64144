/**
 * `scripts/extract_bosses.py`: label the foreground of the boss sheet (all
 * four channels, threshold 30), describe every label by its box and pixel
 * count, drop specks, order the rest by area and give each its own group,
 * then cut each group's box with a 2-pixel margin and clear its background.
 */
module ExtractBosses {
  import opened Wrappers
  import opened Pixels
  import opened Masks
  import opened Boxes
  import opened Sorting
  import opened Regions
  import opened Sprites

  const Threshold := 30
  const Padding: nat := 2

  /**
   * The loop over `range(1, num_features + 1)` keeping every label some pixel
   * carries, in label order.
   */
  method CollectRegions(labels: seq<seq<int>>, h: nat, w: nat, n: nat) returns (regions: seq<Region>)
    requires IsRect(labels, h, w)
    ensures forall i :: 0 <= i < |regions| ==> IsRegionOf(labels, h, w, regions[i]) && 1 <= regions[i].labelIdx <= n
    ensures forall i, j :: 0 <= i < j < |regions| ==> regions[i].labelIdx < regions[j].labelIdx
    ensures forall idx :: 1 <= idx <= n && !LabelAbsent(labels, h, w, idx) ==> HasLabel(regions, idx)
  {
    regions := [];
    for idx := 1 to n + 1
      invariant Collected(labels, h, w, regions, idx)
    {
      var info := RegionInfo(labels, h, w, idx);
      if info.Some? {
        CollectedAppend(labels, h, w, regions, idx, info.value);
        regions := regions + [info.value];
      } else {
        CollectedSkip(labels, h, w, regions, idx);
      }
    }
  }

  /** The regions collected for the labels below `upTo`: in label order, one for each label present. */
  ghost predicate Collected(labels: seq<seq<int>>, h: nat, w: nat, regions: seq<Region>, upTo: int)
    requires IsRect(labels, h, w)
  {
    && (forall i :: 0 <= i < |regions| ==> IsRegionOf(labels, h, w, regions[i]) && 1 <= regions[i].labelIdx < upTo)
    && (forall i, j :: 0 <= i < j < |regions| ==> regions[i].labelIdx < regions[j].labelIdx)
    && (forall k :: 1 <= k < upTo && !LabelAbsent(labels, h, w, k) ==> HasLabel(regions, k))
  }

  /** Appending the region of label `idx` extends the collection to `idx`. */
  lemma CollectedAppend(labels: seq<seq<int>>, h: nat, w: nat, regions: seq<Region>, idx: int, r: Region)
    requires IsRect(labels, h, w) && Collected(labels, h, w, regions, idx)
    requires IsRegionOf(labels, h, w, r) && r.labelIdx == idx && 1 <= idx
    ensures Collected(labels, h, w, regions + [r], idx + 1)
  {
    var next := regions + [r];
    forall i | 0 <= i < |next| ensures IsRegionOf(labels, h, w, next[i]) && 1 <= next[i].labelIdx < idx + 1 {
      if i < |regions| {
        assert next[i] == regions[i];
      }
    }
    LabelOrderAppend(regions, r);
    forall k | 1 <= k < idx + 1 && !LabelAbsent(labels, h, w, k) ensures HasLabel(next, k) {
      HasLabelAppend(regions, r, k);
    }
  }

  /** A region of a larger label goes after those of smaller ones. */
  lemma LabelOrderAppend(regions: seq<Region>, r: Region)
    requires forall i :: 0 <= i < |regions| ==> regions[i].labelIdx < r.labelIdx
    requires forall i, j :: 0 <= i < j < |regions| ==> regions[i].labelIdx < regions[j].labelIdx
    ensures forall i, j :: 0 <= i < j < |regions| + 1 ==> (regions + [r])[i].labelIdx < (regions + [r])[j].labelIdx
  {
    var next := regions + [r];
    forall i, j | 0 <= i < j < |next| ensures next[i].labelIdx < next[j].labelIdx {
      assert next[i] == regions[i];
      if j < |regions| {
        assert next[j] == regions[j];
      }
    }
  }

  /** Appending keeps every label present and adds the new region's. */
  lemma HasLabelAppend(regions: seq<Region>, r: Region, k: int)
    ensures HasLabel(regions + [r], k) <==> HasLabel(regions, k) || r.labelIdx == k
  {
    var next := regions + [r];
    if HasLabel(regions, k) {
      var i :| 0 <= i < |regions| && regions[i].labelIdx == k;
      assert next[i] == regions[i];
    }
    if r.labelIdx == k {
      assert next[|regions|] == r;
    }
    if HasLabel(next, k) {
      var i :| 0 <= i < |next| && next[i].labelIdx == k;
      if i < |regions| {
        assert next[i] == regions[i];
      }
    }
  }

  /** An absent label adds nothing. */
  lemma CollectedSkip(labels: seq<seq<int>>, h: nat, w: nat, regions: seq<Region>, idx: int)
    requires IsRect(labels, h, w) && Collected(labels, h, w, regions, idx) && LabelAbsent(labels, h, w, idx)
    ensures Collected(labels, h, w, regions, idx + 1)
  {
  }

  /** Some region carries label `idx`. */
  ghost predicate HasLabel(regions: seq<Region>, idx: int) {
    exists i :: 0 <= i < |regions| && regions[i].labelIdx == idx
  }

  /** The speck filter: at least 10 by 10, or at least 100 pixels. */
  predicate KeepRegion(r: Region) {
    (r.Width() >= 10 && r.Height() >= 10) || r.area >= 100
  }

  /** The list comprehension over `regions` with the speck filter, in order. */
  function FilterKept(rs: seq<Region>): (r: seq<Region>)
    ensures forall x :: x in r <==> x in rs && KeepRegion(x)
    ensures |r| <= |rs|
  {
    if |rs| == 0 then [] else FilterKept(rs[..|rs| - 1]) + (if KeepRegion(rs[|rs| - 1]) then [rs[|rs| - 1]] else [])
  }

  /** Each group is one region, grouped in order of decreasing area. */
  predicate GroupsInAreaOrder(groups: seq<seq<Region>>)
    requires forall k :: 0 <= k < |groups| ==> |groups[k]| == 1
  {
    forall k1, k2 :: 0 <= k1 < k2 < |groups| ==> groups[k1][0].area >= groups[k2][0].area
  }

  /**
   * `group_regions_into_bosses`: filter, sort by area (largest first, ties in
   * input order), and open a one-region group for every region whose label
   * has not been used yet.
   */
  method GroupRegions(regions: seq<Region>) returns (groups: seq<seq<Region>>)
    ensures forall k :: 0 <= k < |groups| ==> |groups[k]| == 1 && groups[k][0] in regions && KeepRegion(groups[k][0])
    ensures forall k1, k2 :: 0 <= k1 < k2 < |groups| ==> groups[k1][0].labelIdx != groups[k2][0].labelIdx
    ensures forall r :: r in regions && KeepRegion(r) ==> HasGroupWithLabel(groups, r.labelIdx)
    ensures GroupsInAreaOrder(groups)
    ensures (forall i, j :: 0 <= i < j < |regions| ==> regions[i].labelIdx < regions[j].labelIdx) ==>
      forall k1, k2 :: 0 <= k1 < k2 < |groups| && groups[k1][0].area == groups[k2][0].area ==>
        groups[k1][0].labelIdx < groups[k2][0].labelIdx
  {
    var kept := FilterKept(regions);
    groups := [];
    if |kept| == 0 {
      return;
    }
    var sorted := SortDesc(kept, AreaOf);
    SortedElements(kept, sorted);
    ghost var at: seq<int>;
    groups, at := OpenGroups(sorted);
    forall r | r in regions && KeepRegion(r) ensures HasGroupWithLabel(groups, r.labelIdx) {
      var j :| 0 <= j < |sorted| && sorted[j] == r;
    }
    forall k1, k2 | 0 <= k1 < k2 < |groups| ensures groups[k1][0].area >= groups[k2][0].area {
      assert AreaOf(sorted[at[k1]]) >= AreaOf(sorted[at[k2]]);
    }
    StableGroups(regions, groups, at);
  }

  /**
   * Groups opened in order from the stable sort of the kept regions are, when
   * the regions come with rising labels, in label order among equal areas.
   */
  lemma StableGroups(regions: seq<Region>, groups: seq<seq<Region>>, at: seq<int>)
    requires |at| == |groups|
    requires forall k :: 0 <= k < |groups| ==>
      0 <= at[k] < |SortDesc(FilterKept(regions), AreaOf)| && groups[k] == [SortDesc(FilterKept(regions), AreaOf)[at[k]]]
    requires forall k1, k2 :: 0 <= k1 < k2 < |groups| ==> at[k1] < at[k2]
    ensures (forall i, j :: 0 <= i < j < |regions| ==> regions[i].labelIdx < regions[j].labelIdx) ==>
      forall k1, k2 :: 0 <= k1 < k2 < |groups| && groups[k1][0].area == groups[k2][0].area ==>
        groups[k1][0].labelIdx < groups[k2][0].labelIdx
  {
    if forall i, j :: 0 <= i < j < |regions| ==> regions[i].labelIdx < regions[j].labelIdx {
      var kept := FilterKept(regions);
      FilterKeptInLabelOrder(regions);
      var sorted := SortDesc(kept, AreaOf);
      SortDescStable(kept, AreaOf, LabelOf);
      forall k1, k2 | 0 <= k1 < k2 < |groups| && groups[k1][0].area == groups[k2][0].area
        ensures groups[k1][0].labelIdx < groups[k2][0].labelIdx
      {
        assert GoesBefore(sorted[at[k1]], sorted[at[k2]], AreaOf, LabelOf);
      }
    }
  }

  /** The filter keeps the regions in their order, so rising labels stay rising. */
  lemma {:induction false} FilterKeptInLabelOrder(rs: seq<Region>)
    requires forall i, j :: 0 <= i < j < |rs| ==> rs[i].labelIdx < rs[j].labelIdx
    ensures forall i, j :: 0 <= i < j < |FilterKept(rs)| ==> FilterKept(rs)[i].labelIdx < FilterKept(rs)[j].labelIdx
  {
    if |rs| > 0 {
      var p, last := rs[..|rs| - 1], rs[|rs| - 1];
      FilterKeptInLabelOrder(p);
      var f := FilterKept(p);
      forall x | x in f ensures x.labelIdx < last.labelIdx {
        var i :| 0 <= i < |p| && p[i] == x;
      }
      var r := FilterKept(rs);
      assert p == rs[..|rs| - 1];
      assert r == f + (if KeepRegion(last) then [last] else []);
      forall i, j | 0 <= i < j < |r| ensures r[i].labelIdx < r[j].labelIdx {
        if j >= |f| {
          assert r[i] == f[i] && f[i] in f && r[j] == last;
        } else {
          assert r[i] == f[i] && r[j] == f[j];
        }
      }
    }
  }

  /** The loop over the sorted regions: skip a region whose label is used, else open a group for it. */
  method OpenGroups(sorted: seq<Region>) returns (groups: seq<seq<Region>>, ghost at: seq<int>)
    ensures |at| == |groups|
    ensures forall k :: 0 <= k < |groups| ==> 0 <= at[k] < |sorted| && groups[k] == [sorted[at[k]]]
    ensures forall k1, k2 :: 0 <= k1 < k2 < |groups| ==> at[k1] < at[k2]
    ensures forall k1, k2 :: 0 <= k1 < k2 < |groups| ==> groups[k1][0].labelIdx != groups[k2][0].labelIdx
    ensures forall j :: 0 <= j < |sorted| ==> HasGroupWithLabel(groups, sorted[j].labelIdx)
  {
    var used: set<int> := {};
    groups, at := [], [];
    for i := 0 to |sorted|
      invariant Opened(sorted, groups, at, used, i)
    {
      if sorted[i].labelIdx in used {
        continue;
      }
      OpenedAppend(sorted, groups, at, used, i);
      groups := groups + [[sorted[i]]];
      at := at + [i];
      used := used + {sorted[i].labelIdx};
    }
  }

  /**
   * The groups opened from `sorted[..i]`: group k is the one region
   * `sorted[at[k]]`, in order, with distinct labels, and `used` is exactly
   * the set of their labels, which covers every region scanned.
   */
  ghost predicate Opened(sorted: seq<Region>, groups: seq<seq<Region>>, at: seq<int>, used: set<int>, i: int) {
    && |at| == |groups|
    && (forall k :: 0 <= k < |groups| ==> 0 <= at[k] < i && at[k] < |sorted| && groups[k] == [sorted[at[k]]])
    && (forall k1, k2 :: 0 <= k1 < k2 < |groups| ==> at[k1] < at[k2])
    && (forall k1, k2 :: 0 <= k1 < k2 < |groups| ==> groups[k1][0].labelIdx != groups[k2][0].labelIdx)
    && (forall k :: 0 <= k < |groups| ==> groups[k][0].labelIdx in used)
    && (forall l :: l in used ==> HasGroupWithLabel(groups, l))
    && (forall j :: 0 <= j < i && j < |sorted| ==> sorted[j].labelIdx in used)
  }

  /** Opening a group for a region whose label is unused extends the invariant past it. */
  lemma OpenedAppend(sorted: seq<Region>, groups: seq<seq<Region>>, at: seq<int>, used: set<int>, i: int)
    requires 0 <= i < |sorted| && Opened(sorted, groups, at, used, i) && sorted[i].labelIdx !in used
    ensures Opened(sorted, groups + [[sorted[i]]], at + [i], used + {sorted[i].labelIdx}, i + 1)
  {
    var g, a := groups + [[sorted[i]]], at + [i];
    forall k | 0 <= k < |g| ensures 0 <= a[k] < i + 1 && g[k] == [sorted[a[k]]] && g[k][0].labelIdx in used + {sorted[i].labelIdx} {
      if k < |groups| {
        assert g[k] == groups[k] && a[k] == at[k];
      }
    }
    forall k1, k2 | 0 <= k1 < k2 < |g| ensures a[k1] < a[k2] && g[k1][0].labelIdx != g[k2][0].labelIdx {
      assert g[k1] == groups[k1] && a[k1] == at[k1];
      if k2 < |groups| {
        assert g[k2] == groups[k2] && a[k2] == at[k2];
      }
    }
    forall l | l in used + {sorted[i].labelIdx} ensures HasGroupWithLabel(g, l) {
      HasGroupAppend(groups, [sorted[i]], l);
    }
  }

  /** Appending a group keeps every label present and adds the new group's. */
  lemma HasGroupAppend(groups: seq<seq<Region>>, grp: seq<Region>, l: int)
    requires |grp| > 0
    ensures HasGroupWithLabel(groups + [grp], l) <==> HasGroupWithLabel(groups, l) || grp[0].labelIdx == l
  {
    var next := groups + [grp];
    if HasGroupWithLabel(groups, l) {
      var k :| 0 <= k < |groups| && |groups[k]| > 0 && groups[k][0].labelIdx == l;
      assert next[k] == groups[k];
    }
    if grp[0].labelIdx == l {
      assert next[|groups|] == grp;
    }
    if HasGroupWithLabel(next, l) {
      var k :| 0 <= k < |next| && |next[k]| > 0 && next[k][0].labelIdx == l;
      if k < |groups| {
        assert next[k] == groups[k];
      }
    }
  }

  /** Some group's region carries label `l`. */
  ghost predicate HasGroupWithLabel(groups: seq<seq<Region>>, l: int) {
    exists k :: 0 <= k < |groups| && |groups[k]| > 0 && groups[k][0].labelIdx == l
  }

  /** The sorted list holds the same regions. */
  lemma SortedElements(kept: seq<Region>, sorted: seq<Region>)
    requires sorted == SortDesc(kept, AreaOf)
    ensures forall x :: x in sorted <==> x in kept
  {
    forall x ensures x in sorted <==> x in kept {
      SortDescSameElements(kept, AreaOf, x);
    }
  }

  /** The groups of a list of regions of one labelling, as scripts/extract_bosses.py builds them. */
  ghost predicate IsBossGroups(labels: seq<seq<int>>, h: nat, w: nat, n: nat, groups: seq<seq<Region>>)
    requires IsRect(labels, h, w)
  {
    && (forall k :: 0 <= k < |groups| ==>
          |groups[k]| == 1 && IsRegionOf(labels, h, w, groups[k][0])
          && 1 <= groups[k][0].labelIdx <= n && KeepRegion(groups[k][0]))
    && (forall k1, k2 :: 0 <= k1 < k2 < |groups| ==> groups[k1][0].labelIdx != groups[k2][0].labelIdx)
    && GroupsInAreaOrder(groups)
    && (forall k1, k2 :: 0 <= k1 < k2 < |groups| && groups[k1][0].area == groups[k2][0].area ==>
          groups[k1][0].labelIdx < groups[k2][0].labelIdx)
  }

  /**
   * Every label that survives the speck filter is exactly one group: the
   * group holds that label's region and no other group shares its label.
   */
  lemma EveryKeptRegionIsAGroup(labels: seq<seq<int>>, h: nat, w: nat, groups: seq<seq<Region>>, r: Region)
    requires IsRect(labels, h, w)
    requires forall k :: 0 <= k < |groups| ==> |groups[k]| == 1 && IsRegionOf(labels, h, w, groups[k][0])
    requires IsRegionOf(labels, h, w, r) && HasGroupWithLabel(groups, r.labelIdx)
    ensures exists k :: 0 <= k < |groups| && groups[k] == [r]
  {
    var k :| 0 <= k < |groups| && |groups[k]| > 0 && groups[k][0].labelIdx == r.labelIdx;
    RegionUnique(labels, h, w, groups[k][0], r);
    assert groups[k] == [groups[k][0]];
  }

  /** The union of the boxes of a non-empty group: `min`/`max` of its bounds. */
  function GroupBox(g: seq<Region>): (b: Box)
    requires |g| > 0
    ensures forall i :: 0 <= i < |g| ==> b.Encloses(g[i].box)
    ensures exists i :: 0 <= i < |g| && b.minRow == g[i].box.minRow
    ensures exists i :: 0 <= i < |g| && b.maxRow == g[i].box.maxRow
    ensures exists i :: 0 <= i < |g| && b.minCol == g[i].box.minCol
    ensures exists i :: 0 <= i < |g| && b.maxCol == g[i].box.maxCol
  {
    if |g| == 1 then g[0].box
    else
      var rest := GroupBox(g[1..]);
      var b := Box(Min(g[0].box.minRow, rest.minRow), Max(g[0].box.maxRow, rest.maxRow),
                   Min(g[0].box.minCol, rest.minCol), Max(g[0].box.maxCol, rest.maxCol));
      assert forall i :: 1 <= i < |g| ==> g[i] == g[1..][i - 1];
      b
  }

  /** A single region's group box is the region's own box. */
  lemma SingletonGroupBox(r: Region)
    ensures GroupBox([r]) == r.box
  {
  }

  /** The union of boxes inside the image lies inside the image. */
  lemma GroupBoxInGrid(g: seq<Region>, h: nat, w: nat)
    requires |g| > 0 && forall i :: 0 <= i < |g| ==> g[i].box.InGrid(h, w)
    ensures GroupBox(g).InGrid(h, w)
  {
    var b := GroupBox(g);
    var i1 :| 0 <= i1 < |g| && b.minRow == g[i1].box.minRow;
    var i2 :| 0 <= i2 < |g| && b.maxRow == g[i2].box.maxRow;
    var i3 :| 0 <= i3 < |g| && b.minCol == g[i3].box.minCol;
    var i4 :| 0 <= i4 < |g| && b.maxCol == g[i4].box.maxCol;
    assert b.Encloses(g[0].box);
  }

  /** One saved boss: `boss_{index}.png`, its size and the number of regions merged into it. */
  datatype Boss = Boss(image: Image, width: int, height: int, index: nat, numRegions: nat)

  /** `boss` is `box` of the sheet with background alpha zeroed, saved as number `index`. */
  ghost predicate BossFrom(img: Image, h: nat, w: nat, bg: Pixel, threshold: int, ch: Channels, boss: Boss, box: Box, index: nat)
    requires IsRect(img, h, w)
  {
    && box.InGrid(h, w) && boss.index == index
    && boss.width == box.Width() && boss.height == box.Height()
    && IsRect(boss.image, boss.height, boss.width)
    && (forall r, c :: 0 <= r < boss.height && 0 <= c < boss.width ==>
          boss.image[r][c] == Cleared(img[box.minRow + r][box.minCol + c], bg, threshold, ch))
  }

  /** Pad, crop and clear one group. */
  method CutBoss(img: Image, h: nat, w: nat, bg: Pixel, group: seq<Region>, index: nat) returns (boss: Boss)
    requires IsRect(img, h, w) && |group| > 0 && forall i :: 0 <= i < |group| ==> group[i].box.InGrid(h, w)
    ensures GroupBox(group).InGrid(h, w)
    ensures BossFrom(img, h, w, bg, Threshold, RGBA, boss, PadClamp(GroupBox(group), Padding, h, w), index)
    ensures boss.numRegions == |group|
  {
    GroupBoxInGrid(group, h, w);
    var box := PadClamp(GroupBox(group), Padding, h, w);
    var region := Crop(img, h, w, box);
    region := ClearBackground(region, box.Height(), box.Width(), bg, Threshold, RGBA);
    boss := Boss(region, box.Width(), box.Height(), index, |group|);
  }

  /**
   * `extract_bosses_smart`, with `ndimage.label` passed in as `labelOf`. The
   * mask marks the non-background pixels; the groups are the kept regions of
   * its labelling, largest first; boss `i` is group `i`'s box padded by 2
   * (clamped to the sheet), with background alpha zeroed.
   */
  method ExtractBossesSmart(img: Image, h: nat, w: nat, labelOf: Mask -> Labelling)
    returns (bosses: seq<Boss>, ghost mask: Mask, ghost groups: seq<seq<Region>>)
    requires IsRect(img, h, w) && h > 0 && w > 0
    requires forall m :: IsRect(m, h, w) ==> IsRect(labelOf(m).labels, h, w)
    ensures IsForegroundMask(mask, img, h, w, BackgroundColor(img), Threshold, RGBA)
    ensures IsBossGroups(labelOf(mask).labels, h, w, labelOf(mask).count, groups)
    ensures forall r :: IsRegionOf(labelOf(mask).labels, h, w, r) && 1 <= r.labelIdx <= labelOf(mask).count && KeepRegion(r) ==>
      exists k :: 0 <= k < |groups| && groups[k] == [r]
    ensures |bosses| == |groups|
    ensures forall i :: 0 <= i < |bosses| ==>
      BossFrom(img, h, w, BackgroundColor(img), Threshold, RGBA, bosses[i], PadClamp(groups[i][0].box, Padding, h, w), i)
      && bosses[i].numRegions == 1
  {
    var bg := BackgroundColor(img);
    var fg := ForegroundMask(img, h, w, bg, Threshold, RGBA);
    mask := fg;
    var labelling := labelOf(fg);
    var labels := labelling.labels;
    var regions := CollectRegions(labels, h, w, labelling.count);
    var bossGroups := GroupRegions(regions);
    groups := bossGroups;
    forall r | IsRegionOf(labels, h, w, r) && 1 <= r.labelIdx <= labelling.count && KeepRegion(r)
      ensures exists k :: 0 <= k < |groups| && groups[k] == [r]
    {
      KeptLabelCollected(labels, h, w, labelling.count, regions, r);
      EveryKeptRegionIsAGroup(labels, h, w, groups, r);
    }
    forall k | 0 <= k < |groups| ensures groups[k][0].box.InGrid(h, w) {
      RegionBounds(labels, h, w, groups[k][0]);
    }
    bosses := CutBosses(img, h, w, bg, bossGroups);
  }

  /** The loop over `enumerate(boss_groups)` for groups of one region each. */
  method CutBosses(img: Image, h: nat, w: nat, bg: Pixel, groups: seq<seq<Region>>) returns (bosses: seq<Boss>)
    requires IsRect(img, h, w)
    requires forall k :: 0 <= k < |groups| ==> |groups[k]| == 1 && groups[k][0].box.InGrid(h, w)
    ensures |bosses| == |groups|
    ensures forall i :: 0 <= i < |bosses| ==>
      BossFrom(img, h, w, bg, Threshold, RGBA, bosses[i], PadClamp(groups[i][0].box, Padding, h, w), i)
      && bosses[i].numRegions == 1
  {
    bosses := [];
    for i := 0 to |groups|
      invariant |bosses| == i
      invariant forall j :: 0 <= j < i ==>
        BossFrom(img, h, w, bg, Threshold, RGBA, bosses[j], PadClamp(groups[j][0].box, Padding, h, w), j)
        && bosses[j].numRegions == 1
    {
      assert groups[i] == [groups[i][0]];
      SingletonGroupBox(groups[i][0]);
      var boss := CutBoss(img, h, w, bg, groups[i], i);
      bosses := bosses + [boss];
    }
  }

  /** A kept region of the labelling is the collected region with its label. */
  lemma KeptLabelCollected(labels: seq<seq<int>>, h: nat, w: nat, n: nat, regions: seq<Region>, r: Region)
    requires IsRect(labels, h, w)
    requires forall i :: 0 <= i < |regions| ==> IsRegionOf(labels, h, w, regions[i])
    requires forall idx :: 1 <= idx <= n && !LabelAbsent(labels, h, w, idx) ==> HasLabel(regions, idx)
    requires IsRegionOf(labels, h, w, r) && 1 <= r.labelIdx <= n
    ensures r in regions
  {
    var m := LabelMask(labels, h, w, r.labelIdx);
    var c :| 0 <= c < w && m[r.box.minRow][c];
    assert labels[r.box.minRow][c] == r.labelIdx;
    assert !LabelAbsent(labels, h, w, r.labelIdx);
    assert HasLabel(regions, r.labelIdx);
    var i :| 0 <= i < |regions| && regions[i].labelIdx == r.labelIdx;
    RegionUnique(labels, h, w, regions[i], r);
  }
}
