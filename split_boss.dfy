/**
 * `manual_split_boss0.py`: split a wide cut holding several bosses at the
 * column gaps between them.
 *
 * A column is a gap when fewer than 5 of its pixels have alpha above 0.
 * Consecutive gap columns are merged into ranges and only ranges of at least
 * three columns are kept. With fewer than two such ranges nothing is split.
 * Otherwise the cut is divided at 0, the midpoint of every range and the
 * width, and each slice with content is cropped to its first and last rows
 * with content.
 */
module SplitBoss {
  import opened Wrappers
  import opened Pixels
  import opened Masks
  import opened Runs
  import opened Sprites

  const GapLimit := 5

  /** `alpha > 0`, pixel by pixel. */
  function VisibleMask(img: Image, h: nat, w: nat): (m: Mask)
    requires IsRect(img, h, w)
    ensures IsRect(m, h, w)
    ensures forall r, c :: 0 <= r < h && 0 <= c < w ==> (m[r][c] <==> img[r][c].a > 0)
  {
    seq(h, r requires 0 <= r < h => seq(w, c requires 0 <= c < w => img[r][c].a > 0))
  }

  /** Column `c` of a mask, top to bottom. */
  function Column(m: Mask, h: nat, w: nat, c: int): (col: seq<bool>)
    requires IsRect(m, h, w) && 0 <= c < w
    ensures |col| == h && forall r :: 0 <= r < h ==> col[r] == m[r][c]
  {
    seq(h, r requires 0 <= r < h => m[r][c])
  }

  // ---------------------------------------------------------- column counts

  /** `np.sum(img_array[:, c, 3] > 0)`. */
  method CountColumn(img: Image, h: nat, w: nat, c: int) returns (n: nat)
    requires IsRect(img, h, w) && 0 <= c < w
    ensures n == CountRow(Column(VisibleMask(img, h, w), h, w, c))
  {
    ghost var col := Column(VisibleMask(img, h, w), h, w, c);
    n := 0;
    for r := 0 to h
      invariant n == CountRow(col[..r])
    {
      assert col[..r + 1][..r] == col[..r];
      if img[r][c].a > 0 {
        n := n + 1;
      }
    }
    assert col[..h] == col;
  }

  /** `col_pixel_counts`: the visible pixels of every column. */
  method ColumnCounts(img: Image, h: nat, w: nat) returns (counts: seq<nat>)
    requires IsRect(img, h, w)
    ensures |counts| == w
    ensures forall c :: 0 <= c < w ==> counts[c] == CountRow(Column(VisibleMask(img, h, w), h, w, c))
  {
    counts := [];
    for c := 0 to w
      invariant |counts| == c
      invariant forall j :: 0 <= j < c ==> counts[j] == CountRow(Column(VisibleMask(img, h, w), h, w, j))
    {
      var n := CountColumn(img, h, w, c);
      counts := counts + [n];
    }
  }

  /** A column count is at most the height, and 0 exactly for a fully transparent column. */
  lemma ColumnCountBounds(img: Image, h: nat, w: nat, c: int)
    requires IsRect(img, h, w) && 0 <= c < w
    ensures CountRow(Column(VisibleMask(img, h, w), h, w, c)) <= h
    ensures CountRow(Column(VisibleMask(img, h, w), h, w, c)) == 0 <==> forall r :: 0 <= r < h ==> img[r][c].a == 0
  {
    CountRowBound(Column(VisibleMask(img, h, w), h, w, c));
  }

  // -------------------------------------------------------------------- gaps

  /** Which columns are gaps. */
  function GapFlags(counts: seq<nat>): (flags: seq<bool>)
    ensures |flags| == |counts| && forall k :: 0 <= k < |counts| ==> (flags[k] <==> counts[k] < GapLimit)
  {
    seq(|counts|, k requires 0 <= k < |counts| => counts[k] < GapLimit)
  }

  predicate Increasing(s: seq<int>) {
    forall a, b :: 0 <= a < b < |s| ==> s[a] < s[b]
  }

  /** `gaps` lists, in ascending order, exactly the columns flagged in `flags`. */
  ghost predicate ListsFlags(gaps: seq<int>, flags: seq<bool>) {
    && Increasing(gaps)
    && (forall i :: 0 <= i < |gaps| ==> 0 <= gaps[i] < |flags|)
    && (forall k :: 0 <= k < |flags| ==> (flags[k] <==> k in gaps))
  }

  /** `gaps`: every column whose count is below 5, left to right. */
  method FindGaps(counts: seq<nat>) returns (gaps: seq<int>)
    ensures ListsFlags(gaps, GapFlags(counts))
  {
    gaps := [];
    for i := 0 to |counts|
      invariant Increasing(gaps) && forall j :: 0 <= j < |gaps| ==> 0 <= gaps[j] < i
      invariant forall k :: 0 <= k < i ==> (counts[k] < GapLimit <==> k in gaps)
    {
      if counts[i] < GapLimit {
        gaps := gaps + [i];
      }
    }
  }

  // ------------------------------------------------------------ gap ranges

  /** `r` is a maximal run of gap columns: all of it is flagged and neither neighbour is. */
  ghost predicate IsMaximalRun(flags: seq<bool>, r: Run) {
    && 0 <= r.start <= r.end < |flags|
    && AllFlagged(flags, r)
    && (r.start == 0 || !flags[r.start - 1])
    && (r.end == |flags| - 1 || !flags[r.end + 1])
  }

  /** At least three columns: `end - start >= 2`. */
  predicate Wide(r: Run) { r.end - r.start >= 2 }

  /** `gap_ranges`: the wide maximal runs, ascending and apart, and every one of them. */
  ghost predicate IsGapRanges(flags: seq<bool>, ranges: seq<Run>) {
    && Apart(flags, ranges)
    && (forall r :: IsMaximalRun(flags, r) && Wide(r) ==> r in ranges)
  }

  /** Every range is a wide maximal run, and the ranges ascend with columns between them. */
  ghost predicate Apart(flags: seq<bool>, ranges: seq<Run>) {
    && (forall i :: 0 <= i < |ranges| ==> IsMaximalRun(flags, ranges[i]) && Wide(ranges[i]))
    && (forall i, j :: 0 <= i < j < |ranges| ==> ranges[i].end + 1 < ranges[j].start)
  }

  /** A column strictly between two neighbours of an ascending list is not in it. */
  lemma NotListed(gaps: seq<int>, i: int, x: int)
    requires Increasing(gaps) && 0 <= i <= |gaps|
    requires i == 0 || gaps[i - 1] < x
    requires i == |gaps| || x < gaps[i]
    ensures x !in gaps
  {
  }

  /** After `gaps[..i]`, the open range `start..end` ends at `gaps[i - 1]` and starts a run. */
  ghost predicate OpenRange(flags: seq<bool>, gaps: seq<int>, i: int, start: int, end: int) {
    && ListsFlags(gaps, flags)
    && 1 <= i <= |gaps| && end == gaps[i - 1] && 0 <= start <= end
    && AllFlagged(flags, Run(start, end)) && (start == 0 || !flags[start - 1])
  }

  /** The ranges kept so far: wide maximal runs, all before `next`, and every one of those. */
  ghost predicate ClosedRanges(flags: seq<bool>, next: int, ranges: seq<Run>) {
    && (forall j :: 0 <= j < |ranges| ==> IsMaximalRun(flags, ranges[j]) && Wide(ranges[j]) && ranges[j].end + 1 < next)
    && (forall j, k :: 0 <= j < k < |ranges| ==> ranges[j].end + 1 < ranges[k].start)
    && (forall r :: IsMaximalRun(flags, r) && Wide(r) && r.end < next ==> r in ranges)
  }

  /** The column after the open range is the one after `gaps[i - 1]`; the next listed gap, if any, starts later. */
  function Next(flags: seq<bool>, gaps: seq<int>, i: int): int
    requires 0 <= i < |gaps| + 1
  {
    if i == |gaps| then |flags| + 1 else gaps[i]
  }

  /** A maximal run ending in the flagged `start..end`, with `start` its first column, is that range. */
  lemma OnlyRun(flags: seq<bool>, start: int, end: int, r: Run)
    requires 0 <= start <= end < |flags| && AllFlagged(flags, Run(start, end)) && (start == 0 || !flags[start - 1])
    requires end == |flags| - 1 || !flags[end + 1]
    requires IsMaximalRun(flags, r) && start <= r.end <= end
    ensures r == Run(start, end)
  {
    if r.end < end {
      assert InRun(Run(start, end), r.end + 1);
    }
    if r.start < start {
      assert InRun(r, start - 1);
    } else if r.start > start {
      assert InRun(Run(start, end), r.start - 1);
    }
  }

  /** A maximal run that does not end before `start` and ends before `next` is `start..end`. */
  lemma RunsUpTo(flags: seq<bool>, gaps: seq<int>, i: int, start: int, end: int, r: Run)
    requires OpenRange(flags, gaps, i, start, end) && end + 1 < Next(flags, gaps, i)
    requires IsMaximalRun(flags, r) && start <= r.end < Next(flags, gaps, i)
    ensures r == Run(start, end)
  {
    NotListed(gaps, i, end + 1);
    assert flags[r.end];
    if r.end > end {
      NotListed(gaps, i, r.end);
    }
    OnlyRun(flags, start, end, r);
  }

  /** Closing the open range before `next`: it is maximal, and kept when wide. */
  lemma CloseRange(flags: seq<bool>, gaps: seq<int>, i: int, start: int, end: int, ranges: seq<Run>)
    requires OpenRange(flags, gaps, i, start, end) && end + 1 < Next(flags, gaps, i)
    requires ClosedRanges(flags, start, ranges)
    ensures ClosedRanges(flags, Next(flags, gaps, i), if Wide(Run(start, end)) then ranges + [Run(start, end)] else ranges)
  {
    var r, next := Run(start, end), Next(flags, gaps, i);
    NotListed(gaps, i, end + 1);
    assert IsMaximalRun(flags, r);
    CloseComplete(flags, gaps, i, start, end, ranges);
    if Wide(r) {
      AppendClosed(flags, next, ranges, r);
      assert ClosedRanges(flags, next, ranges + [r]);
    } else {
      assert ClosedRanges(flags, next, ranges);
    }
  }

  /** Appending a wide maximal run that starts after every kept one. */
  lemma AppendClosed(flags: seq<bool>, next: int, ranges: seq<Run>, r: Run)
    requires forall j :: 0 <= j < |ranges| ==> IsMaximalRun(flags, ranges[j]) && Wide(ranges[j]) && ranges[j].end + 1 < r.start
    requires forall j, k :: 0 <= j < k < |ranges| ==> ranges[j].end + 1 < ranges[k].start
    requires IsMaximalRun(flags, r) && Wide(r) && r.end + 1 < next
    ensures forall j :: 0 <= j < |ranges + [r]| ==> IsMaximalRun(flags, (ranges + [r])[j]) && Wide((ranges + [r])[j]) && (ranges + [r])[j].end + 1 < next
    ensures forall j, k :: 0 <= j < k < |ranges + [r]| ==> (ranges + [r])[j].end + 1 < (ranges + [r])[k].start
  {
  }

  lemma CloseComplete(flags: seq<bool>, gaps: seq<int>, i: int, start: int, end: int, ranges: seq<Run>)
    requires OpenRange(flags, gaps, i, start, end) && end + 1 < Next(flags, gaps, i)
    requires ClosedRanges(flags, start, ranges)
    ensures forall r :: IsMaximalRun(flags, r) && Wide(r) && r.end < Next(flags, gaps, i) ==>
      r in (if Wide(Run(start, end)) then ranges + [Run(start, end)] else ranges)
  {
    forall r | IsMaximalRun(flags, r) && Wide(r) && r.end < Next(flags, gaps, i)
      ensures r in (if Wide(Run(start, end)) then ranges + [Run(start, end)] else ranges)
    {
      if r.end >= start {
        RunsUpTo(flags, gaps, i, start, end, r);
      }
    }
  }

  /** The first entry of an ascending list is its least. */
  lemma FirstListed(gaps: seq<int>, x: int)
    requires Increasing(gaps) && x in gaps
    ensures gaps[0] <= x
  {
    var j :| 0 <= j < |gaps| && gaps[j] == x;
    if j > 0 {
      assert gaps[0] < gaps[j];
    }
  }

  /** Before the first gap column no run ends. */
  lemma FirstOpen(flags: seq<bool>, gaps: seq<int>)
    requires ListsFlags(gaps, flags) && |gaps| > 0
    ensures OpenRange(flags, gaps, 1, gaps[0], gaps[0]) && ClosedRanges(flags, gaps[0], [])
  {
    NotListed(gaps, 0, gaps[0] - 1);
    assert gaps[0] in gaps;
    forall r | IsMaximalRun(flags, r) ensures gaps[0] <= r.end {
      assert InRun(r, r.end);
      FirstListed(gaps, r.end);
    }
  }

  /** A gap after a column that is not one starts a run. */
  lemma OpenNext(flags: seq<bool>, gaps: seq<int>, i: int, end: int)
    requires ListsFlags(gaps, flags) && 1 <= i < |gaps| && end == gaps[i - 1] && end + 1 < gaps[i]
    ensures OpenRange(flags, gaps, i + 1, gaps[i], gaps[i])
  {
    NotListed(gaps, i, gaps[i] - 1);
    assert gaps[i] in gaps;
  }

  /** Extending `start..end` by the next column, which is a gap. */
  lemma ExtendRange(flags: seq<bool>, gaps: seq<int>, i: int, start: int, end: int)
    requires OpenRange(flags, gaps, i, start, end) && i < |gaps| && gaps[i] == end + 1
    ensures OpenRange(flags, gaps, i + 1, start, end + 1)
  {
    assert gaps[i] in gaps;
  }

  /** Kept ranges before a column past the end are all of them. */
  lemma AllClosed(flags: seq<bool>, ranges: seq<Run>)
    requires ClosedRanges(flags, |flags| + 1, ranges)
    ensures IsGapRanges(flags, ranges)
  {
  }

  /** Without gap columns there is no run. */
  lemma NoGapsNoRanges(flags: seq<bool>)
    requires ListsFlags([], flags)
    ensures IsGapRanges(flags, [])
  {
    forall r | IsMaximalRun(flags, r) ensures flags[r.start] {
      assert InRun(r, r.start);
    }
  }

  /**
   * The merging loop over `gaps`: a gap right after the open range extends it;
   * any other closes it, keeping it when it spans at least three columns, and
   * opens a new one. The result is exactly the wide maximal runs of gaps.
   */
  method MergeGaps(gaps: seq<int>, ghost flags: seq<bool>) returns (ranges: seq<Run>)
    requires ListsFlags(gaps, flags)
    ensures IsGapRanges(flags, ranges)
  {
    ranges := [];
    if |gaps| == 0 {
      NoGapsNoRanges(flags);
      return;
    }
    var start, end := gaps[0], gaps[0];
    FirstOpen(flags, gaps);
    for i := 1 to |gaps|
      invariant OpenRange(flags, gaps, i, start, end) && ClosedRanges(flags, start, ranges)
    {
      if gaps[i] == end + 1 {
        ExtendRange(flags, gaps, i, start, end);
        end := gaps[i];
      } else {
        CloseRange(flags, gaps, i, start, end, ranges);
        OpenNext(flags, gaps, i, end);
        if end - start >= 2 {
          ranges := ranges + [Run(start, end)];
        }
        start, end := gaps[i], gaps[i];
      }
    }
    NotListed(gaps, |gaps|, end + 1);
    CloseRange(flags, gaps, |gaps|, start, end, ranges);
    if end - start >= 2 {
      ranges := ranges + [Run(start, end)];
    }
    AllClosed(flags, ranges);
  }

  // ---------------------------------------------------------- split points

  /** `[0] + [(start + end) // 2 for start, end in gap_ranges] + [width]`. */
  function SplitPoints(ranges: seq<Run>, width: int): (p: seq<int>)
    ensures |p| == |ranges| + 2 && p[0] == 0 && p[|p| - 1] == width
    ensures forall k :: 0 <= k < |ranges| ==> p[k + 1] == (ranges[k].start + ranges[k].end) / 2
  {
    [0] + seq(|ranges|, k requires 0 <= k < |ranges| => (ranges[k].start + ranges[k].end) / 2) + [width]
  }

  /** The split points rise strictly, so the slices tile `0..width` and none is empty. */
  lemma SplitPointsIncrease(flags: seq<bool>, ranges: seq<Run>)
    requires Apart(flags, ranges) && |flags| > 0
    ensures Increasing(SplitPoints(ranges, |flags|))
  {
    var p := SplitPoints(ranges, |flags|);
    forall k | 0 <= k < |ranges|
      ensures 0 <= ranges[k].start < p[k + 1] < ranges[k].end < |flags|
    {
      assert IsMaximalRun(flags, ranges[k]) && Wide(ranges[k]);
      Midpoint(ranges[k].start, ranges[k].end);
    }
    forall a, b | 0 <= a < b < |p| ensures p[a] < p[b] {
      if 0 < a && b < |p| - 1 {
        assert ranges[a - 1].end + 1 < ranges[b - 1].start;
      }
    }
  }

  /** The midpoint of a range of three or more columns lies strictly inside it. */
  lemma Midpoint(s: int, e: int)
    requires e - s >= 2
    ensures s < (s + e) / 2 < e
  {
  }

  // ------------------------------------------------------------ the slices

  /** `region[:, :, 3] > 0` for the slice of columns `c0..c1-1`. */
  function SliceMask(img: Image, h: nat, w: nat, c0: int, c1: int): (m: Mask)
    requires IsRect(img, h, w) && 0 <= c0 <= c1 <= w
    ensures IsRect(m, h, c1 - c0)
    ensures forall r, c :: 0 <= r < h && 0 <= c < c1 - c0 ==> (m[r][c] <==> img[r][c0 + c].a > 0)
  {
    seq(h, r requires 0 <= r < h => seq(c1 - c0, c requires 0 <= c < c1 - c0 => img[r][c0 + c].a > 0))
  }

  /** One saved part: `boss_0_part{index}.png`, its columns and its rows with content. */
  datatype Part = Part(image: Image, index: nat, startCol: int, endCol: int, minRow: int, maxRow: int)

  /** Part `p` is slice `p.index` cut to the rows holding a visible pixel. */
  ghost predicate PartFrom(img: Image, h: nat, w: nat, points: seq<int>, p: Part)
    requires IsRect(img, h, w)
  {
    && p.index + 1 < |points|
    && p.startCol == points[p.index] && p.endCol == points[p.index + 1]
    && 0 <= p.startCol < p.endCol <= w
    && var m := SliceMask(img, h, w, p.startCol, p.endCol);
    && (exists b :: IsTightBox(m, h, p.endCol - p.startCol, b) && b.minRow == p.minRow && b.maxRow == p.maxRow)
    && 0 <= p.minRow <= p.maxRow < h
    && p.image == Crop(img, h, w, Box(p.minRow, p.maxRow, p.startCol, p.endCol - 1))
  }

  ghost predicate IsPartIndex(parts: seq<Part>, i: int) {
    exists k :: 0 <= k < |parts| && parts[k].index == i
  }

  /** After the slices below `upto`: one part per slice with content, in slice order. */
  ghost predicate PartsInv(img: Image, h: nat, w: nat, points: seq<int>, upto: int, parts: seq<Part>)
    requires IsRect(img, h, w) && Increasing(points) && |points| >= 1 && points[0] == 0 && points[|points| - 1] == w
  {
    && PartsFrom(img, h, w, points, upto, parts)
    && (forall i :: 0 <= i < upto && i + 1 < |points| ==> (IsPartIndex(parts, i) <==> SliceHasContent(img, h, w, points, i)))
  }

  /** Each part comes from a slice below `upto`, in slice order. */
  ghost predicate PartsFrom(img: Image, h: nat, w: nat, points: seq<int>, upto: int, parts: seq<Part>)
    requires IsRect(img, h, w)
  {
    && (forall k :: 0 <= k < |parts| ==> parts[k].index < upto && PartFrom(img, h, w, points, parts[k]))
    && (forall j, k :: 0 <= j < k < |parts| ==> parts[j].index < parts[k].index)
  }

  lemma AppendPartFrom(img: Image, h: nat, w: nat, points: seq<int>, i: int, parts: seq<Part>, p: Part)
    requires IsRect(img, h, w) && PartsFrom(img, h, w, points, i, parts)
    requires p.index == i && PartFrom(img, h, w, points, p)
    ensures PartsFrom(img, h, w, points, i + 1, parts + [p])
  {
    var parts' := parts + [p];
    forall k | 0 <= k < |parts'| ensures parts'[k].index < i + 1 && PartFrom(img, h, w, points, parts'[k]) {
      if k < |parts| {
        assert parts'[k] == parts[k];
      }
    }
    PartOrderAppend(parts, p);
  }

  /** A part of a later slice goes after the parts of earlier ones. */
  lemma PartOrderAppend(parts: seq<Part>, p: Part)
    requires forall k :: 0 <= k < |parts| ==> parts[k].index < p.index
    requires forall j, k :: 0 <= j < k < |parts| ==> parts[j].index < parts[k].index
    ensures forall j, k :: 0 <= j < k < |parts| + 1 ==> (parts + [p])[j].index < (parts + [p])[k].index
  {
    var parts' := parts + [p];
    forall j, k | 0 <= j < k < |parts'| ensures parts'[j].index < parts'[k].index {
      assert parts'[j] == parts[j];
      if k < |parts| {
        assert parts'[k] == parts[k];
      }
    }
  }

  /** Slice `i` has a pixel with alpha above 0. */
  ghost predicate SliceHasContent(img: Image, h: nat, w: nat, points: seq<int>, i: int)
    requires IsRect(img, h, w) && Increasing(points) && |points| >= 1 && points[0] == 0 && points[|points| - 1] == w
    requires 0 <= i && i + 1 < |points|
  {
    SliceBounds(points, w, i);
    !IsEmptyMask(SliceMask(img, h, w, points[i], points[i + 1]), h, points[i + 1] - points[i])
  }

  /** Every slice lies in `0..w`. */
  lemma SliceBounds(points: seq<int>, w: nat, i: int)
    requires Increasing(points) && |points| >= 1 && points[0] == 0 && points[|points| - 1] == w && 0 <= i && i + 1 < |points|
    ensures 0 <= points[i] < points[i + 1] <= w
  {
    if i > 0 {
      assert points[0] < points[i];
    }
    if i + 1 < |points| - 1 {
      assert points[i + 1] < points[|points| - 1];
    }
  }

  lemma AppendPart(parts: seq<Part>, p: Part)
    ensures IsPartIndex(parts + [p], p.index)
    ensures forall i :: i != p.index ==> (IsPartIndex(parts + [p], i) <==> IsPartIndex(parts, i))
  {
    var parts' := parts + [p];
    assert parts'[|parts|] == p;
    forall i | i != p.index ensures IsPartIndex(parts', i) <==> IsPartIndex(parts, i) {
      if IsPartIndex(parts', i) {
        var k :| 0 <= k < |parts'| && parts'[k].index == i;
        assert k < |parts| && parts[k] == parts'[k];
      }
      if IsPartIndex(parts, i) {
        var k :| 0 <= k < |parts| && parts[k].index == i;
        assert parts'[k] == parts[k];
      }
    }
  }

  /** Skipping slice `i`, which has no visible pixel. */
  lemma SkipSlice(img: Image, h: nat, w: nat, points: seq<int>, i: int, parts: seq<Part>)
    requires IsRect(img, h, w) && Increasing(points) && |points| >= 1 && points[0] == 0 && points[|points| - 1] == w
    requires 0 <= i && i + 1 < |points| && PartsInv(img, h, w, points, i, parts)
    requires !SliceHasContent(img, h, w, points, i)
    ensures PartsInv(img, h, w, points, i + 1, parts)
  {
  }

  /** The part `split_boss_sprite` saves for slice `i` with tight box `b`: the slice cut to the box's rows. */
  function SlicePartOf(img: Image, h: nat, w: nat, points: seq<int>, i: nat, b: Box): Part
    requires IsRect(img, h, w) && i + 1 < |points| && 0 <= points[i] < points[i + 1] <= w && 0 <= b.minRow <= b.maxRow < h
  {
    Part(Crop(img, h, w, Box(b.minRow, b.maxRow, points[i], points[i + 1] - 1)), i, points[i], points[i + 1], b.minRow, b.maxRow)
  }

  /** Saving the part cut from slice `i`, which has a visible pixel, by the slice's tight box `b`. */
  lemma SaveSlice(img: Image, h: nat, w: nat, points: seq<int>, i: nat, parts: seq<Part>, b: Box)
    requires IsRect(img, h, w) && Increasing(points) && |points| >= 1 && points[0] == 0 && points[|points| - 1] == w
    requires i + 1 < |points| && PartsInv(img, h, w, points, i, parts) && SliceHasContent(img, h, w, points, i)
    requires 0 <= points[i] < points[i + 1] <= w
    requires IsTightBox(SliceMask(img, h, w, points[i], points[i + 1]), h, points[i + 1] - points[i], b)
    ensures PartsInv(img, h, w, points, i + 1, parts + [SlicePartOf(img, h, w, points, i, b)])
  {
    var p := SlicePartOf(img, h, w, points, i, b);
    SlicePart(img, h, w, points, i, b);
    AppendPart(parts, p);
    AppendPartFrom(img, h, w, points, i, parts, p);
  }

  /** One slice: skip it when no pixel is visible, otherwise crop it to its rows with content. */
  method SliceStep(img: Image, h: nat, w: nat, points: seq<int>, i: nat, parts: seq<Part>) returns (parts': seq<Part>)
    requires IsRect(img, h, w) && Increasing(points) && |points| >= 1 && points[0] == 0 && points[|points| - 1] == w
    requires i + 1 < |points| && PartsInv(img, h, w, points, i, parts)
    ensures PartsInv(img, h, w, points, i + 1, parts')
  {
    var box := SliceBox(img, h, w, points, i);
    if box.None? {
      SkipSlice(img, h, w, points, i, parts);
      return parts;
    }
    SaveSlice(img, h, w, points, i, parts, box.value);
    parts' := parts + [SlicePartOf(img, h, w, points, i, box.value)];
  }

  /** The bounding box of the visible pixels of slice `i`, `None` when there are none. */
  method SliceBox(img: Image, h: nat, w: nat, points: seq<int>, i: nat) returns (box: Option<Box>)
    requires IsRect(img, h, w) && Increasing(points) && |points| >= 1 && points[0] == 0 && points[|points| - 1] == w
    requires i + 1 < |points|
    ensures box.None? <==> !SliceHasContent(img, h, w, points, i)
    ensures box.Some? ==>
      && 0 <= points[i] < points[i + 1] <= w
      && IsTightBox(SliceMask(img, h, w, points[i], points[i + 1]), h, points[i + 1] - points[i], box.value)
  {
    SliceBounds(points, w, i);
    var c0, c1 := points[i], points[i + 1];
    var m := SliceMask(img, h, w, c0, c1);
    var area;
    box, area := BoundingBox(m, h, c1 - c0);
    CountMaskZero(m, h, c1 - c0);
    assert SliceHasContent(img, h, w, points, i) <==> !IsEmptyMask(m, h, c1 - c0);
  }

  /** The slice's tight box gives the part `split_boss_sprite` saves for it. */
  lemma SlicePart(img: Image, h: nat, w: nat, points: seq<int>, i: nat, b: Box)
    requires IsRect(img, h, w) && i + 1 < |points| && 0 <= points[i] < points[i + 1] <= w
    requires IsTightBox(SliceMask(img, h, w, points[i], points[i + 1]), h, points[i + 1] - points[i], b)
    ensures PartFrom(img, h, w, points, SlicePartOf(img, h, w, points, i, b))
  {
  }

  /**
   * The script: column counts, gap columns, gap ranges; with fewer than two
   * ranges nothing is saved, otherwise one part per slice with content.
   */
  method SplitBoss0(img: Image, h: nat, w: nat)
    returns (parts: seq<Part>, counts: seq<nat>, gaps: seq<int>, ranges: seq<Run>)
    requires IsRect(img, h, w)
    ensures |counts| == w && forall c :: 0 <= c < w ==> counts[c] == CountRow(Column(VisibleMask(img, h, w), h, w, c))
    ensures ListsFlags(gaps, GapFlags(counts))
    ensures IsGapRanges(GapFlags(counts), ranges)
    ensures |ranges| < 2 ==> parts == []
    ensures |ranges| >= 2 ==> Increasing(SplitPoints(ranges, w)) && PartsInv(img, h, w, SplitPoints(ranges, w), |ranges| + 1, parts)
  {
    counts := ColumnCounts(img, h, w);
    gaps := FindGaps(counts);
    ranges := MergeGaps(gaps, GapFlags(counts));
    parts := [];
    if |ranges| < 2 {
      return;
    }
    var points := SplitPoints(ranges, w);
    assert IsMaximalRun(GapFlags(counts), ranges[0]);
    SplitPointsIncrease(GapFlags(counts), ranges);
    for i := 0 to |points| - 1
      invariant PartsInv(img, h, w, points, i, parts)
    {
      parts := SliceStep(img, h, w, points, i, parts);
    }
  }
}
