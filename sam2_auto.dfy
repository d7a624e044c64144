/**
 * `tools/sam2_auto_extract.py`: objects of a sprite sheet from the connected
 * components of its opaque pixels.
 *
 * `cv2.connectedComponentsWithStats` is library code; its label array and its
 * per-label statistics reach the model as inputs. From them the tool keeps
 * every label whose area is at least a quarter of the minimum area, may merge
 * a trunk into the crown just above it, emits each unmerged region with its
 * combined mask and tight box, drops masks that overlap a larger one too much,
 * and cuts each survivor with a padded box whose alpha follows the mask.
 *
 * Float comparisons of the source (`area * 0.8`, centre halves, `width * 1.5`)
 * are written as the exact integer comparisons they stand for.
 */
module Sam2Auto {
  import opened Wrappers
  import opened Pixels
  import opened Masks
  import opened Boxes
  import opened Sorting
  import opened Regions

  /** One row of `stats` with its `centroids` entry, already truncated by `int()`. */
  datatype Stat = Stat(left: int, top: int, width: int, height: int, area: int, cx: int, cy: int)

  /** A region dict: label, centre, `bbox = [x1, y1, x2, y2]` with exclusive far edges, area and `labels == id`. */
  datatype Candidate = Candidate(id: nat, center: (int, int), x1: int, y1: int, x2: int, y2: int, area: int, mask: Mask)

  /** Candidate `c` is label `c.id`'s row of `stats` together with its own mask. */
  ghost predicate CandidateOf(labels: seq<seq<int>>, h: nat, w: nat, stats: seq<Stat>, c: Candidate)
    requires IsRect(labels, h, w)
  {
    && 1 <= c.id < |stats|
    && var s := stats[c.id];
    && c.center == (s.cx, s.cy) && c.area == s.area
    && c.x1 == s.left && c.y1 == s.top && c.x2 == s.left + s.width && c.y2 == s.top + s.height
    && c.mask == LabelMask(labels, h, w, c.id)
  }

  /** Every candidate's mask is an `h` by `w` grid. */
  predicate MasksRect(regions: seq<Candidate>, h: nat, w: nat) {
    forall k :: 0 <= k < |regions| ==> |regions[k].mask| == h && forall r :: 0 <= r < h ==> |regions[k].mask[r]| == w
  }

  predicate HasId(regions: seq<Candidate>, id: int) {
    exists k :: 0 <= k < |regions| && regions[k].id == id
  }

  /** After the labels below `i`: the labels kept so far, in label order. */
  ghost predicate CandidatesInv(labels: seq<seq<int>>, h: nat, w: nat, stats: seq<Stat>, minArea: nat, i: int, regions: seq<Candidate>)
    requires IsRect(labels, h, w)
  {
    && (forall k :: 0 <= k < |regions| ==> CandidateOf(labels, h, w, stats, regions[k]) && regions[k].area >= minArea / 4)
    && (forall k :: 0 <= k < |regions| ==> regions[k].id < i)
    && (forall k1, k2 :: 0 <= k1 < k2 < |regions| ==> regions[k1].id < regions[k2].id)
    && (forall j :: 1 <= j < i && j < |stats| ==> (HasId(regions, j) <==> stats[j].area >= minArea / 4))
  }

  /** Keeping label `i`. */
  lemma AddCandidate(labels: seq<seq<int>>, h: nat, w: nat, stats: seq<Stat>, minArea: nat, i: int, regions: seq<Candidate>, c: Candidate)
    requires IsRect(labels, h, w) && CandidatesInv(labels, h, w, stats, minArea, i, regions)
    requires c.id == i && CandidateOf(labels, h, w, stats, c) && c.area >= minArea / 4
    ensures CandidatesInv(labels, h, w, stats, minArea, i + 1, regions + [c])
  {
    var regions' := regions + [c];
    assert regions'[|regions'| - 1].id == i;
    forall j | 1 <= j < i ensures HasId(regions', j) <==> HasId(regions, j) {
      if HasId(regions', j) {
        var k :| 0 <= k < |regions'| && regions'[k].id == j;
        assert k < |regions| && regions[k] == regions'[k];
      }
      if HasId(regions, j) {
        var k :| 0 <= k < |regions| && regions[k].id == j;
        assert regions'[k] == regions[k];
      }
    }
  }

  /**
   * The loop over labels `1..num_labels-1`: a label whose area is below
   * `min_area // 4` is dropped, every other one becomes a candidate, in label
   * order.
   */
  method CollectCandidates(labels: seq<seq<int>>, h: nat, w: nat, stats: seq<Stat>, minArea: nat) returns (regions: seq<Candidate>)
    requires IsRect(labels, h, w)
    ensures forall k :: 0 <= k < |regions| ==> CandidateOf(labels, h, w, stats, regions[k]) && regions[k].area >= minArea / 4
    ensures forall k1, k2 :: 0 <= k1 < k2 < |regions| ==> regions[k1].id < regions[k2].id
    ensures forall i :: 1 <= i < |stats| ==> (HasId(regions, i) <==> stats[i].area >= minArea / 4)
  {
    regions := [];
    for i := 1 to Max(1, |stats|)
      invariant CandidatesInv(labels, h, w, stats, minArea, i, regions)
    {
      var s := stats[i];
      if s.area >= minArea / 4 {
        var c := Candidate(i, (s.cx, s.cy), s.left, s.top, s.left + s.width, s.top + s.height, s.area, LabelMask(labels, h, w, i));
        AddCandidate(labels, h, w, stats, minArea, i, regions, c);
        regions := regions + [c];
      }
    }
  }

  // ---------------------------------------------------------------- merging

  /** `vertical_gap`: the trunk's top minus the crown's bottom. */
  function Gap(trunk: Candidate, crown: Candidate): int { trunk.y1 - crown.y2 }

  /**
   * The four geometric tests of a crown for a trunk: the trunk starts 0 to 15
   * rows below the crown, the crown has at least 0.8 of the trunk's area, the
   * centres are at most half the wider width apart, and the trunk is at most
   * 1.5 times as wide as the crown.
   */
  predicate Fits(trunk: Candidate, crown: Candidate) {
    && 0 <= Gap(trunk, crown) <= 15
    && 5 * crown.area >= 4 * trunk.area
    && Abs((trunk.x1 + trunk.x2) - (crown.x1 + crown.x2)) <= Max(trunk.x2 - trunk.x1, crown.x2 - crown.x1)
    && 2 * (trunk.x2 - trunk.x1) <= 3 * (crown.x2 - crown.x1)
  }

  /** Crown `j` is a candidate for trunk `i` while `into` records the merges so far. */
  predicate Eligible(regions: seq<Candidate>, into: seq<Option<nat>>, i: int, j: int)
    requires |into| == |regions| && 0 <= i < |regions| && 0 <= j < |regions|
  {
    i != j && into[j].None? && Fits(regions[i], regions[j])
  }

  /** `j` is the eligible crown with the smallest gap, the first such in list order. */
  ghost predicate IsBestCrown(regions: seq<Candidate>, into: seq<Option<nat>>, i: int, j: int)
    requires |into| == |regions| && 0 <= i < |regions|
  {
    && 0 <= j < |regions| && Eligible(regions, into, i, j)
    && forall k :: 0 <= k < |regions| && Eligible(regions, into, i, k) ==>
         Gap(regions[i], regions[j]) < Gap(regions[i], regions[k])
         || (Gap(regions[i], regions[j]) == Gap(regions[i], regions[k]) && j <= k)
  }

  /** What the inner loop decides for trunk `i`: no crown, or the best one. */
  ghost predicate IsChoice(regions: seq<Candidate>, into: seq<Option<nat>>, i: int, choice: Option<nat>)
    requires |into| == |regions| && 0 <= i < |regions|
  {
    && (choice.None? <==> forall k :: 0 <= k < |regions| ==> !Eligible(regions, into, i, k))
    && (choice.Some? ==> IsBestCrown(regions, into, i, choice.value))
  }

  /**
   * The inner loop over crowns, `best_gap` starting at infinity: only a
   * strictly smaller gap replaces the best crown, so ties go to the first.
   */
  method FindCrown(regions: seq<Candidate>, into: seq<Option<nat>>, i: int) returns (best: Option<nat>)
    requires |into| == |regions| && 0 <= i < |regions|
    ensures IsChoice(regions, into, i, best)
  {
    best := None;
    var bestGap := 0;
    for j := 0 to |regions|
      invariant best.None? ==> forall k :: 0 <= k < j ==> !Eligible(regions, into, i, k)
      invariant best.Some? ==> best.value < j && Eligible(regions, into, i, best.value)
      invariant best.Some? ==> bestGap == Gap(regions[i], regions[best.value])
      invariant best.Some? ==> forall k :: 0 <= k < j && Eligible(regions, into, i, k) ==>
        bestGap < Gap(regions[i], regions[k]) || (bestGap == Gap(regions[i], regions[k]) && best.value <= k)
    {
      if i == j || into[j].Some? || !Fits(regions[i], regions[j]) {
        continue;
      }
      var gap := Gap(regions[i], regions[j]);
      if best.None? || gap < bestGap {
        best, bestGap := Some(j), gap;
      }
    }
  }

  /** The record with `merged_into` still `None` everywhere. */
  function NoMerges(n: nat): (r: seq<Option<nat>>)
    ensures |r| == n && forall k :: 0 <= k < n ==> r[k].None?
  {
    seq(n, _ => None)
  }

  /** The merge record as it stands when trunk `i` is examined: later entries are still `None`. */
  function Before(into: seq<Option<nat>>, i: int): (r: seq<Option<nat>>)
    ensures |r| == |into|
    ensures forall k :: 0 <= k < |into| ==> r[k] == if k < i then into[k] else None
  {
    seq(|into|, k requires 0 <= k < |into| => if k < i then into[k] else None)
  }

  /**
   * The `enable_merge` pass: each trunk in list order takes the best crown
   * among the regions not merged so far. (A trunk's own `merged` flag is only
   * ever set at its own turn, so the source's skip of merged trunks never
   * fires.)
   */
  method MergeTrunks(regions: seq<Candidate>) returns (into: seq<Option<nat>>)
    ensures |into| == |regions|
    ensures forall i :: 0 <= i < |regions| ==> IsChoice(regions, Before(into, i), i, into[i])
  {
    into := NoMerges(|regions|);
    for i := 0 to |regions|
      invariant |into| == |regions|
      invariant forall k :: i <= k < |regions| ==> into[k].None?
      invariant forall k :: 0 <= k < i ==> IsChoice(regions, Before(into, k), k, into[k])
    {
      assert into == Before(into, i);
      var crown := FindCrown(regions, into, i);
      ghost var prev := into;
      into := into[i := crown];
      forall k | 0 <= k <= i ensures Before(into, k) == Before(prev, k) {
      }
    }
  }

  /** A trunk never merges into itself, and its crown was unmerged when it was chosen. */
  lemma MergeTargets(regions: seq<Candidate>, into: seq<Option<nat>>, i: int)
    requires |into| == |regions| && 0 <= i < |regions|
    requires IsChoice(regions, Before(into, i), i, into[i]) && into[i].Some?
    ensures into[i].value != i && into[i].value < |regions|
    ensures into[i].value < i ==> into[into[i].value].None?
    ensures Fits(regions[i], regions[into[i].value])
  {
  }

  // --------------------------------------------------------------- emission

  /**
   * `combined_mask`: the region's own mask, OR-ed (with merging on) with the
   * mask of every region whose `merged_into` is `i`.
   */
  ghost function CombinedMask(regions: seq<Candidate>, into: seq<Option<nat>>, merge: bool, i: int, h: nat, w: nat): (m: Mask)
    requires |into| == |regions| && 0 <= i < |regions|
    requires MasksRect(regions, h, w)
    ensures IsRect(m, h, w)
  {
    seq(h, r requires 0 <= r < h => seq(w, c requires 0 <= c < w =>
      regions[i].mask[r][c] || (merge && exists k :: 0 <= k < |regions| && into[k] == Some(i) && regions[k].mask[r][c])))
  }

  /** `np.maximum` of two 0/1 masks. */
  function Union(a: Mask, b: Mask, h: nat, w: nat): (m: Mask)
    requires IsRect(a, h, w) && IsRect(b, h, w)
    ensures IsRect(m, h, w)
    ensures forall r, c :: 0 <= r < h && 0 <= c < w ==> (m[r][c] <==> a[r][c] || b[r][c])
  {
    seq(h, r requires 0 <= r < h => seq(w, c requires 0 <= c < w => a[r][c] || b[r][c]))
  }

  /** The inner `for other in regions` loop. */
  method Combine(regions: seq<Candidate>, into: seq<Option<nat>>, merge: bool, i: int, h: nat, w: nat) returns (m: Mask)
    requires |into| == |regions| && 0 <= i < |regions|
    requires MasksRect(regions, h, w)
    ensures m == CombinedMask(regions, into, merge, i, h, w)
  {
    m := regions[i].mask;
    if merge {
      for k := 0 to |regions|
        invariant IsRect(m, h, w)
        invariant forall r, c :: 0 <= r < h && 0 <= c < w ==>
          (m[r][c] <==> regions[i].mask[r][c] || exists k' :: 0 <= k' < k && into[k'] == Some(i) && regions[k'].mask[r][c])
      {
        if into[k] == Some(i) {
          m := Union(m, regions[k].mask, h, w);
        }
      }
    }
    ghost var target := CombinedMask(regions, into, merge, i, h, w);
    assert forall r :: 0 <= r < h ==> m[r] == target[r];
  }

  /** An emitted mask dict: the combined mask, its tight `(x, y, w, h)`, its pixel count and the region's centre. */
  datatype MaskObject = MaskObject(mask: Mask, bbox: Rect, area: nat, center: (int, int))

  /** `obj` is the emission of region `i`. */
  ghost predicate EmittedFrom(regions: seq<Candidate>, into: seq<Option<nat>>, merge: bool, i: int, h: nat, w: nat,
                              minArea: nat, obj: MaskObject)
    requires |into| == |regions| && 0 <= i < |regions|
    requires MasksRect(regions, h, w)
  {
    && obj.mask == CombinedMask(regions, into, merge, i, h, w)
    && obj.area == CountMask(obj.mask) && obj.area >= minArea && obj.area > 0
    && obj.center == regions[i].center
    && exists b :: IsTightBox(obj.mask, h, w, b) && obj.bbox == BoxToRect(b)
  }

  /** Region `i` is emitted: it is not merged away and its combined mask is non-empty and large enough. */
  ghost predicate IsEmitted(regions: seq<Candidate>, into: seq<Option<nat>>, merge: bool, i: int, h: nat, w: nat, minArea: nat)
    requires |into| == |regions| && 0 <= i < |regions|
    requires MasksRect(regions, h, w)
  {
    var n := CountMask(CombinedMask(regions, into, merge, i, h, w));
    (!merge || into[i].None?) && n >= minArea && n > 0
  }

  ghost predicate EmitInv(regions: seq<Candidate>, into: seq<Option<nat>>, merge: bool, h: nat, w: nat, minArea: nat,
                          upto: int, objects: seq<MaskObject>, from: seq<nat>)
    requires |into| == |regions|
    requires MasksRect(regions, h, w)
  {
    && 0 <= upto <= |regions| && |from| == |objects|
    && (forall k :: 0 <= k < |from| ==> from[k] < upto)
    && (forall k1, k2 :: 0 <= k1 < k2 < |from| ==> from[k1] < from[k2])
    && (forall k :: 0 <= k < |from| ==>
          IsEmitted(regions, into, merge, from[k], h, w, minArea) && EmittedFrom(regions, into, merge, from[k], h, w, minArea, objects[k]))
    && (forall i :: 0 <= i < upto && IsEmitted(regions, into, merge, i, h, w, minArea) ==> i in from)
  }

  /** One region of the emission loop. */
  method EmitStep(regions: seq<Candidate>, into: seq<Option<nat>>, merge: bool, h: nat, w: nat, minArea: nat,
                  i: nat, objects: seq<MaskObject>, ghost from: seq<nat>) returns (objects': seq<MaskObject>, ghost from': seq<nat>)
    requires |into| == |regions| && 0 <= i < |regions|
    requires MasksRect(regions, h, w)
    requires EmitInv(regions, into, merge, h, w, minArea, i, objects, from)
    ensures EmitInv(regions, into, merge, h, w, minArea, i + 1, objects', from')
  {
    objects', from' := objects, from;
    if !(merge && into[i].Some?) {
      var m := Combine(regions, into, merge, i, h, w);
      var box, area := BoundingBox(m, h, w);
      if area >= minArea && box.Some? {
        var obj := MaskObject(m, BoxToRect(box.value), area, regions[i].center);
        EmitAdd(regions, into, merge, h, w, minArea, i, objects, from, obj);
        objects', from' := objects + [obj], from + [i];
        return;
      }
    }
    EmitSkip(regions, into, merge, h, w, minArea, i, objects, from);
  }

  /** A candidate that emits nothing leaves the objects as they are. */
  lemma EmitSkip(regions: seq<Candidate>, into: seq<Option<nat>>, merge: bool, h: nat, w: nat, minArea: nat,
                 i: nat, objects: seq<MaskObject>, from: seq<nat>)
    requires |into| == |regions| && 0 <= i < |regions|
    requires MasksRect(regions, h, w)
    requires EmitInv(regions, into, merge, h, w, minArea, i, objects, from)
    requires !IsEmitted(regions, into, merge, i, h, w, minArea)
    ensures EmitInv(regions, into, merge, h, w, minArea, i + 1, objects, from)
  {
  }

  /** A candidate that emits appends its object, tagged with its index. */
  lemma EmitAdd(regions: seq<Candidate>, into: seq<Option<nat>>, merge: bool, h: nat, w: nat, minArea: nat,
                i: nat, objects: seq<MaskObject>, from: seq<nat>, obj: MaskObject)
    requires |into| == |regions| && 0 <= i < |regions|
    requires MasksRect(regions, h, w)
    requires EmitInv(regions, into, merge, h, w, minArea, i, objects, from)
    requires IsEmitted(regions, into, merge, i, h, w, minArea) && EmittedFrom(regions, into, merge, i, h, w, minArea, obj)
    ensures EmitInv(regions, into, merge, h, w, minArea, i + 1, objects + [obj], from + [i])
  {
    var o, f := objects + [obj], from + [i];
    forall k | 0 <= k < |f| ensures f[k] <= i && IsEmitted(regions, into, merge, f[k], h, w, minArea)
      && EmittedFrom(regions, into, merge, f[k], h, w, minArea, o[k])
    {
      if k < |from| {
        assert f[k] == from[k] && o[k] == objects[k];
      }
    }
    IndexAppend(from, i);
  }

  /** Appending index `i` after smaller indices keeps them increasing and adds only `i`. */
  lemma IndexAppend(from: seq<nat>, i: nat)
    requires forall k :: 0 <= k < |from| ==> from[k] < i
    requires forall k1, k2 :: 0 <= k1 < k2 < |from| ==> from[k1] < from[k2]
    ensures forall k1, k2 :: 0 <= k1 < k2 < |from| + 1 ==> (from + [i])[k1] < (from + [i])[k2]
    ensures forall j :: j in from + [i] <==> j in from || j == i
  {
    var f := from + [i];
    forall k1, k2 | 0 <= k1 < k2 < |f| ensures f[k1] < f[k2] {
      assert f[k1] == from[k1];
      if k2 < |from| {
        assert f[k2] == from[k2];
      }
    }
  }

  /** The final loop: every region that is emitted, in list order. */
  method EmitObjects(regions: seq<Candidate>, into: seq<Option<nat>>, merge: bool, h: nat, w: nat, minArea: nat)
    returns (objects: seq<MaskObject>, ghost from: seq<nat>)
    requires |into| == |regions|
    requires MasksRect(regions, h, w)
    ensures EmitInv(regions, into, merge, h, w, minArea, |regions|, objects, from)
  {
    objects, from := [], [];
    for i := 0 to |regions|
      invariant EmitInv(regions, into, merge, h, w, minArea, i, objects, from)
    {
      objects, from := EmitStep(regions, into, merge, h, w, minArea, i, objects, from);
    }
  }

  /**
   * A trunk whose crown was itself merged later is lost: with label masks
   * pairwise disjoint, none of its pixels is in any emitted mask, since only
   * the masks of direct children are OR-ed in.
   */
  lemma ChainedTrunkIsLost(regions: seq<Candidate>, into: seq<Option<nat>>, h: nat, w: nat, t: int, i: int, r: int, c: int)
    requires |into| == |regions| && 0 <= t < |regions| && 0 <= i < |regions|
    requires MasksRect(regions, h, w)
    requires forall k1, k2 :: 0 <= k1 < |regions| && 0 <= k2 < |regions| && k1 != k2 && 0 <= r < h && 0 <= c < w ==>
      !(regions[k1].mask[r][c] && regions[k2].mask[r][c])
    requires into[t].Some? && into[t].value < |regions| && into[into[t].value].Some?
    requires into[i].None? && 0 <= r < h && 0 <= c < w && regions[t].mask[r][c]
    ensures !CombinedMask(regions, into, true, i, h, w)[r][c]
  {
  }

  // ---------------------------------------------------------- duplicates

  /** `np.logical_and(a, b).sum()` and `np.logical_or(a, b).sum()`. */
  function Intersection(a: Mask, b: Mask, h: nat, w: nat): (m: Mask)
    requires IsRect(a, h, w) && IsRect(b, h, w)
    ensures IsRect(m, h, w)
    ensures forall r, c :: 0 <= r < h && 0 <= c < w ==> (m[r][c] <==> a[r][c] && b[r][c])
  {
    seq(h, r requires 0 <= r < h => seq(w, c requires 0 <= c < w => a[r][c] && b[r][c]))
  }

  /** The two masks overlap: their union is non-empty and the IoU exceeds `thresh`. */
  predicate Overlaps(a: Mask, b: Mask, h: nat, w: nat, thresh: real)
    requires IsRect(a, h, w) && IsRect(b, h, w)
  {
    var union := CountMask(Union(a, b, h, w));
    union > 0 && (CountMask(Intersection(a, b, h, w)) as real) / (union as real) > thresh
  }

  function AreaKey(m: MaskObject): int { m.area }

  predicate AllRect(ms: seq<MaskObject>, h: nat, w: nat) {
    forall k :: 0 <= k < |ms| ==> |ms[k].mask| == h && forall r :: 0 <= r < h ==> |ms[k].mask[r]| == w
  }

  predicate Dup(ms: seq<MaskObject>, h: nat, w: nat, thresh: real, i: int, j: int)
    requires AllRect(ms, h, w) && 0 <= i < |ms| && 0 <= j < |ms|
  {
    Overlaps(ms[i].mask, ms[j].mask, h, w, thresh)
  }

  /** The greedy pass over `n` sorted masks after the masks below `i`, with `dup` the overlap test. */
  ghost predicate DedupInv(n: nat, dup: (int, int) -> bool, i: int, picked: seq<nat>, used: set<int>) {
    && 0 <= i <= n
    && (forall a :: 0 <= a < |picked| ==> picked[a] < i)
    && (forall a, b :: 0 <= a < b < |picked| ==> picked[a] < picked[b])
    && (forall j :: 0 <= j < i ==> (j in picked <==> j !in used))
    && (forall j :: j in used ==> 0 <= j < n && exists a :: 0 <= a < |picked| && picked[a] < j && dup(picked[a], j))
    && (forall a, j :: 0 <= a < |picked| && picked[a] < j < n && j !in used ==> !dup(picked[a], j))
  }

  /** The inner loop for a kept mask `i`: mark every later, unmarked mask it overlaps. */
  method MarkOverlaps(n: nat, dup: (int, int) -> bool, i: int, ghost picked: seq<nat>, used: set<int>) returns (used': set<int>)
    requires 0 <= i < n && i !in used && DedupInv(n, dup, i, picked, used)
    ensures DedupInv(n, dup, i + 1, picked + [i], used')
  {
    used' := used;
    for j := i + 1 to n
      invariant used <= used' && i !in used'
      invariant forall x :: x in used' && x !in used ==> i < x < j && dup(i, x)
      invariant forall x :: i < x < j && x !in used' ==> !dup(i, x)
    {
      if j !in used' && dup(i, j) {
        used' := used' + {j};
      }
    }
    var picked' := picked + [i];
    assert picked'[|picked'| - 1] == i;
    forall x | x in used' ensures 0 <= x < n && exists a :: 0 <= a < |picked'| && picked'[a] < x && dup(picked'[a], x) {
      if x in used {
        var a :| 0 <= a < |picked| && picked[a] < x && dup(picked[a], x);
        assert picked'[a] == picked[a];
      }
    }
    forall j' | 0 <= j' < i + 1 ensures j' in picked' <==> j' !in used' {
      assert j' in picked' <==> j' in picked || j' == i;
    }
    forall a, x | 0 <= a < |picked'| && picked'[a] < x < n && x !in used' ensures !dup(picked'[a], x) {
      if a < |picked| {
        assert picked'[a] == picked[a];
      }
    }
  }

  /**
   * The `keep`/`used` walk over `n` masks, largest first: a mask not yet
   * marked is kept and marks every later mask it overlaps. The kept indices
   * rise and start at 0, no kept mask overlaps a later kept one, and every
   * dropped mask overlaps a kept one before it.
   */
  method Greedy(n: nat, dup: (int, int) -> bool) returns (picked: seq<nat>)
    ensures forall a :: 0 <= a < |picked| ==> picked[a] < n
    ensures forall a, b :: 0 <= a < b < |picked| ==> picked[a] < picked[b]
    ensures n > 0 ==> |picked| > 0 && picked[0] == 0
    ensures forall a, b :: 0 <= a < b < |picked| ==> !dup(picked[a], picked[b])
    ensures forall j :: 0 <= j < n && j !in picked ==> exists a :: 0 <= a < |picked| && picked[a] < j && dup(picked[a], j)
  {
    picked := [];
    var used: set<int> := {};
    for i: nat := 0 to n
      invariant DedupInv(n, dup, i, picked, used)
      invariant i > 0 ==> |picked| > 0 && picked[0] == 0
    {
      if i in used {
        // a marked mask overlaps an earlier kept one, so mask 0 is never marked
        assert i > 0;
        continue;
      }
      used := MarkOverlaps(n, dup, i, picked, used);
      picked := picked + [i];
    }
    forall a, b | 0 <= a < b < |picked| ensures !dup(picked[a], picked[b]) {
      assert picked[b] in picked;
    }
  }

  /**
   * What `remove_duplicate_masks` promises: lists of at most one mask come back
   * as they are; otherwise `keep` is the sub-list of the area-sorted list at the
   * rising indices `picked`, starting with the largest mask, in which no two
   * masks overlap, and every dropped mask overlaps a kept one before it.
   */
  ghost predicate IsDedup(masks: seq<MaskObject>, h: nat, w: nat, thresh: real, keep: seq<MaskObject>, picked: seq<nat>)
    requires AllRect(masks, h, w)
  {
    if |masks| <= 1 then keep == masks
    else
      var ms := SortDesc(masks, AreaKey);
      && |picked| == |keep| && AllRect(ms, h, w)
      && (forall a :: 0 <= a < |picked| ==> picked[a] < |ms| && keep[a] == ms[picked[a]])
      && (forall a, b :: 0 <= a < b < |picked| ==> picked[a] < picked[b])
      && |picked| > 0 && picked[0] == 0
      && (forall a, b :: 0 <= a < b < |picked| ==> !Dup(ms, h, w, thresh, picked[a], picked[b]))
      && (forall j :: 0 <= j < |ms| && j !in picked ==>
            exists a :: 0 <= a < |picked| && picked[a] < j && Dup(ms, h, w, thresh, picked[a], j))
  }

  /**
   * `remove_duplicate_masks`: lists of at most one mask come back as they are.
   * Otherwise the result is the greedy walk over the masks sorted by area,
   * largest first: a sub-list of the sorted list that starts with the largest
   * mask, in which no two masks overlap, and every dropped mask overlaps a kept
   * one before it.
   */
  method RemoveDuplicates(masks: seq<MaskObject>, h: nat, w: nat, thresh: real) returns (keep: seq<MaskObject>, ghost picked: seq<nat>)
    requires AllRect(masks, h, w)
    ensures IsDedup(masks, h, w, thresh, keep, picked)
  {
    if |masks| <= 1 {
      return masks, [];
    }
    var ms := SortDesc(masks, AreaKey);
    forall k | 0 <= k < |ms| ensures |ms[k].mask| == h && forall r :: 0 <= r < h ==> |ms[k].mask[r]| == w {
      assert ms[k] in multiset(masks);
    }
    keep, picked := DedupSorted(ms, h, w, thresh);
  }

  /** The walk itself, over a list already sorted. */
  method DedupSorted(ms: seq<MaskObject>, h: nat, w: nat, thresh: real) returns (keep: seq<MaskObject>, ghost picked: seq<nat>)
    requires AllRect(ms, h, w) && |ms| > 0
    ensures |picked| == |keep|
    ensures forall a :: 0 <= a < |picked| ==> picked[a] < |ms| && keep[a] == ms[picked[a]]
    ensures forall a, b :: 0 <= a < b < |picked| ==> picked[a] < picked[b]
    ensures |picked| > 0 && picked[0] == 0
    ensures forall a, b :: 0 <= a < b < |picked| ==> !Dup(ms, h, w, thresh, picked[a], picked[b])
    ensures forall j :: 0 <= j < |ms| && j !in picked ==>
      exists a :: 0 <= a < |picked| && picked[a] < j && Dup(ms, h, w, thresh, picked[a], j)
  {
    var dup := (i, j) => 0 <= i < |ms| && 0 <= j < |ms| && Dup(ms, h, w, thresh, i, j);
    var idx := Greedy(|ms|, dup);
    picked := idx;
    keep := seq(|idx|, a requires 0 <= a < |idx| => ms[idx[a]]);
  }

  // ------------------------------------------------------------ extraction

  /** `cropped_rgb` with `min(cropped_mask * 255, alpha)`, or `cropped_mask * 255` without an alpha channel. */
  function ObjectPixel(p: Pixel, inMask: bool, hasAlpha: bool): (q: Pixel)
    ensures q.r == p.r && q.g == p.g && q.b == p.b
    ensures !inMask ==> q.a == 0
    ensures inMask ==> q.a == if hasAlpha then p.a else 255
  {
    var maskAlpha := if inMask then 255 else 0;
    Pixel(p.r, p.g, p.b, if hasAlpha then Min(maskAlpha, p.a) else maskAlpha)
  }

  /** One saved object: the padded cut, its mask's area, the padded `(x, y, w, h)` and its number. */
  datatype Extracted = Extracted(image: Image, area: nat, bbox: Rect, index: nat)

  /** `out` is mask object `obj` cut from the image with its box padded by `pad`. */
  ghost predicate CutFrom(img: Image, h: nat, w: nat, hasAlpha: bool, obj: MaskObject, pad: nat, index: nat, out: Extracted)
    requires IsRect(img, h, w)
  {
    var r := PadRect(obj.bbox, pad, w, h);
    && r.InImage(w, h) && IsRect(obj.mask, h, w)
    && out.bbox == r && out.area == obj.area && out.index == index
    && IsRect(out.image, r.h, r.w)
    && forall i, j :: 0 <= i < r.h && 0 <= j < r.w ==>
         out.image[i][j] == ObjectPixel(img[r.y + i][r.x + j], obj.mask[r.y + i][r.x + j], hasAlpha)
  }

  /** The body of the `enumerate(masks)` loop. */
  method CutObject(img: Image, h: nat, w: nat, hasAlpha: bool, obj: MaskObject, pad: nat, index: nat) returns (out: Extracted)
    requires IsRect(img, h, w) && IsRect(obj.mask, h, w) && obj.bbox.InImage(w, h)
    ensures CutFrom(img, h, w, hasAlpha, obj, pad, index, out)
  {
    var r := PadRect(obj.bbox, pad, w, h);
    var image := seq(r.h, i requires 0 <= i < r.h => seq(r.w, j requires 0 <= j < r.w =>
      ObjectPixel(img[r.y + i][r.x + j], obj.mask[r.y + i][r.x + j], hasAlpha)));
    out := Extracted(image, obj.area, r, index);
  }

  /** A tight box of a mask of the image, as `(x, y, w, h)`, lies in the image. */
  lemma TightRectInImage(m: Mask, h: nat, w: nat, b: Box)
    requires IsRect(m, h, w) && IsTightBox(m, h, w, b)
    ensures BoxToRect(b).InImage(w, h)
  {
  }

  /** How `cv2.imread(..., IMREAD_UNCHANGED)` lays out a file: a 2-D grayscale array, three channels or four. */
  datatype Layout = Gray | Bgr | Bgra

  /**
   * Whether the image has an alpha channel, the question both the channel
   * handling of `extract_objects` and the `binary` choice of
   * `auto_segment_by_contours` ask. A grayscale image has none, so it is
   * segmented by its adaptive threshold like a three-channel one.
   */
  function AlphaTest(l: Layout): (hasAlpha: bool)
    ensures hasAlpha <==> l == Bgra
    ensures AlphaTestAsWritten(l).Some? ==> AlphaTestAsWritten(l).value == hasAlpha
  {
    l == Bgra
  }

  /**
   * `image.shape[2] == 4` as `auto_segment_by_contours` writes it: a 2-D
   * grayscale array has no third dimension, so the test raises `IndexError`
   * (`None`), although `extract_objects` accepted that image before calling it.
   */
  function AlphaTestAsWritten(l: Layout): (r: Option<bool>)
    ensures r.None? <==> l == Gray
  {
    match l
    case Gray => None
    case Bgr => Some(false)
    case Bgra => Some(true)
  }

  /** `binary`: opaque where alpha exceeds 10; without an alpha channel, the adaptive threshold passed in. */
  function Binary(img: Image, h: nat, w: nat, hasAlpha: bool, adaptive: Mask): (m: Mask)
    requires IsRect(img, h, w) && IsRect(adaptive, h, w)
    ensures IsRect(m, h, w)
    ensures hasAlpha ==> forall r, c :: 0 <= r < h && 0 <= c < w ==> (m[r][c] <==> img[r][c].a > 10)
    ensures !hasAlpha ==> m == adaptive
  {
    if hasAlpha then seq(h, r requires 0 <= r < h => seq(w, c requires 0 <= c < w => img[r][c].a > 10))
    else adaptive
  }

  /** What `cv2.connectedComponentsWithStats` returns: a label per pixel and a statistics row per label. */
  datatype Components = Components(labels: seq<seq<int>>, stats: seq<Stat>)

  /**
   * `auto_segment_by_contours`, with the labeler passed in as `components` and
   * the adaptive threshold of a three-channel image as `adaptive`.
   */
  method AutoSegment(img: Image, h: nat, w: nat, hasAlpha: bool, adaptive: Mask, components: Mask -> Components,
                     minArea: nat, merge: bool)
    returns (objects: seq<MaskObject>, ghost regions: seq<Candidate>, ghost into: seq<Option<nat>>, ghost from: seq<nat>)
    requires IsRect(img, h, w) && IsRect(adaptive, h, w)
    requires forall m :: IsRect(m, h, w) ==> IsRect(components(m).labels, h, w)
    ensures var cc := components(Binary(img, h, w, hasAlpha, adaptive));
      && (forall k :: 0 <= k < |regions| ==> CandidateOf(cc.labels, h, w, cc.stats, regions[k]) && regions[k].area >= minArea / 4)
      && (forall i :: 1 <= i < |cc.stats| ==> (HasId(regions, i) <==> cc.stats[i].area >= minArea / 4))
    ensures forall k1, k2 :: 0 <= k1 < k2 < |regions| ==> regions[k1].id < regions[k2].id
    ensures |into| == |regions| && MasksRect(regions, h, w)
    ensures merge ==> forall i :: 0 <= i < |regions| ==> IsChoice(regions, Before(into, i), i, into[i])
    ensures !merge ==> into == NoMerges(|regions|)
    ensures EmitInv(regions, into, merge, h, w, minArea, |regions|, objects, from)
    ensures AllRect(objects, h, w) && forall k :: 0 <= k < |objects| ==> objects[k].bbox.InImage(w, h)
  {
    var binary := Binary(img, h, w, hasAlpha, adaptive);
    var cc := components(binary);
    var found := CollectCandidates(cc.labels, h, w, cc.stats, minArea);
    regions := found;
    var merges := NoMerges(|found|);
    if merge {
      merges := MergeTrunks(found);
    }
    into := merges;
    objects, from := EmitObjects(found, merges, merge, h, w, minArea);
    forall k | 0 <= k < |objects| ensures IsRect(objects[k].mask, h, w) && objects[k].bbox.InImage(w, h) {
      assert EmittedFrom(found, merges, merge, from[k], h, w, minArea, objects[k]);
      var b :| IsTightBox(objects[k].mask, h, w, b) && objects[k].bbox == BoxToRect(b);
      TightRectInImage(objects[k].mask, h, w, b);
    }
  }

  /** The `enumerate(masks)` loop: object `idx` is cut and numbered `idx`. */
  method CutObjects(img: Image, h: nat, w: nat, hasAlpha: bool, objects: seq<MaskObject>, pad: nat) returns (out: seq<Extracted>)
    requires IsRect(img, h, w) && AllRect(objects, h, w)
    requires forall k :: 0 <= k < |objects| ==> objects[k].bbox.InImage(w, h)
    ensures |out| == |objects|
    ensures forall k :: 0 <= k < |out| ==> CutFrom(img, h, w, hasAlpha, objects[k], pad, k, out[k])
  {
    out := [];
    for k := 0 to |objects|
      invariant |out| == k
      invariant forall j :: 0 <= j < k ==> CutFrom(img, h, w, hasAlpha, objects[j], pad, j, out[j])
    {
      var e := CutObject(img, h, w, hasAlpha, objects[k], pad, k);
      out := out + [e];
    }
  }

  /**
   * `extract_objects`: segment without merging, remove duplicates, keep at
   * most `max_objects`, and cut each survivor with its box padded.
   */
  method ExtractObjects(img: Image, h: nat, w: nat, layout: Layout, adaptive: Mask, components: Mask -> Components,
                        minArea: nat, maxObjects: nat, pad: nat, thresh: real)
    returns (out: seq<Extracted>, ghost regions: seq<Candidate>, ghost from: seq<nat>, ghost objects: seq<MaskObject>,
             ghost deduped: seq<MaskObject>, ghost picked: seq<nat>)
    requires IsRect(img, h, w) && IsRect(adaptive, h, w)
    requires forall m :: IsRect(m, h, w) ==> IsRect(components(m).labels, h, w)
    ensures var cc := components(Binary(img, h, w, AlphaTest(layout), adaptive));
      && (forall k :: 0 <= k < |regions| ==> CandidateOf(cc.labels, h, w, cc.stats, regions[k]) && regions[k].area >= minArea / 4)
      && (forall i :: 1 <= i < |cc.stats| ==> (HasId(regions, i) <==> cc.stats[i].area >= minArea / 4))
    ensures forall k1, k2 :: 0 <= k1 < k2 < |regions| ==> regions[k1].id < regions[k2].id
    ensures MasksRect(regions, h, w) && EmitInv(regions, NoMerges(|regions|), false, h, w, minArea, |regions|, objects, from)
    ensures AllRect(objects, h, w) && IsDedup(objects, h, w, thresh, deduped, picked)
    ensures |out| == Min(|deduped|, maxObjects)
    ensures forall k :: 0 <= k < |out| ==> CutFrom(img, h, w, AlphaTest(layout), deduped[k], pad, k, out[k])
  {
    var hasAlpha := AlphaTest(layout);
    ghost var into;
    var segmented;
    segmented, regions, into, from := AutoSegment(img, h, w, hasAlpha, adaptive, components, minArea, false);
    objects := segmented;
    var kept, idx := RemoveDuplicates(segmented, h, w, thresh);
    deduped, picked := kept, idx;
    DedupMembers(segmented, h, w, thresh, kept, idx);
    out := CutFirst(img, h, w, hasAlpha, kept, maxObjects, pad);
  }

  /**
   * `extract_objects` as written: on a grayscale file the `IndexError`
   * raised inside `auto_segment_by_contours` ends the call (`None`); any
   * other file gives `ExtractObjects`' result.
   */
  method ExtractObjectsAsWritten(img: Image, h: nat, w: nat, layout: Layout, adaptive: Mask, components: Mask -> Components,
                                 minArea: nat, maxObjects: nat, pad: nat, thresh: real)
    returns (r: Option<seq<Extracted>>)
    requires IsRect(img, h, w) && IsRect(adaptive, h, w)
    requires forall m :: IsRect(m, h, w) ==> IsRect(components(m).labels, h, w)
    ensures r.None? <==> layout == Gray
    ensures r.Some? ==> |r.value| <= maxObjects
  {
    if AlphaTestAsWritten(layout).None? {
      return None;
    }
    var out, _, _, _, _, _ := ExtractObjects(img, h, w, layout, adaptive, components, minArea, maxObjects, pad, thresh);
    r := Some(out);
  }

  /** `masks[:max_objects]`, each cut and numbered by its position. */
  method CutFirst(img: Image, h: nat, w: nat, hasAlpha: bool, kept: seq<MaskObject>, maxObjects: nat, pad: nat) returns (out: seq<Extracted>)
    requires IsRect(img, h, w) && AllRect(kept, h, w)
    requires forall k :: 0 <= k < |kept| ==> kept[k].bbox.InImage(w, h)
    ensures |out| == Min(|kept|, maxObjects)
    ensures forall k :: 0 <= k < |out| ==> CutFrom(img, h, w, hasAlpha, kept[k], pad, k, out[k])
  {
    var limited := if |kept| <= maxObjects then kept else kept[..maxObjects];
    out := CutObjects(img, h, w, hasAlpha, limited, pad);
  }

  /** Every kept mask is one of the input masks. */
  lemma DedupMembers(masks: seq<MaskObject>, h: nat, w: nat, thresh: real, keep: seq<MaskObject>, picked: seq<nat>)
    requires AllRect(masks, h, w) && IsDedup(masks, h, w, thresh, keep, picked)
    ensures forall k :: 0 <= k < |keep| ==> keep[k] in masks
  {
    if |masks| > 1 {
      var ms := SortDesc(masks, AreaKey);
      forall k | 0 <= k < |keep| ensures keep[k] in masks {
        assert keep[k] == ms[picked[k]];
        assert ms[picked[k]] in multiset(ms);
      }
    }
  }
}
