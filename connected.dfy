/**
 * `assets/extract_sprites.py`: keep only the largest 8-connected opaque region
 * of a sprite cut from a sheet.
 *
 * A pixel is opaque when its alpha exceeds 10. A raster scan starts a
 * breadth-first search at every opaque pixel not yet visited; the search pops a
 * cell, skips it when it is off the grid, already visited or transparent, and
 * otherwise marks it, records it and queues its eight neighbours. Components of
 * more than 100 pixels are kept, the first longest of them survives, and every
 * other pixel becomes all-zero.
 */
module Connected {
  import opened Pixels
  import opened Masks
  import opened Boxes

  type Cell = (int, int)

  predicate InBounds(c: Cell, h: int, w: int) { 0 <= c.0 < h && 0 <= c.1 < w }

  /** All cells of an `h` by `w` grid. */
  function GridCells(h: nat, w: nat): set<Cell> {
    set y, x | 0 <= y < h && 0 <= x < w :: (y, x)
  }

  predicate Opaque(op: Mask, h: nat, w: nat, c: Cell)
    requires IsRect(op, h, w)
  {
    InBounds(c, h, w) && op[c.0][c.1]
  }

  /** The eight cells around `c`, in the order the search queues them. */
  function Neighbours(c: Cell): seq<Cell> {
    [(c.0 - 1, c.1 - 1), (c.0 - 1, c.1), (c.0 - 1, c.1 + 1),
     (c.0, c.1 - 1), (c.0, c.1 + 1),
     (c.0 + 1, c.1 - 1), (c.0 + 1, c.1), (c.0 + 1, c.1 + 1)]
  }

  /** 8-neighbour adjacency: distinct cells at most one step apart on each axis. */
  predicate Adjacent(c: Cell, d: Cell) {
    c != d && -1 <= c.0 - d.0 <= 1 && -1 <= c.1 - d.1 <= 1
  }

  lemma NeighboursAreAdjacent(c: Cell, d: Cell)
    ensures d in Neighbours(c) <==> Adjacent(c, d)
  {
  }

  function Cells(s: seq<Cell>): set<Cell> { set c | c in s }

  predicate NoDup(s: seq<Cell>) { forall i, j :: 0 <= i < j < |s| ==> s[i] != s[j] }

  /** No opaque pixel adjacent to a member of `s` lies outside `s`. */
  ghost predicate Closed(op: Mask, h: nat, w: nat, s: set<Cell>)
    requires IsRect(op, h, w)
  {
    forall c, d :: c in s && Adjacent(c, d) && Opaque(op, h, w, d) ==> d in s
  }

  /** Every cell after the first is adjacent to an earlier one: the order of a search from `s[0]`. */
  ghost predicate Linked(s: seq<Cell>) {
    forall i :: 0 < i < |s| ==> HasEarlierNeighbour(s, i)
  }

  ghost predicate HasEarlierNeighbour(s: seq<Cell>, i: int)
    requires 0 <= i < |s|
  {
    exists j :: 0 <= j < i && Adjacent(s[j], s[i])
  }

  ghost predicate AllOpaque(op: Mask, h: nat, w: nat, s: seq<Cell>)
    requires IsRect(op, h, w)
  {
    forall i :: 0 <= i < |s| ==> Opaque(op, h, w, s[i])
  }

  /** A whole 8-connected component of opaque pixels, listed once each. */
  ghost predicate IsComponent(op: Mask, h: nat, w: nat, comp: seq<Cell>)
    requires IsRect(op, h, w)
  {
    |comp| > 0 && NoDup(comp) && AllOpaque(op, h, w, comp) && Linked(comp) && Closed(op, h, w, Cells(comp))
  }

  /**
   * A closed set that meets a linked run of opaque cells holds all of it: walk
   * back to the first cell, then forward again.
   */
  lemma {:induction false} ClosedHoldsLinked(op: Mask, h: nat, w: nat, comp: seq<Cell>, s: set<Cell>, i: int)
    requires IsRect(op, h, w) && AllOpaque(op, h, w, comp) && Linked(comp) && Closed(op, h, w, s)
    requires 0 <= i < |comp| && comp[i] in s
    ensures Cells(comp) <= s
  {
    FirstIn(op, h, w, comp, s, i);
    forall k | 0 <= k < |comp| ensures comp[k] in s { ForwardIn(op, h, w, comp, s, k); }
  }

  lemma {:induction false} FirstIn(op: Mask, h: nat, w: nat, comp: seq<Cell>, s: set<Cell>, i: int)
    requires IsRect(op, h, w) && AllOpaque(op, h, w, comp) && Linked(comp) && Closed(op, h, w, s)
    requires 0 <= i < |comp| && comp[i] in s
    ensures comp[0] in s
    decreases i
  {
    if i > 0 {
      assert HasEarlierNeighbour(comp, i);
      var j :| 0 <= j < i && Adjacent(comp[j], comp[i]);
      assert Adjacent(comp[i], comp[j]);
      FirstIn(op, h, w, comp, s, j);
    }
  }

  lemma {:induction false} ForwardIn(op: Mask, h: nat, w: nat, comp: seq<Cell>, s: set<Cell>, k: int)
    requires IsRect(op, h, w) && AllOpaque(op, h, w, comp) && Linked(comp) && Closed(op, h, w, s)
    requires 0 <= k < |comp| && comp[0] in s
    ensures comp[k] in s
    decreases k
  {
    if k > 0 {
      assert HasEarlierNeighbour(comp, k);
      var j :| 0 <= j < k && Adjacent(comp[j], comp[k]);
      ForwardIn(op, h, w, comp, s, j);
      assert Opaque(op, h, w, comp[k]);
    }
  }

  /** Two components that share a pixel have the same pixels. */
  lemma ComponentsMeetOnlyWhenEqual(op: Mask, h: nat, w: nat, a: seq<Cell>, b: seq<Cell>, c: Cell)
    requires IsRect(op, h, w) && IsComponent(op, h, w, a) && IsComponent(op, h, w, b)
    requires c in a && c in b
    ensures Cells(a) == Cells(b)
  {
    var i :| 0 <= i < |a| && a[i] == c;
    var j :| 0 <= j < |b| && b[j] == c;
    ClosedHoldsLinked(op, h, w, a, Cells(b), i);
    ClosedHoldsLinked(op, h, w, b, Cells(a), j);
  }

  /** The recorded cells: new, opaque, listed once, each adjacent to an earlier one. */
  ghost predicate CellsInv(op: Mask, h: nat, w: nat, before: set<Cell>, start: Cell, comp: seq<Cell>, seen: set<Cell>)
    requires IsRect(op, h, w)
  {
    && seen == before + Cells(comp)
    && seen <= GridCells(h, w)
    && NoDup(comp) && AllOpaque(op, h, w, comp) && Linked(comp)
    && (forall c :: c in comp ==> c !in before)
    && (|comp| > 0 ==> comp[0] == start)
  }

  /** Every queued cell is the start (before the first pop) or next to a recorded cell. */
  ghost predicate QueueInv(start: Cell, comp: seq<Cell>, queue: seq<Cell>) {
    && (|comp| == 0 ==> queue == [start])
    && (|comp| > 0 ==> forall q :: q in queue ==> exists c :: c in comp && Adjacent(c, q))
  }

  /** Every neighbour of a recorded cell is still queued, transparent or off the grid, or seen. */
  ghost predicate FrontierInv(op: Mask, h: nat, w: nat, comp: seq<Cell>, queue: seq<Cell>, seen: set<Cell>)
    requires IsRect(op, h, w)
  {
    forall c, d :: c in comp && d in Neighbours(c) ==> d in queue || !Opaque(op, h, w, d) || d in seen
  }

  ghost predicate SearchInv(op: Mask, h: nat, w: nat, before: set<Cell>, start: Cell,
                            comp: seq<Cell>, queue: seq<Cell>, seen: set<Cell>)
    requires IsRect(op, h, w)
  {
    CellsInv(op, h, w, before, start, comp, seen) && QueueInv(start, comp, queue) && FrontierInv(op, h, w, comp, queue, seen)
  }

  /** Popping a cell that is off the grid, transparent or already seen keeps the invariant. */
  lemma SkipStep(op: Mask, h: nat, w: nat, before: set<Cell>, start: Cell,
                 comp: seq<Cell>, queue: seq<Cell>, seen: set<Cell>)
    requires IsRect(op, h, w) && SearchInv(op, h, w, before, start, comp, queue, seen)
    requires |queue| > 0 && (!Opaque(op, h, w, queue[0]) || queue[0] in seen)
    requires Opaque(op, h, w, start) && start !in before
    ensures SearchInv(op, h, w, before, start, comp, queue[1..], seen)
  {
    assert |comp| > 0;
    assert forall r :: r in queue[1..] ==> r in queue;
  }

  lemma AddCells(op: Mask, h: nat, w: nat, before: set<Cell>, start: Cell,
                 comp: seq<Cell>, queue: seq<Cell>, seen: set<Cell>)
    requires IsRect(op, h, w) && CellsInv(op, h, w, before, start, comp, seen) && QueueInv(start, comp, queue)
    requires |queue| > 0 && Opaque(op, h, w, queue[0]) && queue[0] !in seen
    ensures CellsInv(op, h, w, before, start, comp + [queue[0]], seen + {queue[0]})
  {
    var q := queue[0];
    var comp' := comp + [q];
    assert Cells(comp') == Cells(comp) + {q};
    assert q in GridCells(h, w);
    forall i, j | 0 <= i < j < |comp'| ensures comp'[i] != comp'[j] {
      if j == |comp| {
        assert comp'[i] in Cells(comp);
      } else {
        assert comp'[i] == comp[i] && comp'[j] == comp[j];
      }
    }
    assert AllOpaque(op, h, w, comp') by {
      forall i | 0 <= i < |comp'| ensures Opaque(op, h, w, comp'[i]) {
        if i < |comp| { assert comp'[i] == comp[i]; }
      }
    }
    if |comp| > 0 {
      assert q in queue;
      var parent :| parent in comp && Adjacent(parent, q);
      LinkedAppend(comp, q, Index(comp, parent));
    }
  }

  lemma LinkedAppend(comp: seq<Cell>, q: Cell, p: int)
    requires Linked(comp) && 0 <= p < |comp| && Adjacent(comp[p], q)
    ensures Linked(comp + [q])
  {
    var comp' := comp + [q];
    forall i | 0 < i < |comp'| ensures HasEarlierNeighbour(comp', i) {
      if i == |comp| {
        assert Adjacent(comp'[p], comp'[i]);
      } else {
        assert HasEarlierNeighbour(comp, i);
        var j :| 0 <= j < i && Adjacent(comp[j], comp[i]);
        assert Adjacent(comp'[j], comp'[i]);
      }
    }
  }

  lemma AddQueue(start: Cell, comp: seq<Cell>, queue: seq<Cell>)
    requires QueueInv(start, comp, queue) && |queue| > 0
    ensures QueueInv(start, comp + [queue[0]], queue[1..] + Neighbours(queue[0]))
  {
    var q := queue[0];
    var comp', queue' := comp + [q], queue[1..] + Neighbours(q);
    assert q in comp';
    forall r | r in queue' ensures exists c :: c in comp' && Adjacent(c, r) {
      if r in queue[1..] {
        assert r in queue;
        var c :| c in comp && Adjacent(c, r);
        assert c in comp';
      } else {
        NeighboursAreAdjacent(q, r);
      }
    }
  }

  lemma AddFrontier(op: Mask, h: nat, w: nat, comp: seq<Cell>, queue: seq<Cell>, seen: set<Cell>)
    requires IsRect(op, h, w) && FrontierInv(op, h, w, comp, queue, seen) && |queue| > 0
    ensures FrontierInv(op, h, w, comp + [queue[0]], queue[1..] + Neighbours(queue[0]), seen + {queue[0]})
  {
    var q := queue[0];
    var comp', queue', seen' := comp + [q], queue[1..] + Neighbours(q), seen + {q};
    forall c, d | c in comp' && d in Neighbours(c)
      ensures d in queue' || !Opaque(op, h, w, d) || d in seen'
    {
      if c != q {
        assert c in comp;
        assert d in queue ==> d == q || d in queue[1..];
      }
    }
  }

  lemma Shrink(h: nat, w: nat, seen: set<Cell>, q: Cell)
    requires InBounds(q, h, w) && q !in seen
    ensures |GridCells(h, w) - (seen + {q})| < |GridCells(h, w) - seen|
  {
    assert q in GridCells(h, w) - seen;
    assert GridCells(h, w) - (seen + {q}) == (GridCells(h, w) - seen) - {q};
  }

  /** Once the queue is empty the recorded cells are closed. */
  lemma SearchDone(op: Mask, h: nat, w: nat, before: set<Cell>, start: Cell, comp: seq<Cell>, seen: set<Cell>)
    requires IsRect(op, h, w) && SearchInv(op, h, w, before, start, comp, [], seen)
    requires forall c :: c in before ==> Opaque(op, h, w, c)
    requires Closed(op, h, w, before)
    ensures Closed(op, h, w, Cells(comp))
  {
    forall c, d | c in Cells(comp) && Adjacent(c, d) && Opaque(op, h, w, d) ensures d in Cells(comp) {
      NeighboursAreAdjacent(c, d);
      assert Opaque(op, h, w, comp[Index(comp, c)]);
      assert Adjacent(d, c);
      assert d !in before;
    }
  }

  /** `visited` marks exactly the cells of `seen`. */
  ghost predicate Mirrors(visited: array2<bool>, h: nat, w: nat, seen: set<Cell>)
    reads visited
  {
    visited.Length0 == h && visited.Length1 == w &&
    forall y, x :: 0 <= y < h && 0 <= x < w ==> (visited[y, x] <==> (y, x) in seen)
  }

  /** One pop of the search loop. */
  method SearchStep(op: Mask, h: nat, w: nat, visited: array2<bool>, ghost before: set<Cell>, start: Cell,
                    comp: seq<Cell>, queue: seq<Cell>, ghost seen: set<Cell>)
    returns (comp': seq<Cell>, queue': seq<Cell>, ghost seen': set<Cell>)
    requires IsRect(op, h, w) && Mirrors(visited, h, w, seen)
    requires SearchInv(op, h, w, before, start, comp, queue, seen) && |queue| > 0
    requires Opaque(op, h, w, start) && start !in before
    modifies visited
    ensures Mirrors(visited, h, w, seen') && SearchInv(op, h, w, before, start, comp', queue', seen')
    ensures |GridCells(h, w) - seen'| < |GridCells(h, w) - seen| || (seen' == seen && |queue'| < |queue|)
  {
    var q := queue[0];
    var y, x := q.0, q.1;
    if y < 0 || y >= h || x < 0 || x >= w || visited[y, x] || !op[y][x] {
      SkipStep(op, h, w, before, start, comp, queue, seen);
      return comp, queue[1..], seen;
    }
    AddCells(op, h, w, before, start, comp, queue, seen);
    AddQueue(start, comp, queue);
    AddFrontier(op, h, w, comp, queue, seen);
    Shrink(h, w, seen, q);
    visited[y, x] := true;
    comp', queue', seen' := comp + [q], queue[1..] + Neighbours(q), seen + {q};
  }

  /**
   * `bfs(start_y, start_x)`. The visited cells on entry (`before`) are whole
   * components; the search marks exactly the cells it returns, which are a
   * whole component starting at `start`, none of them visited before.
   */
  method Bfs(op: Mask, h: nat, w: nat, visited: array2<bool>, start: Cell, ghost before: set<Cell>) returns (comp: seq<Cell>)
    requires IsRect(op, h, w) && Mirrors(visited, h, w, before)
    requires forall c :: c in before ==> Opaque(op, h, w, c)
    requires Closed(op, h, w, before)
    requires Opaque(op, h, w, start) && start !in before
    modifies visited
    ensures Mirrors(visited, h, w, before + Cells(comp))
    ensures IsComponent(op, h, w, comp) && comp[0] == start
    ensures forall c :: c in comp ==> c !in before
  {
    var queue := [start];
    comp := [];
    ghost var seen := before;
    assert Cells(comp) == {};
    while |queue| > 0
      invariant Mirrors(visited, h, w, seen)
      invariant SearchInv(op, h, w, before, start, comp, queue, seen)
      decreases |GridCells(h, w) - seen|, |queue|
    {
      comp, queue, seen := SearchStep(op, h, w, visited, before, start, comp, queue, seen);
    }
    SearchDone(op, h, w, before, start, comp, seen);
  }

  /** The position of a member in a sequence. */
  function Index(s: seq<Cell>, c: Cell): (i: int)
    requires c in s
    ensures 0 <= i < |s| && s[i] == c
  {
    if s[0] == c then 0 else 1 + Index(s[1..], c)
  }

  /** The components with more than 100 pixels, in discovery order. */
  function Large(all: seq<seq<Cell>>): (r: seq<seq<Cell>>)
    ensures forall k :: 0 <= k < |r| ==> |r[k]| > 100 && r[k] in all
    ensures forall k :: 0 <= k < |all| && |all[k]| > 100 ==> all[k] in r
  {
    if |all| == 0 then [] else Large(all[..|all| - 1]) + (if |all[|all| - 1]| > 100 then [all[|all| - 1]] else [])
  }

  /** `c` comes before `d` in the raster order of the scan. */
  predicate RasterBefore(c: Cell, d: Cell) { Before(c.0, c.1, d.0, d.1) }

  /**
   * The components as the raster scan discovers them: each listed from its
   * raster-first cell, and their first cells in rising raster order.
   */
  predicate InRasterOrder(all: seq<seq<Cell>>) {
    && (forall k :: 0 <= k < |all| ==> |all[k]| > 0)
    && (forall k, c :: 0 <= k < |all| && c in all[k] ==> c == all[k][0] || RasterBefore(all[k][0], c))
    && (forall k1, k2 :: 0 <= k1 < k2 < |all| ==> RasterBefore(all[k1][0], all[k2][0]))
  }

  /** Every component found so far starts before cell `(y, x)`. */
  predicate StartsBefore(all: seq<seq<Cell>>, y: int, x: int) {
    forall k :: 0 <= k < |all| ==> |all[k]| > 0 && RasterBefore(all[k][0], (y, x))
  }

  /** Keeping the large components keeps their raster order. */
  lemma {:induction false} LargeInRasterOrder(all: seq<seq<Cell>>)
    requires InRasterOrder(all)
    ensures InRasterOrder(Large(all))
  {
    if |all| > 0 {
      var pre, last := all[..|all| - 1], all[|all| - 1];
      assert InRasterOrder(pre) by {
        forall k, c | 0 <= k < |pre| && c in pre[k] ensures c == pre[k][0] || RasterBefore(pre[k][0], c) {
          assert pre[k] == all[k];
        }
        forall k1, k2 | 0 <= k1 < k2 < |pre| ensures RasterBefore(pre[k1][0], pre[k2][0]) {
          assert pre[k1] == all[k1] && pre[k2] == all[k2];
        }
      }
      LargeInRasterOrder(pre);
      if |last| > 100 {
        var r := Large(pre);
        var r' := r + [last];
        forall k1, k2 | 0 <= k1 < k2 < |r'| ensures RasterBefore(r'[k1][0], r'[k2][0]) {
          assert r'[k1] == r[k1];
          if k2 < |r| {
            assert r'[k2] == r[k2];
          } else {
            var i :| 0 <= i < |pre| && pre[i] == r[k1];
            assert all[i] == pre[i];
          }
        }
      }
    }
  }

  /** Past the last column of row `y` is the start of row `y + 1`. */
  lemma StartsNextRow(op: Mask, h: nat, w: nat, all: seq<seq<Cell>>, y: int)
    requires IsRect(op, h, w) && StartsBefore(all, y, w)
    requires forall k :: 0 <= k < |all| ==> IsComponent(op, h, w, all[k])
    ensures StartsBefore(all, y + 1, 0)
  {
    forall k | 0 <= k < |all| ensures RasterBefore(all[k][0], (y + 1, 0)) {
      assert Opaque(op, h, w, all[k][0]);
    }
  }

  /**
   * A component whose search starts at the raster-scan cell `(y, x)`, none of
   * whose cells was seen, where every opaque cell before `(y, x)` was seen,
   * extends the raster order.
   */
  lemma StartAppend(op: Mask, h: nat, w: nat, seen: set<Cell>, all: seq<seq<Cell>>, comp: seq<Cell>, y: int, x: int)
    requires IsRect(op, h, w) && InRasterOrder(all) && StartsBefore(all, y, x)
    requires IsComponent(op, h, w, comp) && comp[0] == (y, x)
    requires forall c :: c in comp ==> c !in seen
    requires forall yy, xx :: 0 <= yy < h && 0 <= xx < w && Before(yy, xx, y, x) && op[yy][xx] ==> (yy, xx) in seen
    ensures InRasterOrder(all + [comp]) && StartsBefore(all + [comp], y, x + 1)
  {
    var all' := all + [comp];
    forall k, c | 0 <= k < |all'| && c in all'[k] ensures c == all'[k][0] || RasterBefore(all'[k][0], c) {
      if k < |all| {
        assert all'[k] == all[k];
      } else {
        assert Opaque(op, h, w, comp[Index(comp, c)]);
      }
    }
    forall k1, k2 | 0 <= k1 < k2 < |all'| ensures RasterBefore(all'[k1][0], all'[k2][0]) {
      assert all'[k1] == all[k1];
      if k2 < |all| {
        assert all'[k2] == all[k2];
      }
    }
  }

  /** What the raster scan keeps: the discovered components partition the seen cells. */
  ghost predicate ScanInv(op: Mask, h: nat, w: nat, seen: set<Cell>, all: seq<seq<Cell>>, components: seq<seq<Cell>>)
    requires IsRect(op, h, w)
  {
    && (forall c :: c in seen ==> Opaque(op, h, w, c))
    && Closed(op, h, w, seen)
    && (forall c :: c in seen <==> exists k :: 0 <= k < |all| && c in all[k])
    && (forall k :: 0 <= k < |all| ==> IsComponent(op, h, w, all[k]))
    && (forall k1, k2, c :: 0 <= k1 < k2 < |all| && c in all[k1] ==> c !in all[k2])
    && components == Large(all)
  }

  /** Adding a fresh component keeps the scan invariant. */
  lemma ScanAdd(op: Mask, h: nat, w: nat, seen: set<Cell>, all: seq<seq<Cell>>, components: seq<seq<Cell>>, comp: seq<Cell>)
    requires IsRect(op, h, w) && ScanInv(op, h, w, seen, all, components)
    requires IsComponent(op, h, w, comp) && forall c :: c in comp ==> c !in seen
    ensures ScanInv(op, h, w, seen + Cells(comp), all + [comp], if |comp| > 100 then components + [comp] else components)
  {
    var all' := all + [comp];
    var seen' := seen + Cells(comp);
    assert all'[..|all'| - 1] == all;
    forall c ensures c in seen' <==> exists k :: 0 <= k < |all'| && c in all'[k] {
      if c in seen {
        var k :| 0 <= k < |all| && c in all[k];
        assert all'[k] == all[k];
      } else if c in comp {
        assert all'[|all|] == comp;
      }
    }
    forall k1, k2, c | 0 <= k1 < k2 < |all'| && c in all'[k1] ensures c !in all'[k2] {
      if k2 == |all| {
        assert all'[k1] == all[k1];
        assert c in seen;
      } else {
        assert all'[k1] == all[k1] && all'[k2] == all[k2];
      }
    }
    forall k | 0 <= k < |all'| ensures IsComponent(op, h, w, all'[k]) {
      if k < |all| { assert all'[k] == all[k]; }
    }
    forall c | c in Cells(comp) ensures Opaque(op, h, w, c) {
      assert Opaque(op, h, w, comp[Index(comp, c)]);
    }
  }

  /**
   * The raster scan of the search starts. Every discovered run is a whole
   * component, no two share a pixel, every opaque pixel is in one of them, and
   * the kept list is exactly the large ones. Components are listed from their
   * raster-first cell, in the raster order of those cells.
   */
  method FindComponents(op: Mask, h: nat, w: nat) returns (components: seq<seq<Cell>>, ghost all: seq<seq<Cell>>)
    requires IsRect(op, h, w)
    ensures forall k :: 0 <= k < |all| ==> IsComponent(op, h, w, all[k])
    ensures forall k1, k2, c :: 0 <= k1 < k2 < |all| && c in all[k1] ==> c !in all[k2]
    ensures forall y, x :: 0 <= y < h && 0 <= x < w && op[y][x] ==> exists k :: 0 <= k < |all| && (y, x) in all[k]
    ensures components == Large(all)
    ensures InRasterOrder(all)
  {
    var visited := new bool[h, w]((_, _) => false);
    ghost var seen: set<Cell> := {};
    components, all := [], [];
    for y := 0 to h
      invariant Mirrors(visited, h, w, seen)
      invariant ScanInv(op, h, w, seen, all, components)
      invariant forall yy, xx :: 0 <= yy < y && 0 <= xx < w && op[yy][xx] ==> (yy, xx) in seen
      invariant InRasterOrder(all) && StartsBefore(all, y, 0)
    {
      for x := 0 to w
        invariant Mirrors(visited, h, w, seen)
        invariant ScanInv(op, h, w, seen, all, components)
        invariant forall yy, xx :: 0 <= yy < h && 0 <= xx < w && Before(yy, xx, y, x) && op[yy][xx] ==> (yy, xx) in seen
        invariant InRasterOrder(all) && StartsBefore(all, y, x)
      {
        components, seen, all := ScanCell(op, h, w, visited, y, x, components, seen, all);
      }
      StartsNextRow(op, h, w, all, y);
    }
  }

  /** One cell of the raster scan: start a search there if it is opaque and not yet visited. */
  method ScanCell(op: Mask, h: nat, w: nat, visited: array2<bool>, y: int, x: int,
                  components: seq<seq<Cell>>, ghost seen: set<Cell>, ghost all: seq<seq<Cell>>)
    returns (components': seq<seq<Cell>>, ghost seen': set<Cell>, ghost all': seq<seq<Cell>>)
    requires IsRect(op, h, w) && 0 <= y < h && 0 <= x < w
    requires Mirrors(visited, h, w, seen) && ScanInv(op, h, w, seen, all, components)
    requires InRasterOrder(all) && StartsBefore(all, y, x)
    requires forall yy, xx :: 0 <= yy < h && 0 <= xx < w && Before(yy, xx, y, x) && op[yy][xx] ==> (yy, xx) in seen
    modifies visited
    ensures Mirrors(visited, h, w, seen') && ScanInv(op, h, w, seen', all', components')
    ensures seen <= seen' && (op[y][x] ==> (y, x) in seen')
    ensures InRasterOrder(all') && StartsBefore(all', y, x + 1)
  {
    components', seen', all' := components, seen, all;
    if op[y][x] && !visited[y, x] {
      var comp := Bfs(op, h, w, visited, (y, x), seen);
      ScanAdd(op, h, w, seen, all, components, comp);
      StartAppend(op, h, w, seen, all, comp, y, x);
      all' := all + [comp];
      seen' := seen + Cells(comp);
      if |comp| > 100 {
        components' := components + [comp];
      }
    }
  }

  /** `max(components, key=len)`: the first of the longest. */
  function FirstLongest(cs: seq<seq<Cell>>): (i: nat)
    requires |cs| > 0
    ensures i < |cs|
    ensures forall k :: 0 <= k < |cs| ==> |cs[k]| <= |cs[i]|
    ensures forall k :: 0 <= k < i ==> |cs[k]| < |cs[i]|
  {
    if |cs| == 1 then 0
    else
      var j := FirstLongest(cs[..|cs| - 1]);
      if |cs[|cs| - 1]| > |cs[j]| then |cs| - 1 else j
  }

  /** Every component of more than 100 pixels has the pixels of one of the kept ones. */
  lemma LargeAreKept(op: Mask, h: nat, w: nat, all: seq<seq<Cell>>, comp: seq<Cell>)
    requires IsRect(op, h, w)
    requires forall k :: 0 <= k < |all| ==> IsComponent(op, h, w, all[k])
    requires forall y, x :: 0 <= y < h && 0 <= x < w && op[y][x] ==> exists k :: 0 <= k < |all| && (y, x) in all[k]
    requires IsComponent(op, h, w, comp) && |comp| > 100
    ensures exists k :: 0 <= k < |Large(all)| && Cells(Large(all)[k]) == Cells(comp)
  {
    var c := comp[0];
    assert Opaque(op, h, w, c);
    var k :| 0 <= k < |all| && c in all[k];
    ComponentsMeetOnlyWhenEqual(op, h, w, all[k], comp, c);
    NoDupCardinality(all[k]);
    NoDupCardinality(comp);
    assert all[k] in Large(all);
    var kk :| 0 <= kk < |Large(all)| && Large(all)[kk] == all[k];
  }

  /** The components of more than 100 pixels, one entry for each, in the order the raster scan reaches them. */
  method LargeComponents(op: Mask, h: nat, w: nat) returns (components: seq<seq<Cell>>)
    requires IsRect(op, h, w)
    ensures forall k :: 0 <= k < |components| ==> IsComponent(op, h, w, components[k]) && |components[k]| > 100
    ensures forall comp :: IsComponent(op, h, w, comp) && |comp| > 100 ==>
      exists k :: 0 <= k < |components| && Cells(components[k]) == Cells(comp)
    ensures InRasterOrder(components)
  {
    ghost var all;
    components, all := FindComponents(op, h, w);
    LargeInRasterOrder(all);
    forall comp | IsComponent(op, h, w, comp) && |comp| > 100
      ensures exists k :: 0 <= k < |components| && Cells(components[k]) == Cells(comp)
    {
      LargeAreKept(op, h, w, all, comp);
    }
  }

  /** `new_data = np.zeros_like(data)` followed by copying the listed pixels. */
  method KeepOnly(img: Image, h: nat, w: nat, cells: seq<Cell>) returns (out: Image)
    requires IsRect(img, h, w) && forall i :: 0 <= i < |cells| ==> InBounds(cells[i], h, w)
    ensures IsRect(out, h, w)
    ensures forall y, x :: 0 <= y < h && 0 <= x < w ==> out[y][x] == if (y, x) in cells then img[y][x] else Blank
  {
    out := seq(h, _ => seq(w, _ => Blank));
    for i := 0 to |cells|
      invariant IsRect(out, h, w)
      invariant forall y, x :: 0 <= y < h && 0 <= x < w ==>
        out[y][x] == if (y, x) in cells[..i] then img[y][x] else Blank
    {
      var y, x := cells[i].0, cells[i].1;
      out := out[y := out[y][x := img[y][x]]];
      assert forall c :: c in cells[..i + 1] <==> c in cells[..i] || c == cells[i];
    }
    assert cells[..|cells|] == cells;
  }

  /**
   * `get_largest_connected_component`. With no opaque pixel, or no component
   * of more than 100 pixels, the image comes back unchanged. Otherwise `kept`
   * lists the large components; every component of more than 100 pixels is one
   * of them, and the output keeps exactly the pixels of the first longest and
   * makes every other pixel all-zero. `kept` is in raster order, so among
   * components of the largest size the one reached first by the scan wins.
   */
  method LargestComponent(img: Image, h: nat, w: nat) returns (out: Image, ghost kept: seq<seq<Cell>>)
    requires IsRect(img, h, w)
    ensures (forall y, x :: 0 <= y < h && 0 <= x < w ==> img[y][x].a <= 10) ==> out == img
    ensures forall k :: 0 <= k < |kept| ==> IsComponent(OpaqueMask(img, h, w), h, w, kept[k]) && |kept[k]| > 100
    ensures forall comp :: IsComponent(OpaqueMask(img, h, w), h, w, comp) && |comp| > 100 ==>
      exists k :: 0 <= k < |kept| && Cells(kept[k]) == Cells(comp)
    ensures kept == [] ==> out == img
    ensures kept != [] ==> IsRect(out, h, w) && forall y, x :: 0 <= y < h && 0 <= x < w ==>
      out[y][x] == if (y, x) in kept[FirstLongest(kept)] then img[y][x] else Blank
    ensures InRasterOrder(kept)
    ensures kept != [] ==> forall k :: 0 <= k < |kept| && k != FirstLongest(kept) ==>
      |kept[k]| < |kept[FirstLongest(kept)]|
      || (|kept[k]| == |kept[FirstLongest(kept)]| && RasterBefore(kept[FirstLongest(kept)][0], kept[k][0]))
  {
    var op := OpaqueMask(img, h, w);
    CountMaskZero(op, h, w);
    if CountMask(op) == 0 {
      forall comp ensures !IsComponent(op, h, w, comp) {
        assert |comp| > 0 ==> !Opaque(op, h, w, comp[0]);
      }
      return img, [];
    }
    assert !IsEmptyMask(op, h, w);
    var components := LargeComponents(op, h, w);
    kept := components;
    if |components| == 0 {
      return img, kept;
    }
    var largest := components[FirstLongest(components)];
    assert IsComponent(op, h, w, largest);
    assert forall i :: 0 <= i < |largest| ==> Opaque(op, h, w, largest[i]);
    out := KeepOnly(img, h, w, largest);
  }

  /** A duplicate-free list has as many cells as its set. */
  lemma {:induction false} NoDupCardinality(s: seq<Cell>)
    requires NoDup(s)
    ensures |Cells(s)| == |s|
  {
    if |s| > 0 {
      var t := s[..|s| - 1];
      assert NoDup(t);
      NoDupCardinality(t);
      assert Cells(s) == Cells(t) + {s[|s| - 1]};
      assert s[|s| - 1] !in Cells(t);
    }
  }

  /** A rectangle as PIL's `crop` takes it: `(left, top, right, bottom)`, right and bottom exclusive. */
  datatype CropBox = CropBox(left: int, top: int, right: int, bottom: int)
  {
    predicate Holds(px: int, py: int) { left <= px < right && top <= py < bottom }
  }

  /**
   * `extract_and_clean`: the requested `w` by `h` window at `(x, y)`, clamped
   * to the image on all four sides. The far edges are computed from the
   * already clamped origin, so a negative origin moves the window rather than
   * shortening it.
   */
  function CleanWindow(x: int, y: int, w: int, h: int, imgW: nat, imgH: nat): (b: CropBox)
    ensures 0 <= b.left && 0 <= b.top && b.right <= imgW && b.bottom <= imgH
    ensures b.left == if x < 0 then 0 else x
    ensures b.top == if y < 0 then 0 else y
    ensures b.right <= b.left + w && b.bottom <= b.top + h
    ensures 0 <= x && 0 <= y && x + w <= imgW && y + h <= imgH ==> b == CropBox(x, y, x + w, y + h)
  {
    var left := Max(0, x);
    var top := Max(0, y);
    CropBox(left, top, Min(left + w, imgW), Min(top + h, imgH))
  }

  /** `extract_simple`: only the right and bottom edges are clamped; a negative origin is kept. */
  function SimpleWindow(x: int, y: int, w: int, h: int, imgW: nat, imgH: nat): (b: CropBox)
    ensures b.left == x && b.top == y && b.right <= imgW && b.bottom <= imgH
    ensures b.right <= x + w && b.bottom <= y + h
    ensures x + w <= imgW && y + h <= imgH ==> b == CropBox(x, y, x + w, y + h)
  {
    CropBox(x, y, Min(x + w, imgW), Min(y + h, imgH))
  }

  /**
   * With a non-negative origin and size, the clamped window keeps exactly the
   * pixels of the requested window that lie in the image.
   */
  lemma CleanWindowIsIntersection(x: int, y: int, w: nat, h: nat, imgW: nat, imgH: nat, px: int, py: int)
    requires 0 <= x && 0 <= y
    ensures CleanWindow(x, y, w, h, imgW, imgH).Holds(px, py) <==>
      (x <= px < x + w && y <= py < y + h && 0 <= px < imgW && 0 <= py < imgH)
  {
  }

  /** The two croppers agree when the origin lies in the image's quadrant; only then. */
  lemma WindowsAgree(x: int, y: int, w: int, h: int, imgW: nat, imgH: nat)
    ensures CleanWindow(x, y, w, h, imgW, imgH) == SimpleWindow(x, y, w, h, imgW, imgH) <==> (0 <= x && 0 <= y)
  {
  }
}
