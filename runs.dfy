/**
 * Maximal runs of `true` in a sequence of flags, found by a single pass that
 * opens a run at the first flagged index and closes it at the next unflagged
 * one (`in_row` / `start_row` in the row and column finders, and the same shape
 * over gap columns). Runs are inclusive `(start, end)` pairs.
 */
module Runs {

  datatype Run = Run(start: int, end: int)

  predicate InRun(r: Run, k: int) { r.start <= k <= r.end }

  /** Every index of the run is in range and flagged. */
  ghost predicate AllFlagged(flags: seq<bool>, r: Run) {
    forall k :: InRun(r, k) ==> 0 <= k < |flags| && flags[k]
  }

  /**
   * `runs` are exactly the maximal runs of `flags`, in order: each lies in
   * range and is all flagged, cannot be extended on either side, is separated
   * from the next by at least one unflagged index, and every flagged index is
   * in one of them.
   */
  ghost predicate IsRunsOf(flags: seq<bool>, runs: seq<Run>) {
    && (forall i :: 0 <= i < |runs| ==> 0 <= runs[i].start <= runs[i].end < |flags|)
    && (forall i :: 0 <= i < |runs| ==> AllFlagged(flags, runs[i]))
    && (forall i :: 0 <= i < |runs| ==> runs[i].start == 0 || !flags[runs[i].start - 1])
    && (forall i :: 0 <= i < |runs| ==> runs[i].end == |flags| - 1 || !flags[runs[i].end + 1])
    && (forall i :: 0 <= i < |runs| - 1 ==> runs[i].end + 1 < runs[i + 1].start)
    && (forall k :: 0 <= k < |flags| && flags[k] ==> exists i :: 0 <= i < |runs| && InRun(runs[i], k))
  }

  /**
   * After `i` indices: the closed runs are maximal runs of `flags[..i]` with an
   * unflagged index after each, and an open run (if any) starts at `start`.
   */
  ghost predicate PassInv(flags: seq<bool>, i: int, inRun: bool, start: int, runs: seq<Run>) {
    && 0 <= i <= |flags|
    && (inRun ==> 0 <= start < i && (start == 0 || !flags[start - 1]) && AllFlagged(flags, Run(start, i - 1)))
    && (!inRun ==> i == 0 || !flags[i - 1])
    && ClosedRuns(flags, i, runs)
    && (|runs| > 0 ==> runs[|runs| - 1].end + 1 < (if inRun then start else i))
    && (forall k :: 0 <= k < i && flags[k] ==> (inRun && start <= k) || exists j :: 0 <= j < |runs| && InRun(runs[j], k))
  }

  /**
   * Runs closed before index `bound`: each is all flagged with an unflagged
   * index (or the start) before it and an unflagged index after it, in order.
   */
  ghost predicate ClosedRuns(flags: seq<bool>, bound: int, runs: seq<Run>) {
    && (forall j :: 0 <= j < |runs| ==> 0 <= runs[j].start <= runs[j].end && runs[j].end + 1 < bound)
    && (forall j :: 0 <= j < |runs| ==> runs[j].end + 1 < |flags| && !flags[runs[j].end + 1])
    && (forall j :: 0 <= j < |runs| ==> AllFlagged(flags, runs[j]))
    && (forall j :: 0 <= j < |runs| ==> runs[j].start == 0 || !flags[runs[j].start - 1])
    && (forall j :: 0 <= j < |runs| - 1 ==> runs[j].end + 1 < runs[j + 1].start)
  }

  /** A run closed after all earlier ones. */
  lemma ClosedAppend(flags: seq<bool>, bound: int, runs: seq<Run>, r: Run, bound': int)
    requires ClosedRuns(flags, bound, runs) && bound <= bound'
    requires 0 <= r.start <= r.end && r.end + 1 < bound' && AllFlagged(flags, r)
    requires 0 <= r.end + 1 < |flags| && !flags[r.end + 1] && (r.start == 0 || !flags[r.start - 1])
    requires |runs| > 0 ==> runs[|runs| - 1].end + 1 < r.start
    ensures ClosedRuns(flags, bound', runs + [r])
  {
    var runs' := runs + [r];
    forall j | 0 <= j < |runs'|
      ensures 0 <= runs'[j].start <= runs'[j].end && runs'[j].end + 1 < bound'
      ensures runs'[j].end + 1 < |flags| && !flags[runs'[j].end + 1]
      ensures AllFlagged(flags, runs'[j]) && (runs'[j].start == 0 || !flags[runs'[j].start - 1])
    {
      if j < |runs| {
        assert runs'[j] == runs[j];
      }
    }
    forall j | 0 <= j < |runs'| - 1 ensures runs'[j].end + 1 < runs'[j + 1].start {
      assert runs'[j] == runs[j];
      if j + 1 < |runs| {
        assert runs'[j + 1] == runs[j + 1];
      }
    }
  }

  /** Closing the open run at an unflagged index `i`. */
  lemma CloseStep(flags: seq<bool>, i: int, start: int, runs: seq<Run>)
    requires PassInv(flags, i, true, start, runs) && i < |flags| && !flags[i]
    ensures PassInv(flags, i + 1, false, start, runs + [Run(start, i - 1)])
  {
    var runs' := runs + [Run(start, i - 1)];
    ClosedAppend(flags, i, runs, Run(start, i - 1), i + 1);
    forall k | 0 <= k < i + 1 && flags[k] ensures exists j :: 0 <= j < |runs'| && InRun(runs'[j], k) {
      if start <= k {
        assert InRun(runs'[|runs'| - 1], k);
      } else {
        var j :| 0 <= j < |runs| && InRun(runs[j], k);
        assert runs'[j] == runs[j];
      }
    }
  }

  /** Opening a run at a flagged index `i`. */
  lemma OpenStep(flags: seq<bool>, i: int, start: int, runs: seq<Run>)
    requires PassInv(flags, i, false, start, runs) && i < |flags| && flags[i]
    ensures PassInv(flags, i + 1, true, i, runs)
  {
  }

  /** An index that neither opens nor closes a run. */
  lemma KeepStep(flags: seq<bool>, i: int, inRun: bool, start: int, runs: seq<Run>)
    requires PassInv(flags, i, inRun, start, runs) && i < |flags| && flags[i] == inRun
    ensures PassInv(flags, i + 1, inRun, start, runs)
  {
  }

  /** The pass ends with no open run. */
  lemma DoneStep(flags: seq<bool>, start: int, runs: seq<Run>)
    requires PassInv(flags, |flags|, false, start, runs)
    ensures IsRunsOf(flags, runs)
  {
  }

  /** Closing a run still open at the end. */
  lemma FinalStep(flags: seq<bool>, start: int, runs: seq<Run>)
    requires PassInv(flags, |flags|, true, start, runs)
    ensures IsRunsOf(flags, runs + [Run(start, |flags| - 1)])
  {
    var runs' := runs + [Run(start, |flags| - 1)];
    forall k | 0 <= k < |flags| && flags[k] ensures exists j :: 0 <= j < |runs'| && InRun(runs'[j], k) {
      if start <= k {
        assert InRun(runs'[|runs'| - 1], k);
      } else {
        var j :| 0 <= j < |runs| && InRun(runs[j], k);
        assert runs'[j] == runs[j];
      }
    }
  }

  /** One index of the pass: open a run on a flagged index, close it on an unflagged one. */
  method PassStep(flags: seq<bool>, i: int, inRun: bool, start: int, runs: seq<Run>)
    returns (inRun': bool, start': int, runs': seq<Run>)
    requires PassInv(flags, i, inRun, start, runs) && i < |flags|
    ensures PassInv(flags, i + 1, inRun', start', runs')
  {
    inRun', start', runs' := inRun, start, runs;
    if flags[i] && !inRun {
      OpenStep(flags, i, start, runs);
      inRun', start' := true, i;
    } else if !flags[i] && inRun {
      CloseStep(flags, i, start, runs);
      inRun' := false;
      runs' := runs + [Run(start, i - 1)];
    } else {
      KeepStep(flags, i, inRun, start, runs);
    }
  }

  /** The single pass. */
  method FindRuns(flags: seq<bool>) returns (runs: seq<Run>)
    ensures IsRunsOf(flags, runs)
  {
    runs := [];
    var inRun := false;
    var start := 0;
    for i := 0 to |flags|
      invariant PassInv(flags, i, inRun, start, runs)
    {
      inRun, start, runs := PassStep(flags, i, inRun, start, runs);
    }
    if inRun {
      FinalStep(flags, start, runs);
      runs := runs + [Run(start, |flags| - 1)];
    } else {
      DoneStep(flags, start, runs);
    }
  }

  /** Runs appear in increasing order and never overlap or touch. */
  lemma {:induction false} RunsOrdered(flags: seq<bool>, runs: seq<Run>, i: int, j: int)
    requires IsRunsOf(flags, runs)
    requires 0 <= i < j < |runs|
    ensures runs[i].end + 1 < runs[j].start
    decreases j - i
  {
    if j > i + 1 {
      RunsOrdered(flags, runs, i, j - 1);
    }
  }

  /** An index is flagged exactly when it lies in a run, and then in only one. */
  lemma InRunIff(flags: seq<bool>, runs: seq<Run>, k: int)
    requires IsRunsOf(flags, runs) && 0 <= k < |flags|
    ensures flags[k] <==> exists i :: 0 <= i < |runs| && InRun(runs[i], k)
    ensures forall i, j :: 0 <= i < |runs| && 0 <= j < |runs| && InRun(runs[i], k) && InRun(runs[j], k) ==> i == j
  {
    forall i, j | 0 <= i < |runs| && 0 <= j < |runs| && InRun(runs[i], k) && InRun(runs[j], k) ensures i == j {
      if i < j { RunsOrdered(flags, runs, i, j); }
      if j < i { RunsOrdered(flags, runs, j, i); }
    }
  }

  /** The runs of a sequence are determined by it: any two run lists of the same flags are equal. */
  lemma RunsUnique(flags: seq<bool>, a: seq<Run>, b: seq<Run>)
    requires IsRunsOf(flags, a) && IsRunsOf(flags, b)
    ensures a == b
  {
    if |a| > 0 { RunsAgree(flags, a, b, |a| - 1); }
    if |b| > 0 { RunsAgree(flags, b, a, |b| - 1); }
    forall i | 0 <= i < |a| ensures a[i] == b[i] {
      RunsAgree(flags, a, b, i);
    }
  }

  /** Nothing is flagged between run `i - 1` and run `i` (before the first, after the last). */
  lemma GapUnflagged(flags: seq<bool>, a: seq<Run>, i: int, k: int)
    requires IsRunsOf(flags, a) && 0 <= i <= |a| && 0 <= k < |flags|
    requires i == 0 || a[i - 1].end < k
    requires i == |a| || k < a[i].start
    ensures !flags[k]
  {
    forall l | 0 <= l < |a| ensures !InRun(a[l], k) {
      if l < i - 1 { RunsOrdered(flags, a, l, i - 1); }
      if l > i { RunsOrdered(flags, a, i, l); }
    }
  }

  /** Run `i` of one list is run `i` of the other. */
  lemma {:induction false} RunsAgree(flags: seq<bool>, a: seq<Run>, b: seq<Run>, i: int)
    requires IsRunsOf(flags, a) && IsRunsOf(flags, b) && 0 <= i < |a|
    ensures i < |b| && a[i] == b[i]
    decreases i
  {
    if i > 0 {
      RunsAgree(flags, a, b, i - 1);
    }
    SameRunStart(flags, a, b, i);
    SameRunEnd(flags, a[i], b[i]);
  }

  /** When the runs before agree, the i-th runs of both start at the same index. */
  lemma SameRunStart(flags: seq<bool>, a: seq<Run>, b: seq<Run>, i: int)
    requires IsRunsOf(flags, a) && IsRunsOf(flags, b) && 0 <= i < |a| && i <= |b|
    requires i > 0 ==> a[i - 1] == b[i - 1]
    ensures i < |b| && a[i].start == b[i].start
  {
    var s := a[i].start;
    assert InRun(a[i], s);
    if i == |b| {
      GapUnflagged(flags, b, i, s);
      assert false;
    } else {
      var t := b[i].start;
      assert InRun(b[i], t);
      if s < t {
        GapUnflagged(flags, b, i, s);
        assert false;
      } else if t < s {
        GapUnflagged(flags, a, i, t);
        assert false;
      }
    }
  }

  lemma {:induction false} SameRunEnd(flags: seq<bool>, r: Run, q: Run)
    requires 0 <= r.start <= r.end < |flags| && 0 <= q.start <= q.end < |flags|
    requires AllFlagged(flags, r) && AllFlagged(flags, q)
    requires r.end == |flags| - 1 || !flags[r.end + 1]
    requires q.end == |flags| - 1 || !flags[q.end + 1]
    requires r.start == q.start
    ensures r.end == q.end
  {
    if r.end < q.end {
      assert InRun(q, r.end + 1);
    } else if q.end < r.end {
      assert InRun(r, q.end + 1);
    }
  }
}
