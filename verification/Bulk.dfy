/** Count, exclusive prefix sum, scatter: the data-parallel way to fill the tables, as a transition system in
    which workers write their cells in any interleaving. */
module Bulk {
  import opened Wire
  import opened Arith
  import opened Tables

  // ---- partitioning -----------------------------------------------------------------------------------

  /** The product is a machine word. */
  function RangeStart(task: nat, n: nat, numTasks: nat): (s: nat)
    requires numTasks > 0
  {
    QuotientIsNat(task * n % TWO_TO_THE_64, numTasks);
    task * n % TWO_TO_THE_64 / numTasks
  }

  /** The packet indices of each task of bulk_for_each, in the order the task runs them. */
  function Ranges(numTasks: nat, n: nat): (r: seq<seq<nat>>)
    requires numTasks > 0
    ensures |r| == numTasks
  {
    seq(numTasks, t requires 0 <= t < numTasks =>
      Interval(RangeStart(t, n, numTasks), RangeStart(t + 1, n, numTasks)))
  }

  function Interval(lo: nat, hi: nat): (r: seq<nat>)
    ensures |r| == if lo <= hi then hi - lo else 0
    ensures forall i :: 0 <= i < |r| ==> r[i] == lo + i
  {
    seq(if lo <= hi then hi - lo else 0, i requires 0 <= i => lo + i)
  }

  ghost predicate Holds(work: seq<seq<nat>>, t: nat, j: nat, k: nat) {
    t < |work| && j < |work[t]| && work[t][j] == k
  }

  ghost predicate IsRun(work: seq<seq<nat>>, k: nat) {
    exists t: nat, j: nat :: Holds(work, t, j, k)
  }

  /** Every index below n is run exactly once: by one worker, at one position. */
  ghost predicate RunsEachOnce(work: seq<seq<nat>>, n: nat) {
    && (forall t, j :: 0 <= t < |work| && 0 <= j < |work[t]| ==> work[t][j] < n)
    && (forall k: nat :: k < n ==> IsRun(work, k))
    && (forall k: nat, t: nat, j: nat, u: nat, i: nat :: Holds(work, t, j, k) && Holds(work, u, i, k) ==>
          t == u && j == i)
  }

  /** No product wraps when the largest does not. */
  lemma ProductFits(t: nat, n: nat, numTasks: nat)
    requires t <= numTasks && numTasks * n < TWO_TO_THE_64
    ensures t * n % TWO_TO_THE_64 == t * n
  {
    Monotone(t, numTasks, n);
  }

  /** The ranges share the work evenly: each has a task's share of indices, or one more. */
  lemma RangesAreEven(numTasks: nat, n: nat, t: nat)
    requires t < numTasks && numTasks * n < TWO_TO_THE_64
    ensures |Ranges(numTasks, n)[t]| == n / numTasks || |Ranges(numTasks, n)[t]| == n / numTasks + 1
  {
    hide RangeStart;
    StartIs(t, n, numTasks);
    StartIs(t + 1, n, numTasks);
    NextProduct(t, n);
    SumQuotient(t * n, n, numTasks);
    QuotientIsNat(n, numTasks);
  }

  lemma StartIs(t: nat, n: nat, numTasks: nat)
    requires numTasks > 0 && t <= numTasks && numTasks * n < TWO_TO_THE_64
    ensures RangeStart(t, n, numTasks) == t * n / numTasks
  {
    ProductFits(t, n, numTasks);
  }

  lemma NextProduct(t: nat, n: nat)
    ensures (t + 1) * n == t * n + n
  {
  }

  lemma SumQuotient(a: nat, b: nat, d: nat)
    requires d > 0
    ensures (a + b) / d - a / d == b / d || (a + b) / d - a / d == b / d + 1
  {
    QuotientIsNat(a, d);
    QuotientIsNat(b, d);
    SumIs(a + b, d, a / d, a % d, b / d, b % d);
  }

  lemma SumIs(s: nat, d: nat, x: nat, y: nat, q: nat, r: nat)
    requires d > 0 && y < d && r < d && s == x * d + y + (q * d + r)
    ensures s / d == x + q || s / d == x + q + 1
  {
    NextProduct(x + q, d);
    Distribute(x, q, d);
    if y + r < d {
      QuotientIs(s, d, x + q, y + r);
    } else {
      QuotientIs(s, d, x + q + 1, y + r - d);
    }
  }

  lemma Distribute(x: nat, q: nat, d: nat)
    ensures (x + q) * d == x * d + q * d
  {
  }

  lemma StartsClimb(t: nat, u: nat, n: nat, numTasks: nat)
    requires numTasks > 0 && t <= u <= numTasks && numTasks * n < TWO_TO_THE_64
    ensures RangeStart(t, n, numTasks) <= RangeStart(u, n, numTasks)
  {
    ProductFits(t, n, numTasks);
    ProductFits(u, n, numTasks);
    Monotone(t, u, n);
    QuotientsClimb(t * n, u * n, numTasks);
  }

  lemma LastStart(n: nat, numTasks: nat)
    requires numTasks > 0 && numTasks * n < TWO_TO_THE_64
    ensures RangeStart(0, n, numTasks) == 0 && RangeStart(numTasks, n, numTasks) == n
  {
    ProductFits(numTasks, n, numTasks);
    QuotientIs(numTasks * n, numTasks, n, 0);
    QuotientIs(0 * n, numTasks, 0, 0);
  }

  /** The task whose range holds k, searching down from task t. */
  lemma {:induction false} SomeTaskHolds(k: nat, t: nat, n: nat, numTasks: nat)
    requires numTasks > 0 && t <= numTasks && numTasks * n < TWO_TO_THE_64 && k < RangeStart(t, n, numTasks)
    ensures IsRun(Ranges(numTasks, n), k)
  {
    hide RangeStart;
    if t == 0 {
      LastStart(n, numTasks);
    } else if k >= RangeStart(t - 1, n, numTasks) {
      assert Holds(Ranges(numTasks, n), t - 1, k - RangeStart(t - 1, n, numTasks), k);
    } else {
      SomeTaskHolds(k, t - 1, n, numTasks);
    }
  }

  lemma RangesCover(numTasks: nat, n: nat)
    requires numTasks > 0 && numTasks * n < TWO_TO_THE_64
    ensures RunsEachOnce(Ranges(numTasks, n), n)
  {
    hide RangeStart;
    var work := Ranges(numTasks, n);
    LastStart(n, numTasks);
    forall t, j | 0 <= t < |work| && 0 <= j < |work[t]| ensures work[t][j] < n {
      StartsClimb(t + 1, numTasks, n, numTasks);
    }
    forall k: nat | k < n ensures IsRun(work, k) {
      SomeTaskHolds(k, numTasks, n, numTasks);
    }
    forall k: nat, t: nat, j: nat, u: nat, i: nat | Holds(work, t, j, k) && Holds(work, u, i, k)
      ensures t == u && j == i
    {
      if t < u {
        StartsClimb(t + 1, u, n, numTasks);
      } else if u < t {
        StartsClimb(u + 1, t, n, numTasks);
      }
    }
  }

  /** A wrapped product puts every range boundary below n. */
  lemma BoundariesFallShort(t: nat, n: nat, numTasks: nat)
    requires numTasks > 0 && numTasks * n >= TWO_TO_THE_64
    ensures RangeStart(t, n, numTasks) < n
  {
    var x := t * n % TWO_TO_THE_64;
    var q := x / numTasks;
    assert q * numTasks <= x < numTasks * n == n * numTasks;
    Monotone(n, q, numTasks);
  }

  /** For every n and every number of tasks, the ranges cover [0, n) exactly once, if and only if the product of
      the two fits the machine word; when it wraps, the last index is never run. */
  lemma RangesRunEachOnce(numTasks: nat, n: nat)
    requires numTasks > 0
    ensures RunsEachOnce(Ranges(numTasks, n), n) <==> numTasks * n < TWO_TO_THE_64
    ensures numTasks * n >= TWO_TO_THE_64 ==> n > 0 && !IsRun(Ranges(numTasks, n), n - 1)
  {
    hide RangeStart;
    if numTasks * n < TWO_TO_THE_64 {
      RangesCover(numTasks, n);
    } else {
      var work, last: nat := Ranges(numTasks, n), n - 1;
      assert RunsEachOnce(work, n) ==> IsRun(work, last);
      forall t: nat, j: nat | t < |work| && j < |work[t]| ensures work[t][j] < n - 1 {
        BoundariesFallShort(t + 1, n, numTasks);
      }
      assert !IsRun(work, last);
    }
  }

  /** One worker running 0, 1, ..., n-1: the sequential executor. */
  lemma SerialRunsEachOnce(n: nat)
    ensures RunsEachOnce([Interval(0, n)], n)
  {
    forall k: nat | k < n ensures IsRun([Interval(0, n)], k) {
      assert Holds([Interval(0, n)], 0, k, k);
    }
  }

  /** Who runs the kernels: the tasks of bulk_for_each, or the plain loop of serial_for_each. */
  datatype Executor = BulkForEach | SerialForEach

  /** The indices of each worker; bulk_for_each makes at least one task. */
  function WorkOf(ex: Executor, numTasks: nat, n: nat): seq<seq<nat>> {
    match ex
    case BulkForEach => Ranges(if numTasks == 0 then 1 else numTasks, n)
    case SerialForEach => [Interval(0, n)]
  }

  /** The executor's own arithmetic stays in the machine word. */
  predicate ExecutorFits(ex: Executor, numTasks: nat, n: nat) {
    ex.BulkForEach? ==> numTasks * n < TWO_TO_THE_64 && n < TWO_TO_THE_64
  }

  lemma EveryExecutorRunsEachOnce(ex: Executor, numTasks: nat, n: nat)
    requires ExecutorFits(ex, numTasks, n)
    ensures RunsEachOnce(WorkOf(ex, numTasks, n), n)
  {
    hide RunsEachOnce, Ranges, Interval;
    match ex
    case BulkForEach => RangesRunEachOnce(if numTasks == 0 then 1 else numTasks, n);
    case SerialForEach => SerialRunsEachOnce(n);
  }

  // ---- the exclusive scan -----------------------------------------------------------------------------

  type Counts = seq<nat>

  function Add32(a: nat, b: nat): nat { (a + b) % TWO_TO_THE_32 }

  function Flat<V>(pkts: seq<seq<Emit<V>>>): seq<Emit<V>> {
    if pkts == [] then [] else Flat(pkts[..|pkts| - 1]) + pkts[|pkts| - 1]
  }

  function Sizes32<V>(tabs: seq<seq<seq<V>>>): (r: Counts)
    ensures |r| == |tabs|
  {
    seq(|tabs|, t requires 0 <= t < |tabs| => RowCount(tabs, t) % TWO_TO_THE_32)
  }

  /** The running 32-bit counts after the packets, seeded with the current table sizes. */
  function Running<V>(tabs: seq<seq<seq<V>>>, pkts: seq<seq<Emit<V>>>): (r: Counts)
    ensures |r| == |tabs|
  {
    if pkts == [] then Sizes32(tabs)
    else
      var before := Running(tabs, pkts[..|pkts| - 1]);
      seq(|tabs|, t requires 0 <= t < |tabs| => Add32(before[t], Count(pkts[|pkts| - 1], t) % TWO_TO_THE_32))
  }

  /** Where packet k's first record of table t goes. */
  function Base<V>(tabs: seq<seq<seq<V>>>, pkts: seq<seq<Emit<V>>>, k: nat): Counts
    requires k <= |pkts|
  {
    Running(tabs, pkts[..k])
  }

  ghost predicate TotalsFit<V>(tabs: seq<seq<seq<V>>>, es: seq<Emit<V>>) {
    forall t :: 0 <= t < |tabs| ==> RowCount(tabs, t) + Count(es, t) < TWO_TO_THE_32
  }

  lemma RunningStep<V>(tabs: seq<seq<seq<V>>>, pkts: seq<seq<Emit<V>>>, t: nat)
    requires t < |tabs| && pkts != []
    ensures var front, last := pkts[..|pkts| - 1], pkts[|pkts| - 1];
      && Running(tabs, pkts)[t] == Add32(Running(tabs, front)[t], Count(last, t) % TWO_TO_THE_32)
      && Flat(pkts) == Flat(front) + last
  {
    hide Count, Add32;
  }

  lemma RunningNone<V>(tabs: seq<seq<seq<V>>>, t: nat)
    requires t < |tabs|
    ensures Running(tabs, [])[t] == (RowCount(tabs, t) + Count<V>(Flat([]), t)) % TWO_TO_THE_32
  {
  }

  lemma {:induction false} RunningIsModular<V>(tabs: seq<seq<seq<V>>>, pkts: seq<seq<Emit<V>>>, t: nat)
    requires t < |tabs|
    ensures Running(tabs, pkts)[t] == (RowCount(tabs, t) + Count(Flat(pkts), t)) % TWO_TO_THE_32
  {
    hide Count, Running, Flat, Add32, RowCount;
    if pkts == [] {
      RunningNone(tabs, t);
    } else {
      RunningStep(tabs, pkts, t);
      var front, last := pkts[..|pkts| - 1], pkts[|pkts| - 1];
      RunningIsModular(tabs, front, t);
      CountConcat(Flat(front), last, t);
      AddMod(RowCount(tabs, t) + Count(Flat(front), t), Count(last, t));
    }
  }

  lemma AddMod(a: nat, b: nat)
    ensures Add32(a % TWO_TO_THE_32, b % TWO_TO_THE_32) == (a + b) % TWO_TO_THE_32
  {
  }

  lemma {:induction false} FlatSplit<V>(pkts: seq<seq<Emit<V>>>, k: nat)
    requires k <= |pkts|
    ensures Flat(pkts) == Flat(pkts[..k]) + Flat(pkts[k..])
  {
    if k == |pkts| {
      assert pkts[..k] == pkts && pkts[k..] == [];
    } else {
      var front := pkts[..|pkts| - 1];
      FlatSplit(front, k);
      assert front[..k] == pkts[..k];
      var tail := pkts[k..];
      assert tail[..|tail| - 1] == front[k..];
      assert Flat(pkts) == Flat(pkts[..k]) + (Flat(front[k..]) + pkts[|pkts| - 1]);
    }
  }

  /** Packet k's records inside the flattened stream. */
  lemma FlatAt<V>(pkts: seq<seq<Emit<V>>>, k: nat)
    requires k < |pkts|
    ensures Flat(pkts[..k + 1]) == Flat(pkts[..k]) + pkts[k]
  {
    assert pkts[..k + 1][..k] == pkts[..k];
  }

  lemma {:induction false} FlatFits<V>(pkts: seq<seq<Emit<V>>>, widths: seq<nat>)
    requires forall k :: 0 <= k < |pkts| ==> FitTables(pkts[k], widths)
    ensures FitTables(Flat(pkts), widths)
  {
    if pkts != [] {
      FlatFits(pkts[..|pkts| - 1], widths);
    }
  }

  lemma {:induction false} FlatConcat<V>(a: seq<seq<Emit<V>>>, b: seq<seq<Emit<V>>>)
    ensures Flat(a + b) == Flat(a) + Flat(b)
  {
    FlatSplit(a + b, |a|);
    assert (a + b)[..|a|] == a && (a + b)[|a|..] == b;
  }
}
