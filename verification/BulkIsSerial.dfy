/** Every interleaving of the scatter pass ends in the serial tables, and never strays on the way. */
module BulkIsSerial {
  import opened Wire
  import opened Tables
  import opened Bulk
  import opened Scatter

  ghost predicate IsCell<V>(tabs: seq<seq<seq<V>>>, t: nat, c: nat, x: nat) {
    t < |tabs| && c < |tabs[t]| && x < |tabs[t][c]|
  }

  ghost predicate SameShape<V>(a: seq<seq<seq<V>>>, b: seq<seq<seq<V>>>) {
    && |a| == |b|
    && (forall t :: 0 <= t < |a| ==> |a[t]| == |b[t]|)
    && (forall t, c :: 0 <= t < |a| && 0 <= c < |a[t]| ==> |a[t][c]| == |b[t][c]|)
  }

  ghost predicate PendingAt<V>(s: Sys<V>, u: nat, j: nat) { u < |s.pend| && j < |s.pend[u]| }

  ghost predicate Awaited<V>(s: Sys<V>, cell: Cell) {
    exists u: nat, j: nat :: PendingAt(s, u, j) && CellOf(s.pend[u][j]) == cell
  }

  /** The state is on track: every pending write is in bounds, in a new row, still undone, and holds the serial
      value; no two pending writes share a cell; rows that existed before hold what they held; every cell
      written so far holds its serial value; every other new cell is awaited. */
  ghost predicate OnTrack<V>(job: Job<V>, s: Sys<V>)
    requires job.Valid()
  {
    var goal := job.Goal();
    && SameShape(s.tabs, goal)
    && (forall u: nat, j: nat :: PendingAt(s, u, j) ==>
          NewAndRight(job, s.pend[u][j]) && CellOf(s.pend[u][j]) !in s.done)
    && (forall u: nat, j: nat, v: nat, i: nat :: PendingAt(s, u, j) && PendingAt(s, v, i) ==>
          CellOf(s.pend[u][j]) == CellOf(s.pend[v][i]) ==> u == v && j == i)
    && (forall t: nat, c: nat, x: nat :: IsCell(s.tabs, t, c, x) ==> CellOnTrack(job, s, t, c, x))
  }

  ghost predicate NewAndRight<V>(job: Job<V>, w: Write<V>)
    requires job.Valid()
  {
    && InBounds(job.Goal(), w)
    && job.Goal()[w.tab][w.col][w.slot] == w.val
    && w.slot >= RowCount(job.start, w.tab)
  }

  ghost predicate CellOnTrack<V>(job: Job<V>, s: Sys<V>, t: nat, c: nat, x: nat)
    requires job.Valid() && SameShape(s.tabs, job.Goal()) && IsCell(s.tabs, t, c, x)
  {
    if x < RowCount(job.start, t) then s.tabs[t][c][x] == job.start[t][c][x] && (t, c, x) !in s.done
    else if (t, c, x) in s.done then s.tabs[t][c][x] == job.Goal()[t][c][x]
    else Awaited(s, (t, c, x))
  }

  // ---- the start --------------------------------------------------------------------------------------

  lemma InitShape<V>(job: Job<V>)
    requires job.Valid() && job.Fits32()
    ensures SameShape(Init(job).tabs, job.Goal())
    ensures forall t: nat, c: nat, x: nat :: IsCell(job.start, t, c, x) ==>
      IsCell(Init(job).tabs, t, c, x) && Init(job).tabs[t][c][x] == job.start[t][c][x]
  {
    BaseIsExact(job, |job.pkts|);
    assert job.pkts[..|job.pkts|] == job.pkts;
  }

  lemma InitPendingRight<V>(job: Job<V>)
    requires job.Valid() && job.Fits32()
    ensures forall u: nat, j: nat :: PendingAt(Init(job), u, j) ==>
      OwnedByOneOf(job, job.work[u], Init(job).pend[u][j]) && NewAndRight(job, Init(job).pend[u][j])
    ensures forall u: nat :: u < |job.work| ==> DistinctCells(Init(job).pend[u])
  {
    forall u: nat | u < |job.work|
      ensures DistinctCells(Init(job).pend[u])
      ensures forall j: nat :: PendingAt(Init(job), u, j) ==>
        OwnedByOneOf(job, job.work[u], Init(job).pend[u][j]) && NewAndRight(job, Init(job).pend[u][j])
    {
      WorkDistinct(job, u);
      WorkerWritesOwned(job, job.work[u]);
      forall j: nat | PendingAt(Init(job), u, j)
        ensures OwnedByOneOf(job, job.work[u], Init(job).pend[u][j]) && NewAndRight(job, Init(job).pend[u][j])
      {
        var w := WorkerWrites(job, job.work[u])[j];
        assert OwnedByOneOf(job, job.work[u], w);
        var i :| 0 <= i < |job.work[u]| && OwnedBy(job, job.work[u][i], w);
      }
    }
  }

  lemma WorkDistinct<V>(job: Job<V>, u: nat)
    requires job.Valid() && u < |job.work|
    ensures forall i, j :: 0 <= i < j < |job.work[u]| ==> job.work[u][i] != job.work[u][j]
  {
    forall i, j | 0 <= i < j < |job.work[u]| ensures job.work[u][i] != job.work[u][j] {
      assert Holds(job.work, u, i, job.work[u][i]) && Holds(job.work, u, j, job.work[u][j]);
    }
  }

  lemma InitWorkersApart<V>(job: Job<V>, u: nat, j: nat, v: nat, i: nat)
    requires job.Valid() && job.Fits32() && u < v
    requires PendingAt(Init(job), u, j) && PendingAt(Init(job), v, i)
    ensures CellOf(Init(job).pend[u][j]) != CellOf(Init(job).pend[v][i])
  {
    InitPendingRight(job);
    WorkersWriteApart(job, u, v, Init(job).pend[u][j], Init(job).pend[v][i]);
  }

  lemma WorkersWriteApart<V>(job: Job<V>, u: nat, v: nat, w: Write<V>, x: Write<V>)
    requires job.Valid() && u < v < |job.work|
    requires OwnedByOneOf(job, job.work[u], w) && OwnedByOneOf(job, job.work[v], x)
    ensures CellOf(w) != CellOf(x)
  {
    hide OwnedBy;
    var a :| 0 <= a < |job.work[u]| && OwnedBy(job, job.work[u][a], w);
    var b :| 0 <= b < |job.work[v]| && OwnedBy(job, job.work[v][b], x);
    assert Holds(job.work, u, a, job.work[u][a]) && Holds(job.work, v, b, job.work[v][b]);
    if job.work[u][a] < job.work[v][b] {
      OwnersWriteApart(job, job.work[u][a], job.work[v][b], w, x);
    } else {
      OwnersWriteApart(job, job.work[v][b], job.work[u][a], x, w);
    }
  }

  lemma NothingBefore<V>(pkts: seq<seq<Emit<V>>>, t: nat)
    ensures Count(Flat(pkts[..0]), t) == 0
  {
  }

  /** The packet whose rows include row x of table t. */
  lemma {:induction false} RowHasAPacket<V>(job: Job<V>, t: nat, x: nat, m: nat) returns (k: nat)
    requires job.Valid() && t < |job.start| && m <= |job.pkts|
    requires RowCount(job.start, t) <= x < RowCount(job.start, t) + Count(Flat(job.pkts[..m]), t)
    ensures k < m
    ensures var lo := RowCount(job.start, t) + Count(Flat(job.pkts[..k]), t); lo <= x < lo + Count(job.pkts[k], t)
  {
    hide Count, RowCount, Flat;
    NothingBefore(job.pkts, t);
    FlatAt(job.pkts, m - 1);
    CountConcat(Flat(job.pkts[..m - 1]), job.pkts[m - 1], t);
    if x >= RowCount(job.start, t) + Count(Flat(job.pkts[..m - 1]), t) {
      k := m - 1;
    } else {
      k := RowHasAPacket(job, t, x, m - 1);
    }
  }

  lemma InitAwaits<V>(job: Job<V>, t: nat, c: nat, x: nat)
    requires job.Valid() && job.Fits32()
    requires t < |job.start| && c < job.widths[t]
    requires RowCount(job.start, t) <= x < RowCount(job.start, t) + Count(Flat(job.pkts), t)
    ensures Awaited(Init(job), (t, c, x))
  {
    assert job.pkts[..|job.pkts|] == job.pkts;
    var k := RowHasAPacket(job, t, x, |job.pkts|);
    var rest := PacketPlaced(job, k);
    PacketWritesCover(job.start, job.widths, Flat(job.pkts[..k]), job.pkts[k], rest, Base(job.start, job.pkts, k),
                      t, c, x);
    assert IsRun(job.work, k);
    var u: nat, i: nat :| Holds(job.work, u, i, k);
    WorkerWritesHit(job, job.work[u], i, (t, c, x));
    var j :| 0 <= j < |WorkerWrites(job, job.work[u])| && CellOf(WorkerWrites(job, job.work[u])[j]) == (t, c, x);
    assert PendingAt(Init(job), u, j) && CellOf(Init(job).pend[u][j]) == (t, c, x);
  }

  lemma InitOnTrack<V>(job: Job<V>)
    requires job.Valid() && job.Fits32()
    ensures OnTrack(job, Init(job))
  {
    InitShape(job);
    InitPendingRight(job);
    var s := Init(job);
    forall u: nat, j: nat, v: nat, i: nat |
      PendingAt(s, u, j) && PendingAt(s, v, i) && CellOf(s.pend[u][j]) == CellOf(s.pend[v][i])
      ensures u == v && j == i
    {
      if u < v {
        InitWorkersApart(job, u, j, v, i);
      } else if v < u {
        InitWorkersApart(job, v, i, u, j);
      }
      assert DistinctCells(s.pend[u]);
    }
    forall t: nat, c: nat, x: nat | IsCell(s.tabs, t, c, x) ensures CellOnTrack(job, s, t, c, x) {
      if x >= RowCount(job.start, t) {
        InitAwaits(job, t, c, x);
      }
    }
  }

  // ---- every step -------------------------------------------------------------------------------------

  /** Every write pending after a step was pending before it. */
  lemma PendingWasPending<V>(s: Sys<V>, a: nat, u: nat, j: nat)
    requires CanStep(s, a) && PendingAt(Step(s, a), u, j)
    ensures PendingAt(s, u, Earlier(a, u, j)) && Step(s, a).pend[u][j] == s.pend[u][Earlier(a, u, j)]
  {
  }

  lemma PendingStaysRight<V>(job: Job<V>, s: Sys<V>, a: nat, u: nat, j: nat)
    requires job.Valid() && OnTrack(job, s) && CanStep(s, a) && PendingAt(Step(s, a), u, j)
    ensures var s' := Step(s, a); NewAndRight(job, s'.pend[u][j]) && CellOf(s'.pend[u][j]) !in s'.done
  {
    hide NewAndRight;
    assert PendingAt(s, a, 0);
    PendingWasPending(s, a, u, j);
  }

  lemma PendingStaysApart<V>(job: Job<V>, s: Sys<V>, a: nat, u: nat, j: nat, v: nat, i: nat)
    requires job.Valid() && OnTrack(job, s) && CanStep(s, a)
    requires PendingAt(Step(s, a), u, j) && PendingAt(Step(s, a), v, i)
    requires CellOf(Step(s, a).pend[u][j]) == CellOf(Step(s, a).pend[v][i])
    ensures u == v && j == i
  {
    hide NewAndRight, Step;
    PendingWasPending(s, a, u, j);
    PendingWasPending(s, a, v, i);
  }

  lemma CellStaysOnTrack<V>(job: Job<V>, s: Sys<V>, a: nat, t: nat, c: nat, x: nat)
    requires job.Valid() && OnTrack(job, s) && CanStep(s, a) && IsCell(Step(s, a).tabs, t, c, x)
    ensures CellOnTrack(job, Step(s, a), t, c, x)
  {
    var s' := Step(s, a);
    assert PendingAt(s, a, 0);
    assert IsCell(s.tabs, t, c, x) && CellOnTrack(job, s, t, c, x);
    if x >= RowCount(job.start, t) && (t, c, x) !in s'.done {
      var u: nat, j: nat :| PendingAt(s, u, j) && CellOf(s.pend[u][j]) == (t, c, x);
      var i := if u == a then j - 1 else j;
      assert PendingAt(s', u, i) && s'.pend[u][i] == s.pend[u][j];
    }
  }

  lemma StepOnTrack<V>(job: Job<V>, s: Sys<V>, a: nat)
    requires job.Valid() && OnTrack(job, s) && CanStep(s, a)
    ensures OnTrack(job, Step(s, a))
  {
    hide NewAndRight, CellOnTrack;
    var s' := Step(s, a);
    assert PendingAt(s, a, 0);
    forall u: nat, j: nat | PendingAt(s', u, j)
      ensures NewAndRight(job, s'.pend[u][j]) && CellOf(s'.pend[u][j]) !in s'.done
    {
      PendingStaysRight(job, s, a, u, j);
    }
    forall u: nat, j: nat, v: nat, i: nat |
      PendingAt(s', u, j) && PendingAt(s', v, i) && CellOf(s'.pend[u][j]) == CellOf(s'.pend[v][i])
      ensures u == v && j == i
    {
      PendingStaysApart(job, s, a, u, j, v, i);
    }
    forall t: nat, c: nat, x: nat | IsCell(s'.tabs, t, c, x) ensures CellOnTrack(job, s', t, c, x) {
      CellStaysOnTrack(job, s, a, t, c, x);
    }
  }

  /** Where the j-th pending write of worker u was before worker a stepped. */
  function Earlier(a: nat, u: nat, j: nat): nat { if u == a then j + 1 else j }

  lemma {:induction false} RunOnTrack<V>(job: Job<V>, s: Sys<V>, sched: seq<nat>)
    requires job.Valid() && OnTrack(job, s) && Legal(s, sched)
    ensures OnTrack(job, Run(s, sched))
    decreases |sched|
  {
    if sched != [] {
      StepOnTrack(job, s, sched[0]);
      RunOnTrack(job, Step(s, sched[0]), sched[1..]);
    }
  }

  /** At every state any schedule can reach: no row that existed before the call has changed, the next write of
      every worker is inside the tables and to a cell nobody has written, and every cell written so far already
      holds its serial value. */
  lemma EveryReachableStateIsOnTrack<V>(job: Job<V>, sched: seq<nat>)
    requires job.Valid() && job.Fits32() && Legal(Init(job), sched)
    ensures var s := Run(Init(job), sched);
      && SameShape(s.tabs, job.Goal())
      && (forall t: nat, c: nat, x: nat :: IsCell(job.start, t, c, x) ==>
            IsCell(s.tabs, t, c, x) && s.tabs[t][c][x] == job.start[t][c][x])
      && (forall u: nat :: CanStep(s, u) ==> InBounds(s.tabs, s.pend[u][0]) && CellOf(s.pend[u][0]) !in s.done)
      && (forall t: nat, c: nat, x: nat :: IsCell(s.tabs, t, c, x) && (t, c, x) in s.done ==>
            s.tabs[t][c][x] == job.Goal()[t][c][x])
  {
    InitOnTrack(job);
    RunOnTrack(job, Init(job), sched);
    var s := Run(Init(job), sched);
    InitShape(job);
    forall t: nat, c: nat, x: nat | IsCell(job.start, t, c, x)
      ensures IsCell(s.tabs, t, c, x) && s.tabs[t][c][x] == job.start[t][c][x]
    {
      assert CellOnTrack(job, s, t, c, x);
    }
    forall u: nat | CanStep(s, u) ensures InBounds(s.tabs, s.pend[u][0]) && CellOf(s.pend[u][0]) !in s.done {
      assert PendingAt(s, u, 0);
    }
    forall t: nat, c: nat, x: nat | IsCell(s.tabs, t, c, x) && (t, c, x) in s.done
      ensures s.tabs[t][c][x] == job.Goal()[t][c][x]
    {
      assert CellOnTrack(job, s, t, c, x);
    }
  }

  // ---- the end ----------------------------------------------------------------------------------------

  lemma FinishedIsSerial<V>(job: Job<V>, s: Sys<V>)
    requires job.Valid() && OnTrack(job, s) && Finished(s)
    ensures s.tabs == job.Goal()
  {
    var goal := job.Goal();
    forall t | 0 <= t < |goal| ensures s.tabs[t] == goal[t] {
      forall c | 0 <= c < |goal[t]| ensures s.tabs[t][c] == goal[t][c] {
        forall x | 0 <= x < |goal[t][c]| ensures s.tabs[t][c][x] == goal[t][c][x] {
          assert CellOnTrack(job, s, t, c, x);
        }
      }
    }
  }

  lemma StepKeepsShape<V>(s: Sys<V>, u: nat)
    requires CanStep(s, u)
    ensures SameShape(Step(s, u).tabs, s.tabs)
  {
  }

  lemma {:induction false} RunKeepsShape<V>(s: Sys<V>, sched: seq<nat>)
    requires Legal(s, sched)
    ensures SameShape(Run(s, sched).tabs, s.tabs)
    decreases |sched|
  {
    if sched != [] {
      StepKeepsShape(s, sched[0]);
      RunKeepsShape(Step(s, sched[0]), sched[1..]);
    }
  }

  /** When a 32-bit total wraps, resize makes that table too short for the serial result. */
  lemma WrappedTotalsLoseRows<V>(job: Job<V>)
    requires job.Valid() && !job.Fits32()
    ensures !SameShape(Init(job).tabs, job.Goal())
  {
    var t :| 0 <= t < |job.start| && RowCount(job.start, t) + Count(Flat(job.pkts), t) >= TWO_TO_THE_32;
    RunningIsModular(job.start, job.pkts, t);
    assert |Init(job).tabs[t][0]| < TWO_TO_THE_32 <= |job.Goal()[t][0]|;
  }

  /** Bulk equals serial: whatever the partition of the packets over workers and whatever the interleaving of
      their writes, a complete run leaves exactly the tables of appending every packet's records in order,
      if and only if no table's total reaches 2^32 rows. */
  lemma BulkEqualsSerial<V>(job: Job<V>, sched: seq<nat>)
    requires job.Valid() && Legal(Init(job), sched) && Finished(Run(Init(job), sched))
    ensures Run(Init(job), sched).tabs == job.Goal() <==> job.Fits32()
  {
    if job.Fits32() {
      InitOnTrack(job);
      RunOnTrack(job, Init(job), sched);
      FinishedIsSerial(job, Run(Init(job), sched));
    } else {
      RunKeepsShape(Init(job), sched);
      WrappedTotalsLoseRows(job);
    }
  }

  function Remaining<V>(pend: seq<seq<Write<V>>>): nat {
    if pend == [] then 0 else Remaining(pend[..|pend| - 1]) + |pend[|pend| - 1]|
  }

  lemma {:induction false} RemainingDrops<V>(pend: seq<seq<Write<V>>>, u: nat)
    requires u < |pend| && pend[u] != []
    ensures Remaining(pend[u := pend[u][1..]]) == Remaining(pend) - 1
  {
    var next := pend[u := pend[u][1..]];
    if u < |pend| - 1 {
      RemainingDrops(pend[..|pend| - 1], u);
      assert next[..|pend| - 1] == pend[..|pend| - 1][u := pend[u][1..]];
    } else {
      assert next[..|pend| - 1] == pend[..|pend| - 1];
    }
  }

  lemma {:induction false} NothingRemains<V>(pend: seq<seq<Write<V>>>)
    ensures Remaining(pend) == 0 <==> forall u :: 0 <= u < |pend| ==> pend[u] == []
  {
    if pend != [] {
      NothingRemains(pend[..|pend| - 1]);
      assert forall u :: 0 <= u < |pend| - 1 ==> pend[u] == pend[..|pend| - 1][u];
    }
  }

  /** Every schedule makes progress: a legal schedule is complete exactly when it is as long as the number of
      cells to write. */
  lemma {:induction false} SchedulesFinish<V>(s: Sys<V>, sched: seq<nat>)
    requires Legal(s, sched)
    ensures |sched| + Remaining(Run(s, sched).pend) == Remaining(s.pend)
    ensures Finished(Run(s, sched)) <==> |sched| == Remaining(s.pend)
    decreases |sched|
  {
    if sched != [] {
      RemainingDrops(s.pend, sched[0]);
      SchedulesFinish(Step(s, sched[0]), sched[1..]);
    }
    NothingRemains(Run(s, sched).pend);
  }

  /** Decoding one window and then the next gives the tables of decoding both windows at once. */
  lemma WindowsCompose<V>(first: Job<V>, second: Job<V>, both: Job<V>)
    requires first.Valid() && second.Valid() && both.Valid()
    requires second.start == first.Goal() && both.start == first.start
    requires first.widths == second.widths == both.widths
    requires both.pkts == first.pkts + second.pkts
    ensures second.Goal() == both.Goal()
  {
    FlatConcat(first.pkts, second.pkts);
    FlatFits(first.pkts, first.widths);
    FlatFits(second.pkts, first.widths);
    AppendedTwice(first.start, Flat(first.pkts), Flat(second.pkts), first.widths);
  }

  /** Whatever a run leaves, each table has fewer than 2^32 rows: its 32-bit total. */
  lemma RunsStayBelow32<V>(job: Job<V>, sched: seq<nat>, t: nat)
    requires job.Valid() && Legal(Init(job), sched) && t < |job.start|
    ensures var tabs := Run(Init(job), sched).tabs; |tabs| == |job.start| && RowCount(tabs, t) < TWO_TO_THE_32
  {
    hide Legal, Run, Running, Count, Flat;
    RunKeepsShape(Init(job), sched);
    RunningIsModular(job.start, job.pkts, t);
  }

  /** Two windows, each decoded in bulk under any complete schedule, the second into what the first left: the tables
      are those of both windows decoded serially if and only if no table's joint total reaches 2^32 rows. */
  lemma WindowsRunExactly<V>(first: Job<V>, s: seq<nat>, second: Job<V>, s': seq<nat>)
    requires first.Valid() && Legal(Init(first), s) && Finished(Run(Init(first), s))
    requires second.Valid() && Legal(Init(second), s') && Finished(Run(Init(second), s'))
    requires second.start == Run(Init(first), s).tabs && second.widths == first.widths
    ensures FitTables(Flat(first.pkts + second.pkts), first.widths)
    ensures Run(Init(second), s').tabs == Appended(first.start, Flat(first.pkts + second.pkts), first.widths) <==>
            TotalsFit(first.start, Flat(first.pkts + second.pkts))
  {
    hide Legal, Run, Init, Count, Flat, Finished, Appended, RunsEachOnce;
    var a, b, all := Flat(first.pkts), Flat(second.pkts), Flat(first.pkts + second.pkts);
    FlatConcat(first.pkts, second.pkts);
    FlatFits(first.pkts, first.widths);
    FlatFits(second.pkts, first.widths);
    forall t: nat ensures Count(all, t) == Count(a, t) + Count(b, t) {
      CountConcat(a, b, t);
    }
    if TotalsFit(first.start, all) {
      BulkEqualsSerial(first, s);
      BulkEqualsSerial(second, s');
      AppendedTwice(first.start, a, b, first.widths);
    } else {
      var t :| 0 <= t < |first.start| && RowCount(first.start, t) + Count(all, t) >= TWO_TO_THE_32;
      RunsStayBelow32(second, s', t);
    }
  }

  /** From any state there is a schedule that completes. */
  lemma {:induction false} SomeScheduleFinishes<V>(s: Sys<V>) returns (sched: seq<nat>)
    ensures Legal(s, sched) && Finished(Run(s, sched))
    decreases Remaining(s.pend)
  {
    if Finished(s) {
      sched := [];
    } else {
      var u :| 0 <= u < |s.pend| && s.pend[u] != [];
      RemainingDrops(s.pend, u);
      var rest := SomeScheduleFinishes(Step(s, u));
      sched := [u] + rest;
      assert sched[1..] == rest;
    }
  }

  // ---- slots ------------------------------------------------------------------------------------------

  ghost predicate IsEmit<V>(job: Job<V>, k: nat, i: nat) { k < |job.pkts| && i < |job.pkts[k]| }

  /** The row of record i of packet k: the packet's base plus its records for that table so far. */
  ghost function Slot<V>(job: Job<V>, k: nat, i: nat): nat
    requires job.Valid() && IsEmit(job, k, i)
  {
    var t := job.pkts[k][i].tab;
    assert FitsTable(job.pkts[k][i], job.widths);
    RowCount(job.start, t) + Count(Flat(job.pkts[..k]), t) + Count(job.pkts[k][..i], t)
  }

  lemma SlotBounds<V>(job: Job<V>, k: nat, i: nat)
    requires job.Valid() && IsEmit(job, k, i)
    ensures var t := job.pkts[k][i].tab;
      && t < |job.start|
      && RowCount(job.start, t) + Count(Flat(job.pkts[..k]), t) <= Slot(job, k, i)
      && Slot(job, k, i) < RowCount(job.start, t) + Count(Flat(job.pkts[..k + 1]), t)
      && Count(Flat(job.pkts[..k + 1]), t) <= Count(Flat(job.pkts), t)
  {
    var t := job.pkts[k][i].tab;
    assert FitsTable(job.pkts[k][i], job.widths);
    FlatAt(job.pkts, k);
    CountConcat(Flat(job.pkts[..k]), job.pkts[k], t);
    FlatSplit(job.pkts, k + 1);
    CountConcat(Flat(job.pkts[..k + 1]), Flat(job.pkts[k + 1..]), t);
    var es := job.pkts[k];
    assert es[..i + 1] == es[..i] + [es[i]];
    CountConcat(es[..i], [es[i]], t);
    CountOne(es[i], t);
    CountMonotone(es, i + 1, |es|, t);
    assert es[..|es|] == es;
  }

  lemma SlotsDiffer<V>(job: Job<V>, k: nat, i: nat, m: nat, j: nat)
    requires job.Valid() && IsEmit(job, k, i) && IsEmit(job, m, j) && (k < m || (k == m && i < j))
    requires job.pkts[k][i].tab == job.pkts[m][j].tab
    ensures Slot(job, k, i) < Slot(job, m, j)
  {
    hide Count, Flat, RowCount;
    var t := job.pkts[k][i].tab;
    SlotBounds(job, k, i);
    SlotBounds(job, m, j);
    if k < m {
      FlatSplit(job.pkts[..m], k + 1);
      assert job.pkts[..m][..k + 1] == job.pkts[..k + 1];
      CountConcat(Flat(job.pkts[..k + 1]), Flat(job.pkts[..m][k + 1..]), t);
    } else {
      var es := job.pkts[k];
      assert es[..i + 1] == es[..i] + [es[i]];
      CountConcat(es[..i], [es[i]], t);
      CountOne(es[i], t);
      CountMonotone(es, i + 1, j, t);
    }
  }

  lemma {:induction false} RecordNumbered<V>(es: seq<Emit<V>>, t: nat, r: nat) returns (i: nat)
    requires r < Count(es, t)
    ensures i < |es| && es[i].tab == t && Count(es[..i], t) == r
  {
    var front := es[..|es| - 1];
    if r < Count(front, t) {
      i := RecordNumbered(front, t, r);
      assert front[..i] == es[..i];
    } else {
      i := |es| - 1;
    }
  }

  /** (packet, emit order) to row is a bijection onto the new rows of every table. */
  lemma SlotsAreABijection<V>(job: Job<V>)
    requires job.Valid()
    ensures forall k: nat, i: nat :: IsEmit(job, k, i) ==>
      var t := job.pkts[k][i].tab;
      t < |job.start| &&
      RowCount(job.start, t) <= Slot(job, k, i) < RowCount(job.start, t) + Count(Flat(job.pkts), t)
    ensures forall k: nat, i: nat, m: nat, j: nat :: IsEmit(job, k, i) && IsEmit(job, m, j) ==>
      job.pkts[k][i].tab == job.pkts[m][j].tab && Slot(job, k, i) == Slot(job, m, j) ==> k == m && i == j
    ensures forall t: nat, x: nat :: NewRow(job, t, x) ==> Taken(job, t, x)
  {
    forall k: nat, i: nat | IsEmit(job, k, i)
      ensures var t := job.pkts[k][i].tab;
        t < |job.start| &&
        RowCount(job.start, t) <= Slot(job, k, i) < RowCount(job.start, t) + Count(Flat(job.pkts), t)
    {
      SlotBounds(job, k, i);
    }
    forall k: nat, i: nat, m: nat, j: nat |
      IsEmit(job, k, i) && IsEmit(job, m, j) && job.pkts[k][i].tab == job.pkts[m][j].tab &&
      Slot(job, k, i) == Slot(job, m, j)
      ensures k == m && i == j
    {
      if k < m || (k == m && i < j) {
        SlotsDiffer(job, k, i, m, j);
      } else if m < k || (k == m && j < i) {
        SlotsDiffer(job, m, j, k, i);
      }
    }
    forall t: nat, x: nat | NewRow(job, t, x) ensures Taken(job, t, x) {
      assert job.pkts[..|job.pkts|] == job.pkts;
      var k := RowHasAPacket(job, t, x, |job.pkts|);
      var i := RecordNumbered(job.pkts[k], t, x - RowCount(job.start, t) - Count(Flat(job.pkts[..k]), t));
      assert IsEmit(job, k, i) && job.pkts[k][i].tab == t && Slot(job, k, i) == x;
    }
  }

  ghost predicate NewRow<V>(job: Job<V>, t: nat, x: nat) {
    t < |job.start| && RowCount(job.start, t) <= x < RowCount(job.start, t) + Count(Flat(job.pkts), t)
  }

  ghost predicate Taken<V>(job: Job<V>, t: nat, x: nat)
    requires job.Valid()
  {
    exists k: nat, i: nat :: IsEmit(job, k, i) && job.pkts[k][i].tab == t && Slot(job, k, i) == x
  }

  // ---- the rows the kernels write ---------------------------------------------------------------------

  /** The row packet k's kernel gives its record i: where its cursor for the record's table stands. */
  ghost function KernelRow<V>(job: Job<V>, k: nat, i: nat): nat
    requires job.Valid() && IsEmit(job, k, i)
  {
    assert FitsTable(job.pkts[k][i], job.widths);
    assert forall j :: 0 <= j < i ==> FitsTable(job.pkts[k][j], job.widths);
    CursorsAfter(job.pkts[k][..i], Base(job.start, job.pkts, k))[job.pkts[k][i].tab]
  }

  /** The rows of the first n records of packet k, each written whole. */
  ghost function RowsWritten<V>(job: Job<V>, k: nat, n: nat): seq<Write<V>>
    requires job.Valid() && k < |job.pkts| && n <= |job.pkts[k]|
  {
    if n == 0 then []
    else
      assert IsEmit(job, k, n - 1);
      RowsWritten(job, k, n - 1) + RowWrites(job.pkts[k][n - 1], KernelRow(job, k, n - 1))
  }

  lemma {:induction false} KernelWritesRows<V>(job: Job<V>, k: nat, n: nat)
    requires job.Valid() && k < |job.pkts| && n <= |job.pkts[k]|
    ensures Reach(job.pkts[k], |job.start|)
    ensures PacketWrites(job.pkts[k][..n], Base(job.start, job.pkts, k)) == RowsWritten(job, k, n)
  {
    var es := job.pkts[k];
    assert forall j :: 0 <= j < |es| ==> FitsTable(es[j], job.widths);
    if n == 0 {
      assert es[..0] == [];
    } else {
      KernelWritesRows(job, k, n - 1);
      assert IsEmit(job, k, n - 1) && es[..n] == es[..n - 1] + [es[n - 1]];
      WritesNext(es[..n - 1], es[n - 1], Base(job.start, job.pkts, k));
    }
  }

  lemma {:induction false} CursorsCount<V>(es: seq<Emit<V>>, cur: Counts, t: nat)
    requires Reach(es, |cur|) && t < |cur| && cur[t] < TWO_TO_THE_32
    ensures CursorsAfter(es, cur)[t] == (cur[t] + Count(es, t)) % TWO_TO_THE_32
  {
    if es == [] {
      NoWrites<V>(cur);
    } else {
      var front, last := es[..|es| - 1], es[|es| - 1];
      assert es == front + [last];
      CursorsCount(front, cur, t);
      WritesNext(front, last, cur);
      AddMod(cur[t] + Count(front, t), 1);
    }
  }

  /** A kernel's row is the packet's serial slot, in 32 bits. */
  lemma KernelRowIsSlot<V>(job: Job<V>, k: nat, i: nat)
    requires job.Valid() && IsEmit(job, k, i)
    ensures KernelRow(job, k, i) == Slot(job, k, i) % TWO_TO_THE_32
  {
    hide CursorsAfter, Count, Running, Flat, RowCount;
    var t, base := job.pkts[k][i].tab, Base(job.start, job.pkts, k);
    assert forall j :: 0 <= j <= i ==> FitsTable(job.pkts[k][j], job.widths);
    RunningIsModular(job.start, job.pkts[..k], t);
    var a, b := RowCount(job.start, t) + Count(Flat(job.pkts[..k]), t), Count(job.pkts[k][..i], t);
    CursorsCount(job.pkts[k][..i], base, t);
    ReducedSum(a, b);
  }

  lemma ReducedSum(a: nat, b: nat)
    ensures (a % TWO_TO_THE_32 + b) % TWO_TO_THE_32 == (a + b) % TWO_TO_THE_32
  {
  }

  /** All of a packet's writes: its records in order, each into the row its kernel gives it. */
  lemma WritesAreRows<V>(job: Job<V>, k: nat)
    requires job.Valid() && k < |job.pkts|
    ensures Reach(job.pkts[k], |job.start|) && WritesOf(job, k) == RowsWritten(job, k, |job.pkts[k]|)
  {
    hide PacketWrites, RowsWritten;
    KernelWritesRows(job, k, |job.pkts[k]|);
    assert job.pkts[k][..|job.pkts[k]|] == job.pkts[k];
  }

  /** No table that gains records has more than 2^32 rows in the end. */
  ghost predicate RowsFit32<V>(job: Job<V>) {
    forall t :: 0 <= t < |job.start| && Count(Flat(job.pkts), t) > 0 ==>
      RowCount(job.start, t) + Count(Flat(job.pkts), t) <= TWO_TO_THE_32
  }

  /** Every record is written to a new row of its table, no two records of a table to the same, and every new row
      is some record's. */
  ghost predicate KernelRowsBiject<V>(job: Job<V>)
    requires job.Valid()
  {
    && (forall k: nat, i: nat :: IsEmit(job, k, i) ==> NewRow(job, job.pkts[k][i].tab, KernelRow(job, k, i)))
    && (forall k: nat, i: nat, m: nat, j: nat :: IsEmit(job, k, i) && IsEmit(job, m, j) ==>
          job.pkts[k][i].tab == job.pkts[m][j].tab && KernelRow(job, k, i) == KernelRow(job, m, j) ==> k == m && i == j)
    && (forall t: nat, x: nat :: NewRow(job, t, x) ==> WrittenByKernel(job, t, x))
  }

  ghost predicate WrittenByKernel<V>(job: Job<V>, t: nat, x: nat)
    requires job.Valid()
  {
    exists k: nat, i: nat :: IsEmit(job, k, i) && job.pkts[k][i].tab == t && KernelRow(job, k, i) == x
  }

  lemma RowFits<V>(job: Job<V>, k: nat, i: nat)
    requires job.Valid() && IsEmit(job, k, i) && RowsFit32(job)
    ensures KernelRow(job, k, i) == Slot(job, k, i)
  {
    hide KernelRow, Slot;
    KernelRowIsSlot(job, k, i);
    SlotBounds(job, k, i);
  }

  /** The scatter's (packet, emit order) to row is a bijection onto the new rows of every table exactly when no
      table that gains records ends with more than 2^32 rows. */
  lemma KernelRowsAreABijectionExactly<V>(job: Job<V>)
    requires job.Valid()
    ensures KernelRowsBiject(job) <==> RowsFit32(job)
  {
    hide KernelRow, Slot, Count, Flat;
    if RowsFit32(job) {
      FittingRowsBiject(job);
    } else {
      var t :| 0 <= t < |job.start| && Count(Flat(job.pkts), t) > 0 &&
               RowCount(job.start, t) + Count(Flat(job.pkts), t) > TWO_TO_THE_32;
      var x := RowCount(job.start, t) + Count(Flat(job.pkts), t) - 1;
      assert NewRow(job, t, x);
      if WrittenByKernel(job, t, x) {
        var k: nat, i: nat :| IsEmit(job, k, i) && job.pkts[k][i].tab == t && KernelRow(job, k, i) == x;
        KernelRowIsSlot(job, k, i);
        assert false;
      }
    }
  }

  lemma FittingRowsBiject<V>(job: Job<V>)
    requires job.Valid() && RowsFit32(job)
    ensures KernelRowsBiject(job)
  {
    hide KernelRow, Slot, Count, Flat, RowsFit32;
    SlotsAreABijection(job);
    forall k: nat, i: nat | IsEmit(job, k, i) ensures KernelRow(job, k, i) == Slot(job, k, i) {
      RowFits(job, k, i);
    }
    forall t: nat, x: nat | NewRow(job, t, x) ensures WrittenByKernel(job, t, x) {
      assert Taken(job, t, x);
      var k: nat, i: nat :| IsEmit(job, k, i) && job.pkts[k][i].tab == t && Slot(job, k, i) == x;
      assert KernelRow(job, k, i) == x;
    }
  }
}
