/** The scatter pass: every packet's cell writes, and what any interleaving of them leaves in the tables. */
module Scatter {
  import opened Tables
  import opened Bulk

  type Cell = (nat, nat, nat)

  function CellOf<V>(w: Write<V>): Cell { (w.tab, w.col, w.slot) }

  /** Write one record's values into its row. */
  function RowWrites<V>(e: Emit<V>, slot: nat): (r: seq<Write<V>>)
    ensures |r| == |e.row|
    ensures forall c :: 0 <= c < |r| ==> r[c] == Write(e.tab, c, slot, e.row[c])
  {
    seq(|e.row|, c requires 0 <= c < |e.row| => Write(e.tab, c, slot, e.row[c]))
  }

  function Bump(cur: Counts, t: nat): (r: Counts)
    requires t < |cur|
    ensures |r| == |cur|
  {
    cur[t := Add32(cur[t], 1)]
  }

  /** The writes of one packet: each record goes to the cursor of its table, which then moves on. */
  function PacketWrites<V>(es: seq<Emit<V>>, cur: Counts): seq<Write<V>>
    requires forall i :: 0 <= i < |es| ==> es[i].tab < |cur|
  {
    if es == [] then []
    else RowWrites(es[0], cur[es[0].tab]) + PacketWrites(es[1..], Bump(cur, es[0].tab))
  }

  /** Where the cursors are after the records. */
  function CursorsAfter<V>(es: seq<Emit<V>>, cur: Counts): (r: Counts)
    requires forall i :: 0 <= i < |es| ==> es[i].tab < |cur|
    ensures |r| == |cur|
  {
    if es == [] then cur else CursorsAfter(es[1..], Bump(cur, es[0].tab))
  }

  /** Writing two batches is writing the second from where the first left the cursors. */
  lemma {:induction false} WritesConcat<V>(a: seq<Emit<V>>, b: seq<Emit<V>>, cur: Counts)
    requires forall i :: 0 <= i < |a| ==> a[i].tab < |cur|
    requires forall i :: 0 <= i < |b| ==> b[i].tab < |cur|
    ensures PacketWrites(a + b, cur) == PacketWrites(a, cur) + PacketWrites(b, CursorsAfter(a, cur))
    ensures CursorsAfter(a + b, cur) == CursorsAfter(b, CursorsAfter(a, cur))
    decreases |a|
  {
    if a == [] {
      assert a + b == b;
    } else {
      var next := Bump(cur, a[0].tab);
      WritesConcat(a[1..], b, next);
      assert (a + b)[0] == a[0] && (a + b)[1..] == a[1..] + b;
      var row, x := RowWrites(a[0], cur[a[0].tab]), PacketWrites(a[1..], next);
      var y := PacketWrites(b, CursorsAfter(a, cur));
      assert row + (x + y) == row + x + y;
    }
  }

  lemma NoWrites<V>(cur: Counts)
    ensures PacketWrites<V>([], cur) == [] && CursorsAfter<V>([], cur) == cur
  {
  }

  lemma WritesOne<V>(e: Emit<V>, cur: Counts)
    requires e.tab < |cur|
    ensures PacketWrites([e], cur) == RowWrites(e, cur[e.tab]) && CursorsAfter([e], cur) == Bump(cur, e.tab)
  {
    assert PacketWrites([e][1..], Bump(cur, e.tab)) == [];
  }

  /** One more record: its row goes to its table's cursor, which moves on. */
  lemma WritesNext<V>(es: seq<Emit<V>>, e: Emit<V>, cur: Counts)
    requires e.tab < |cur| && forall i :: 0 <= i < |es| ==> es[i].tab < |cur|
    ensures forall i :: 0 <= i < |es + [e]| ==> (es + [e])[i].tab < |cur|
    ensures PacketWrites(es + [e], cur) == PacketWrites(es, cur) + RowWrites(e, CursorsAfter(es, cur)[e.tab])
    ensures CursorsAfter(es + [e], cur) == Bump(CursorsAfter(es, cur), e.tab)
  {
    hide PacketWrites, CursorsAfter, RowWrites;
    WritesConcat(es, [e], cur);
    WritesOne(e, CursorsAfter(es, cur));
  }

  ghost predicate Reach<V>(es: seq<Emit<V>>, n: nat) { forall i :: 0 <= i < |es| ==> es[i].tab < n }

  /** A kernel has done the first i records: what it wrote, and where its cursors are. */
  ghost predicate KernelAt<V>(es: seq<Emit<V>>, i: nat, base: Counts, ws: seq<Write<V>>, cur: Counts) {
    i <= |es| && Reach(es, |base|) && ws == PacketWrites(es[..i], base) && cur == CursorsAfter(es[..i], base)
  }

  lemma KernelStarts<V>(es: seq<Emit<V>>, base: Counts)
    requires Reach(es, |base|)
    ensures KernelAt(es, 0, base, [], base)
  {
    assert es[..0] == [];
  }

  lemma KernelSteps<V>(es: seq<Emit<V>>, i: nat, base: Counts, ws: seq<Write<V>>, cur: Counts, row: seq<Write<V>>)
    requires KernelAt(es, i, base, ws, cur) && i < |es|
    requires es[i].tab < |cur| && row == RowWrites(es[i], cur[es[i].tab])
    ensures KernelAt(es, i + 1, base, ws + row, Bump(cur, es[i].tab))
  {
    hide PacketWrites, CursorsAfter, RowWrites;
    assert es[..i + 1] == es[..i] + [es[i]];
    WritesNext(es[..i], es[i], base);
  }

  lemma KernelEnds<V>(es: seq<Emit<V>>, base: Counts, ws: seq<Write<V>>, cur: Counts)
    requires KernelAt(es, |es|, base, ws, cur)
    ensures Reach(es, |base|) && ws == PacketWrites(es, base) && cur == CursorsAfter(es, base)
  {
    assert es[..|es|] == es;
  }

  /** A packet's place in the stream: the records before it, its own, and those after it; its cursors start at
      the rows the records before it leave free. */
  ghost predicate Placed<V>(start: seq<seq<seq<V>>>, widths: seq<nat>, before: seq<Emit<V>>, es: seq<Emit<V>>,
                            after: seq<Emit<V>>, cur: Counts) {
    && Shaped(start, widths)
    && FitTables(before, widths) && FitTables(es, widths) && FitTables(after, widths)
    && TotalsFit(start, before + es + after)
    && |cur| == |start|
    && forall t :: 0 <= t < |start| ==> cur[t] == RowCount(start, t) + Count(before, t)
  }

  ghost function Serial<V>(start: seq<seq<seq<V>>>, widths: seq<nat>, before: seq<Emit<V>>, es: seq<Emit<V>>,
                           after: seq<Emit<V>>): seq<seq<seq<V>>>
    requires Shaped(start, widths)
    requires FitTables(before, widths) && FitTables(es, widths) && FitTables(after, widths)
  {
    Appended(start, before + es + after, widths)
  }

  /** A write is right: it lands in a row that belongs to the records es, and writes the serial value there. */
  ghost predicate RightWrite<V>(start: seq<seq<seq<V>>>, goal: seq<seq<seq<V>>>, before: seq<Emit<V>>,
                                es: seq<Emit<V>>, w: Write<V>) {
    && InBounds(goal, w) && goal[w.tab][w.col][w.slot] == w.val
    && w.tab < |start|
    && RowCount(start, w.tab) + Count(before, w.tab) <= w.slot
    && w.slot < RowCount(start, w.tab) + Count(before, w.tab) + Count(es, w.tab)
  }

  ghost predicate AllRight<V>(start: seq<seq<seq<V>>>, goal: seq<seq<seq<V>>>, before: seq<Emit<V>>,
                              es: seq<Emit<V>>, ws: seq<Write<V>>) {
    forall j :: 0 <= j < |ws| ==> RightWrite(start, goal, before, es, ws[j])
  }

  lemma FirstRecord<V>(start: seq<seq<seq<V>>>, widths: seq<nat>, before: seq<Emit<V>>, es: seq<Emit<V>>,
                       after: seq<Emit<V>>, cur: Counts)
    requires es != [] && Placed(start, widths, before, es, after, cur)
    ensures Placed(start, widths, before + [es[0]], es[1..], after, Bump(cur, es[0].tab))
    ensures Serial(start, widths, before + [es[0]], es[1..], after) == Serial(start, widths, before, es, after)
    ensures forall t :: Count(before + [es[0]], t) == Count(before, t) + if es[0].tab == t then 1 else 0
    ensures forall t :: Count(es, t) == Count(es[1..], t) + if es[0].tab == t then 1 else 0
    ensures forall t :: Count(before + es + after, t) == Count(before, t) + Count(es, t) + Count(after, t)
  {
    var e := es[0];
    assert before + [e] + es[1..] + after == before + es + after;
    assert es == [e] + es[1..];
    forall t: nat
      ensures Count(before + [e], t) == Count(before, t) + if e.tab == t then 1 else 0
      ensures Count(es, t) == Count(es[1..], t) + if e.tab == t then 1 else 0
      ensures Count(before + es + after, t) == Count(before, t) + Count(es, t) + Count(after, t)
    {
      CountConcat(before, [e], t);
      CountConcat([e], es[1..], t);
      CountOne(e, t);
      CountConcat(before + es, after, t);
      CountConcat(before, es, t);
    }
  }

  lemma RowWritesRight<V>(start: seq<seq<seq<V>>>, widths: seq<nat>, before: seq<Emit<V>>, es: seq<Emit<V>>,
                          after: seq<Emit<V>>, cur: Counts)
    requires es != [] && Placed(start, widths, before, es, after, cur)
    ensures AllRight(start, Serial(start, widths, before, es, after), before, es, RowWrites(es[0], cur[es[0].tab]))
  {
    var all, e := before + es + after, es[0];
    var g := |before|;
    assert all[g] == e && all[..g] == before;
    FirstRecord(start, widths, before, es, after, cur);
    forall j | 0 <= j < |e.row|
      ensures RightWrite(start, Appended(start, all, widths), before, es, RowWrites(e, cur[e.tab])[j])
    {
      ColumnAt(all, g, j);
    }
  }

  /** Every write of a placed packet is right. */
  lemma {:induction false} PacketWritesRight<V>(start: seq<seq<seq<V>>>, widths: seq<nat>, before: seq<Emit<V>>,
                                                es: seq<Emit<V>>, after: seq<Emit<V>>, cur: Counts)
    requires Placed(start, widths, before, es, after, cur)
    ensures AllRight(start, Serial(start, widths, before, es, after), before, es, PacketWrites(es, cur))
    decreases |es|
  {
    if es != [] {
      FirstRecord(start, widths, before, es, after, cur);
      RowWritesRight(start, widths, before, es, after, cur);
      PacketWritesRight(start, widths, before + [es[0]], es[1..], after, Bump(cur, es[0].tab));
    }
  }

  ghost predicate DistinctCells<V>(ws: seq<Write<V>>) {
    forall i, j :: 0 <= i < j < |ws| ==> CellOf(ws[i]) != CellOf(ws[j])
  }

  /** No packet writes a cell twice. */
  lemma {:induction false} PacketWritesDistinct<V>(start: seq<seq<seq<V>>>, widths: seq<nat>,
                                                   before: seq<Emit<V>>, es: seq<Emit<V>>,
                                                   after: seq<Emit<V>>, cur: Counts)
    requires Placed(start, widths, before, es, after, cur)
    ensures DistinctCells(PacketWrites(es, cur))
    decreases |es|
  {
    if es != [] {
      FirstRecord(start, widths, before, es, after, cur);
      var head := RowWrites(es[0], cur[es[0].tab]);
      var tail := PacketWrites(es[1..], Bump(cur, es[0].tab));
      PacketWritesDistinct(start, widths, before + [es[0]], es[1..], after, Bump(cur, es[0].tab));
      PacketWritesRight(start, widths, before + [es[0]], es[1..], after, Bump(cur, es[0].tab));
      forall i, j | 0 <= i < |head| && 0 <= j < |tail| ensures CellOf(head[i]) != CellOf(tail[j]) {
        assert RightWrite(start, Serial(start, widths, before + [es[0]], es[1..], after), before + [es[0]], es[1..],
                          tail[j]);
      }
    }
  }

  ghost predicate Hits<V>(ws: seq<Write<V>>, cell: Cell) {
    exists j :: 0 <= j < |ws| && CellOf(ws[j]) == cell
  }

  /** A packet writes every cell of its own rows. */
  lemma {:induction false} PacketWritesCover<V>(start: seq<seq<seq<V>>>, widths: seq<nat>, before: seq<Emit<V>>,
                                                es: seq<Emit<V>>, after: seq<Emit<V>>, cur: Counts,
                                                t: nat, c: nat, s: nat)
    requires Placed(start, widths, before, es, after, cur)
    requires t < |start| && c < widths[t]
    requires cur[t] <= s < cur[t] + Count(es, t)
    ensures Hits(PacketWrites(es, cur), (t, c, s))
    decreases |es|
  {
    if es != [] {
      var e := es[0];
      FirstRecord(start, widths, before, es, after, cur);
      var head := RowWrites(e, cur[e.tab]);
      var tail := PacketWrites(es[1..], Bump(cur, e.tab));
      if e.tab == t && s == cur[t] {
        assert CellOf((head + tail)[c]) == (t, c, s);
      } else {
        PacketWritesCover(start, widths, before + [e], es[1..], after, Bump(cur, e.tab), t, c, s);
        var j :| 0 <= j < |tail| && CellOf(tail[j]) == (t, c, s);
        assert (head + tail)[|head| + j] == tail[j];
      }
    }
  }

  // ---- the whole job ----------------------------------------------------------------------------------

  /** Old tables, the records of every packet in packet order, which worker runs which packets, and the value
      resize fills new cells with. */
  datatype Job<V> = Job(start: seq<seq<seq<V>>>, widths: seq<nat>, pkts: seq<seq<Emit<V>>>, work: seq<seq<nat>>,
                        fill: V)
  {
    ghost predicate Valid() {
      && Shaped(start, widths)
      && (forall k :: 0 <= k < |pkts| ==> FitTables(pkts[k], widths))
      && RunsEachOnce(work, |pkts|)
    }

    /** The serial result: every record of every packet appended in packet order. */
    ghost function Goal(): seq<seq<seq<V>>>
      requires Valid()
    {
      FlatFits(pkts, widths);
      Appended(start, Flat(pkts), widths)
    }

    ghost predicate Fits32() { TotalsFit(start, Flat(pkts)) }

    /** The records of packet k go to tables that exist. */
    ghost predicate Reaches(k: nat)
      requires k < |pkts|
    {
      Reach(pkts[k], |start|)
    }
  }

  function WritesOf<V>(job: Job<V>, k: nat): seq<Write<V>>
    requires k < |job.pkts|
    requires forall i :: 0 <= i < |job.pkts[k]| ==> job.pkts[k][i].tab < |job.start|
  {
    PacketWrites(job.pkts[k], Base(job.start, job.pkts, k))
  }

  ghost function WorkerWrites<V>(job: Job<V>, ks: seq<nat>): seq<Write<V>>
    requires job.Valid()
    requires forall i :: 0 <= i < |ks| ==> ks[i] < |job.pkts|
  {
    if ks == [] then []
    else
      assert FitTables(job.pkts[ks[|ks| - 1]], job.widths);
      WorkerWrites(job, ks[..|ks| - 1]) + WritesOf(job, ks[|ks| - 1])
  }

  /** The tables, the writes each worker has still to do, and the cells already written. */
  datatype Sys<V> = Sys(tabs: seq<seq<seq<V>>>, pend: seq<seq<Write<V>>>, done: set<Cell>)

  /** After the count pass, the scan and the resize. */
  ghost function Init<V>(job: Job<V>): Sys<V>
    requires job.Valid()
  {
    Sys(Resized(job.start, Running(job.start, job.pkts), job.fill),
        seq(|job.work|, t requires 0 <= t < |job.work| => WorkerWrites(job, job.work[t])),
        {})
  }

  ghost predicate CanStep<V>(s: Sys<V>, t: nat) { t < |s.pend| && s.pend[t] != [] }

  /** Worker t does its next write; a write outside the tables changes nothing here (the theorems show there
      is none). */
  ghost function Step<V>(s: Sys<V>, t: nat): Sys<V>
    requires CanStep(s, t)
  {
    var w := s.pend[t][0];
    Sys(if InBounds(s.tabs, w) then SetCell(s.tabs, w) else s.tabs, s.pend[t := s.pend[t][1..]],
        s.done + {CellOf(w)})
  }

  /** A schedule names the worker of each step. */
  ghost predicate Legal<V>(s: Sys<V>, sched: seq<nat>)
    decreases |sched|
  {
    sched == [] || (CanStep(s, sched[0]) && Legal(Step(s, sched[0]), sched[1..]))
  }

  ghost function Run<V>(s: Sys<V>, sched: seq<nat>): Sys<V>
    requires Legal(s, sched)
    decreases |sched|
  {
    if sched == [] then s else Run(Step(s, sched[0]), sched[1..])
  }

  ghost predicate Finished<V>(s: Sys<V>) { forall t :: 0 <= t < |s.pend| ==> s.pend[t] == [] }

  // ---- who writes what --------------------------------------------------------------------------------

  ghost predicate OwnedBy<V>(job: Job<V>, k: nat, w: Write<V>)
    requires job.Valid() && k < |job.pkts|
  {
    RightWrite(job.start, job.Goal(), Flat(job.pkts[..k]), job.pkts[k], w)
  }

  lemma BaseIsExact<V>(job: Job<V>, k: nat)
    requires job.Valid() && job.Fits32() && k <= |job.pkts|
    ensures forall t :: 0 <= t < |job.start| ==>
      Base(job.start, job.pkts, k)[t] == RowCount(job.start, t) + Count(Flat(job.pkts[..k]), t)
  {
    FlatSplit(job.pkts, k);
    forall t | 0 <= t < |job.start|
      ensures Base(job.start, job.pkts, k)[t] == RowCount(job.start, t) + Count(Flat(job.pkts[..k]), t)
    {
      RunningIsModular(job.start, job.pkts[..k], t);
      CountConcat(Flat(job.pkts[..k]), Flat(job.pkts[k..]), t);
    }
  }

  lemma PacketPlaced<V>(job: Job<V>, k: nat) returns (rest: seq<Emit<V>>)
    requires job.Valid() && job.Fits32() && k < |job.pkts|
    ensures Flat(job.pkts) == Flat(job.pkts[..k]) + job.pkts[k] + rest
    ensures Placed(job.start, job.widths, Flat(job.pkts[..k]), job.pkts[k], rest, Base(job.start, job.pkts, k))
    ensures Serial(job.start, job.widths, Flat(job.pkts[..k]), job.pkts[k], rest) == job.Goal()
  {
    FlatAt(job.pkts, k);
    FlatSplit(job.pkts, k + 1);
    rest := Flat(job.pkts[k + 1..]);
    FlatFits(job.pkts[..k], job.widths);
    FlatFits(job.pkts[k + 1..], job.widths);
    BaseIsExact(job, k);
  }

  lemma WritesAreOwned<V>(job: Job<V>, k: nat)
    requires job.Valid() && job.Fits32() && k < |job.pkts|
    ensures AllRight(job.start, job.Goal(), Flat(job.pkts[..k]), job.pkts[k], WritesOf(job, k))
    ensures DistinctCells(WritesOf(job, k))
  {
    var rest := PacketPlaced(job, k);
    PacketWritesRight(job.start, job.widths, Flat(job.pkts[..k]), job.pkts[k], rest, Base(job.start, job.pkts, k));
    PacketWritesDistinct(job.start, job.widths, Flat(job.pkts[..k]), job.pkts[k], rest,
                         Base(job.start, job.pkts, k));
  }

  lemma OwnersWriteApart<V>(job: Job<V>, k: nat, m: nat, w: Write<V>, x: Write<V>)
    requires job.Valid() && k < m < |job.pkts| && OwnedBy(job, k, w) && OwnedBy(job, m, x)
    ensures CellOf(w) != CellOf(x)
  {
    if w.tab == x.tab {
      var t := w.tab;
      FlatAt(job.pkts, k);
      CountConcat(Flat(job.pkts[..k]), job.pkts[k], t);
      FlatSplit(job.pkts[..m], k + 1);
      assert job.pkts[..m][..k + 1] == job.pkts[..k + 1];
      CountConcat(Flat(job.pkts[..k + 1]), Flat(job.pkts[..m][k + 1..]), t);
    }
  }

  ghost predicate OwnedByOneOf<V>(job: Job<V>, ks: seq<nat>, w: Write<V>)
    requires job.Valid()
    requires forall i :: 0 <= i < |ks| ==> ks[i] < |job.pkts|
  {
    exists i :: 0 <= i < |ks| && OwnedBy(job, ks[i], w)
  }

  lemma {:induction false} WorkerWritesOwned<V>(job: Job<V>, ks: seq<nat>)
    requires job.Valid() && job.Fits32()
    requires forall i :: 0 <= i < |ks| ==> ks[i] < |job.pkts|
    requires forall i, j :: 0 <= i < j < |ks| ==> ks[i] != ks[j]
    ensures forall j :: 0 <= j < |WorkerWrites(job, ks)| ==> OwnedByOneOf(job, ks, WorkerWrites(job, ks)[j])
    ensures DistinctCells(WorkerWrites(job, ks))
  {
    if ks != [] {
      var front, k := ks[..|ks| - 1], ks[|ks| - 1];
      WorkerWritesOwned(job, front);
      WritesAreOwned(job, k);
      var a, b := WorkerWrites(job, front), WritesOf(job, k);
      forall j | 0 <= j < |a| + |b| ensures OwnedByOneOf(job, ks, (a + b)[j]) {
        if j < |a| {
          assert OwnedByOneOf(job, front, a[j]);
          var i :| 0 <= i < |front| && OwnedBy(job, front[i], a[j]);
          assert OwnedBy(job, ks[i], a[j]);
        } else {
          assert OwnedBy(job, ks[|ks| - 1], b[j - |a|]);
        }
      }
      forall i, j | 0 <= i < |a| && 0 <= j < |b| ensures CellOf(a[i]) != CellOf(b[j]) {
        assert OwnedByOneOf(job, front, a[i]) && OwnedBy(job, k, b[j]);
        var q :| 0 <= q < |front| && OwnedBy(job, front[q], a[i]);
        if front[q] < k {
          OwnersWriteApart(job, front[q], k, a[i], b[j]);
        } else {
          OwnersWriteApart(job, k, front[q], b[j], a[i]);
        }
      }
      assert WorkerWrites(job, ks) == a + b;
    }
  }

  lemma {:induction false} WorkerWritesHit<V>(job: Job<V>, ks: seq<nat>, i: nat, cell: Cell)
    requires job.Valid() && i < |ks|
    requires forall i :: 0 <= i < |ks| ==> ks[i] < |job.pkts|
    requires FitTables(job.pkts[ks[i]], job.widths) && Hits(WritesOf(job, ks[i]), cell)
    ensures Hits(WorkerWrites(job, ks), cell)
  {
    var front, k := ks[..|ks| - 1], ks[|ks| - 1];
    var a, b := WorkerWrites(job, front), WritesOf(job, k);
    if i < |ks| - 1 {
      WorkerWritesHit(job, front, i, cell);
      var j :| 0 <= j < |a| && CellOf(a[j]) == cell;
      assert (a + b)[j] == a[j];
    } else {
      var j :| 0 <= j < |b| && CellOf(b[j]) == cell;
      assert (a + b)[|a| + j] == b[j];
    }
  }
}
