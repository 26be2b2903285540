/** Graph-driven columnar decode: one table per node, filled by appending or in bulk. */
module DagDecode {
  import opened Wire
  import opened WireSpec
  import opened Dag
  import opened DagGrammar
  import opened Tables
  import opened Bulk
  import opened Scatter
  import opened BulkIsSerial
  import opened BulkDecode

  /** The packet_id column and one column per spec field. */
  function NodeWidth(n: Node): (w: nat)
    ensures w > 0
  {
    1 + |Flatten(NodeSpec(n))|
  }

  function DagWidths(): (w: seq<nat>)
    ensures |w| == GRAPH_SIZE
    ensures forall t :: 0 <= t < |w| ==> w[t] > 0
    ensures forall n :: w[NodeId(n)] == NodeWidth(n)
  {
    seq(GRAPH_SIZE, t requires 0 <= t < GRAPH_SIZE => NodeWidth(GRAPH[t]))
  }

  /** The row of one visit: the packet id and every field of the node's spec, read at the visit's offset. */
  function NodeRow(pid: nat, p: seq<byte>, v: Visit): (row: seq<Value>)
    requires v.off + HeaderLen(v.node) <= |p|
    ensures |row| == NodeWidth(v.node)
    ensures row[0] == Num(pid)
    ensures forall i :: 0 <= i < |row| - 1 ==>
      row[i + 1] == ReadField(SpecField(v.node, i), p, v.off)
  {
    [Num(pid)] + seq(NodeWidth(v.node) - 1, i requires 0 <= i < NodeWidth(v.node) - 1 =>
                       ReadField(SpecField(v.node, i), p, v.off))
  }

  function SpecField(n: Node, i: nat): (f: Field)
    requires i < NodeWidth(n) - 1
    ensures f.Valid() && f.End() <= HeaderLen(n)
  {
    SpecSizes(n);
    Flatten(NodeSpec(n))[i]
  }

  function NodeRecord(pid: nat, p: seq<byte>, v: Visit): Emit<Value>
    requires v.off + HeaderLen(v.node) <= |p|
  {
    Emit(NodeId(v.node), NodeRow(pid, p, v))
  }

  function RecordsOf(pid: nat, p: seq<byte>, vs: seq<Visit>): (es: seq<Emit<Value>>)
    requires forall i :: 0 <= i < |vs| ==> vs[i].off + HeaderLen(vs[i].node) <= |p|
    ensures |es| == |vs|
    ensures forall i :: 0 <= i < |vs| ==> es[i] == NodeRecord(pid, p, vs[i])
    ensures FitTables(es, DagWidths())
  {
    seq(|vs|, i requires 0 <= i < |vs| => NodeRecord(pid, p, vs[i]))
  }

  /** The records of a packet, in walk order. */
  ghost function DagRecords(pid: nat, p: seq<byte>, root: Node): seq<Emit<Value>> {
    RecordsOf(pid, p, Visits(p, root))
  }

  datatype DagPacket = DagPacket(data: seq<byte>, pid: nat)

  ghost function DagStream(pkts: seq<DagPacket>, root: Node): (r: seq<seq<Emit<Value>>>)
    ensures |r| == |pkts|
    ensures forall k :: 0 <= k < |pkts| ==> r[k] == DagRecords(pkts[k].pid, pkts[k].data, root)
    ensures forall k :: 0 <= k < |pkts| ==> FitTables(r[k], DagWidths())
  {
    seq(|pkts|, k requires 0 <= k < |pkts| => DagRecords(pkts[k].pid, pkts[k].data, root))
  }

  /** Every record of every packet, in packet order and then walk order. */
  ghost function DagFlat(pkts: seq<DagPacket>, root: Node): (es: seq<Emit<Value>>)
    ensures FitTables(es, DagWidths())
  {
    FlatFits(DagStream(pkts, root), DagWidths());
    Flat(DagStream(pkts, root))
  }

  /** The serial reference: walk one packet and append a row per visit. */
  method DagDecodePacket(pid: nat, p: seq<byte>, tabs: TableSet<Value>, root: Node)
    requires tabs.Valid() && tabs.widths == DagWidths()
    modifies tabs
    ensures tabs.Valid() && tabs.cols == Appended(old(tabs.cols), DagRecords(pid, p, root), tabs.widths)
  {
    hide Trace, NodeRow, DagWidths, Appended, HeaderLen, NodeRecord, RecordsOf, NodeWidth;
    var vs, _ := Walk(p, root);
    ghost var es := RecordsOf(pid, p, vs);
    AppendedNothing(tabs.cols, tabs.widths);
    assert es[..0] == [];
    for i := 0 to |vs|
      invariant tabs.Valid() && tabs.cols == Appended(old(tabs.cols), es[..i], tabs.widths)
    {
      assert es[..i + 1] == es[..i] + [es[i]];
      AppendedTwice(old(tabs.cols), es[..i], [es[i]], tabs.widths);
      tabs.Append(NodeRecord(pid, p, vs[i]));
    }
    assert es[..|vs|] == es;
  }

  // ---- bulk -------------------------------------------------------------------------------------------

  /** The count visitor, called on each visit: one 32-bit counter per node. */
  method CountNodes(vs: seq<Visit>, ghost es: seq<Emit<Value>>) returns (r: Counts)
    requires |es| == |vs| && forall i :: 0 <= i < |vs| ==> es[i].tab == NodeId(vs[i].node)
    ensures CountsOf(r, es, GRAPH_SIZE)
  {
    hide NodeId, Count;
    CountStarts(es);
    var c := new nat[GRAPH_SIZE](_ => 0);
    for i := 0 to |vs|
      invariant forall t :: 0 <= t < GRAPH_SIZE ==> c[t] == Count(es[..i], t) % TWO_TO_THE_32
    {
      CountSteps(es, i);
      var t := NodeId(vs[i].node);
      c[t] := Add32(c[t], 1);
    }
    assert es[..|vs|] == es;
    r := c[..];
  }

  /** The count walk: no rows; the packet id does not matter. */
  method CountPacketDag(p: seq<byte>, root: Node, ghost pid: nat) returns (r: Counts)
    ensures CountsOf(r, DagRecords(pid, p, root), GRAPH_SIZE)
  {
    hide Trace, NodeRow, HeaderLen, NodeRecord, RecordsOf, NodeId;
    var vs, _ := Walk(p, root);
    RecordTabs(pid, p, vs);
    r := CountNodes(vs, RecordsOf(pid, p, vs));
  }

  /** Store one header: the packet id, then every field of the node's spec, read at the header. */
  method ScatterRow(pid: nat, p: seq<byte>, v: Visit, slot: nat) returns (ws: seq<Write<Value>>)
    requires v.off + HeaderLen(v.node) <= |p|
    ensures ws == RowWrites(NodeRecord(pid, p, v), slot)
  {
    hide HeaderLen, ReadField, NodeWidth, SpecField;
    var t := NodeId(v.node);
    ws := [Write(t, 0, slot, Num(pid))];
    ghost var row := NodeRow(pid, p, v);
    for c := 0 to NodeWidth(v.node) - 1
      invariant ws == RowWrites(NodeRecord(pid, p, v), slot)[..c + 1]
    {
      var x := ReadFieldAt(SpecField(v.node, c), p, v.off);
      assert row[c + 1] == x;
      ws := ws + [Write(t, c + 1, slot, x)];
    }
  }

  /** The scatter visitor: each header takes its table's next row. */
  method ScatterVisits(pid: nat, p: seq<byte>, vs: seq<Visit>, base: Counts) returns (ws: seq<Write<Value>>)
    requires |base| == GRAPH_SIZE && forall i :: 0 <= i < |vs| ==> vs[i].off + HeaderLen(vs[i].node) <= |p|
    ensures Reach(RecordsOf(pid, p, vs), GRAPH_SIZE) && ws == PacketWrites(RecordsOf(pid, p, vs), base)
  {
    hide HeaderLen, NodeRow, RowWrites, KernelAt, NodeRecord, RecordsOf, NodeId, FitTables;
    var cur := new nat[GRAPH_SIZE](i requires 0 <= i < |base| => base[i]);
    assert cur[..] == base;
    ghost var es := RecordsOf(pid, p, vs);
    RecordTabs(pid, p, vs);
    ws := [];
    KernelStarts(es, base);
    for i := 0 to |vs|
      invariant KernelAt(es, i, base, ws, cur[..])
    {
      var t := NodeId(vs[i].node);
      ghost var was := cur[..];
      var row := ScatterRow(pid, p, vs[i], cur[t]);
      KernelSteps(es, i, base, ws, was, row);
      ws := ws + row;
      cur[t] := Add32(cur[t], 1);
      assert cur[..] == Bump(was, t);
    }
    KernelEnds(es, base, ws, cur[..]);
  }

  /** The scatter walk: cursors start at the packet's bases. */
  method ScatterPacketDag(pid: nat, p: seq<byte>, root: Node, base: Counts) returns (ws: seq<Write<Value>>)
    requires |base| == GRAPH_SIZE
    ensures Reach(DagRecords(pid, p, root), GRAPH_SIZE) && ws == PacketWrites(DagRecords(pid, p, root), base)
  {
    hide Trace, HeaderLen, RecordsOf, PacketWrites;
    var vs, _ := Walk(p, root);
    ws := ScatterVisits(pid, p, vs, base);
  }

  lemma RecordTabs(pid: nat, p: seq<byte>, vs: seq<Visit>)
    requires forall i :: 0 <= i < |vs| ==> vs[i].off + HeaderLen(vs[i].node) <= |p|
    ensures Reach(RecordsOf(pid, p, vs), GRAPH_SIZE)
    ensures forall i :: 0 <= i < |vs| ==> RecordsOf(pid, p, vs)[i].tab == NodeId(vs[i].node)
  {
    hide NodeRow, HeaderLen;
  }

  /** The whole orchestration: a count walk of every packet, the scan, the resize, and a scatter walk of every packet
      on the executor. The tables end as if DagDecodePacket had run on every packet in order. */
  method DagDecodeBulk(pkts: seq<DagPacket>, tabs: TableSet<Value>, root: Node, ex: Executor)
    requires tabs.Valid() && tabs.widths == DagWidths()
    requires TotalsFit(tabs.cols, DagFlat(pkts, root)) && ExecutorFits(ex, Min(|pkts|, 64), |pkts|)
    modifies tabs
    ensures tabs.Valid() && tabs.cols == Appended(old(tabs.cols), DagFlat(pkts, root), tabs.widths)
  {
    hide Trace, NodeRow, Appended, DagWidths, Running, CountsOf, PacketWrites, RunsEachOnce, WorkOf, Resized;
    ghost var stream := DagStream(pkts, root);
    var np := |pkts|;
    var per := [];
    for k := 0 to np
      invariant tabs.Valid() && tabs.cols == old(tabs.cols)
      invariant |per| == k && forall j :: 0 <= j < k ==> CountsOf(per[j], stream[j], GRAPH_SIZE)
    {
      var c := CountPacketDag(pkts[k].data, root, pkts[k].pid);
      per := per + [c];
    }
    var base, run := ExclusiveScan(tabs, per, stream);
    EveryExecutorRunsEachOnce(ex, Min(np, 64), np);
    ghost var job := Job(tabs.cols, tabs.widths, stream, WorkOf(ex, Min(np, 64), np), Num(0));
    tabs.Resize(run, Num(0));
    var kernels := [];
    for k := 0 to np
      invariant tabs.Valid() && tabs.cols == Resized(job.start, Running(job.start, job.pkts), job.fill)
      invariant |kernels| == k && forall j :: 0 <= j < k ==> job.Reaches(j) && kernels[j] == WritesOf(job, j)
    {
      var ws := ScatterPacketDag(pkts[k].pid, pkts[k].data, root, base[k]);
      kernels := kernels + [ws];
    }
    ScatterAll(tabs, kernels, ex, Min(np, 64), job);
    GoalIs(job);
  }

  /** DagDecodePacket on every packet in order: the same tables as DagDecodeBulk. */
  method DagDecodeSerially(pkts: seq<DagPacket>, tabs: TableSet<Value>, root: Node)
    requires tabs.Valid() && tabs.widths == DagWidths()
    modifies tabs
    ensures tabs.Valid() && tabs.cols == Appended(old(tabs.cols), DagFlat(pkts, root), tabs.widths)
  {
    ghost var stream := DagStream(pkts, root);
    AppendedNothing(tabs.cols, tabs.widths);
    FlatFits(stream, tabs.widths);
    for k := 0 to |pkts|
      invariant tabs.Valid() && FitTables(Flat(stream[..k]), tabs.widths)
      invariant tabs.cols == Appended(old(tabs.cols), Flat(stream[..k]), tabs.widths)
    {
      FlatAt(stream, k);
      AppendedTwice(old(tabs.cols), Flat(stream[..k]), stream[k], tabs.widths);
      DagDecodePacket(pkts[k].pid, pkts[k].data, tabs, root);
    }
    assert stream[..|pkts|] == stream;
  }

  /** For any packets, any starting tables, any partition over workers and any complete interleaving of the cell
      writes, the graph's tables are those of the serial decode, if and only if no table reaches 2^32 rows. */
  lemma DagBulkEqualsSerial(pkts: seq<DagPacket>, root: Node, job: Job<Value>, sched: seq<nat>)
    requires job.Valid() && job.widths == DagWidths() && job.pkts == DagStream(pkts, root)
    requires Legal(Init(job), sched) && Finished(Run(Init(job), sched))
    ensures Run(Init(job), sched).tabs == Appended(job.start, DagFlat(pkts, root), job.widths) <==>
            TotalsFit(job.start, DagFlat(pkts, root))
  {
    BulkEqualsSerial(job, sched);
  }

  /** Two windows of packets, the second decoded into the tables the first left, each in bulk under any complete
      schedule and with packet ids of its own: the tables are those of one serial decode of all the packets, if and
      only if no table reaches 2^32 rows. */
  lemma DagWindowsRunExactly(a: seq<DagPacket>, b: seq<DagPacket>, root: Node, first: Job<Value>, s: seq<nat>,
                             second: Job<Value>, s': seq<nat>)
    requires first.Valid() && first.widths == DagWidths() && first.pkts == DagStream(a, root)
    requires second.Valid() && second.widths == DagWidths() && second.pkts == DagStream(b, root)
    requires Legal(Init(first), s) && Finished(Run(Init(first), s)) && second.start == Run(Init(first), s).tabs
    requires Legal(Init(second), s') && Finished(Run(Init(second), s'))
    ensures Run(Init(second), s').tabs == Appended(first.start, DagFlat(a + b, root), DagWidths()) <==>
            TotalsFit(first.start, DagFlat(a + b, root))
  {
    hide Legal, Run, Init, Finished, Appended, DagRecords, Flat, TotalsFit;
    assert DagStream(a + b, root) == DagStream(a, root) + DagStream(b, root);
    WindowsRunExactly(first, s, second, s');
  }

  // ---- how many rows a packet can add -----------------------------------------------------------------

  lemma {:induction false} CountAtMostOne<V>(es: seq<Emit<V>>, t: nat)
    requires forall i, j :: 0 <= i < j < |es| ==> es[i].tab != t || es[j].tab != t
    ensures Count(es, t) <= 1
  {
    if es != [] {
      var front := es[..|es| - 1];
      CountAtMostOne(front, t);
      if es[|es| - 1].tab == t {
        NoneCount(front, t);
      }
    }
  }

  lemma {:induction false} CountAtMostAll<V>(es: seq<Emit<V>>, t: nat)
    ensures Count(es, t) <= |es|
  {
    if es != [] {
      CountAtMostAll(es[..|es| - 1], t);
    }
  }

  /** A packet adds at most one row to every table but VLAN and the extension headers, and at most 32 there. */
  lemma RowsPerPacket(pid: nat, p: seq<byte>, n: Node)
    ensures Count(DagRecords(pid, p, Eth), NodeId(n)) <= if Stacks(n) then MAX_WALK_STEPS else 1
  {
    hide Trace, NodeRow;
    var es := DagRecords(pid, p, Eth);
    CountAtMostAll(es, NodeId(n));
    if !Stacks(n) {
      AtMostOneRowPerLayer(p);
      CountAtMostOne(es, NodeId(n));
    }
  }
}
