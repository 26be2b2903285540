/** The bulk pipeline as code: count records, scan, resize, and let the workers scatter in an order nobody
    chooses. Shared by every decoder that fills tables in bulk. */
module BulkDecode {
  import opened Wire
  import opened Tables
  import opened Bulk
  import opened Scatter
  import opened BulkIsSerial

  /** The counts of a packet, one per table, in 32 bits. */
  ghost predicate CountsOf<V>(c: Counts, es: seq<Emit<V>>, n: nat) {
    |c| == n && forall t :: 0 <= t < n ==> c[t] == Count(es, t) % TWO_TO_THE_32
  }

  /** A count visitor that only counts its calls, in 32 bits. */
  method CountVisits(c: nat, n: nat) returns (r: nat)
    requires c < TWO_TO_THE_32
    ensures r == (c + n) % TWO_TO_THE_32
  {
    r := c;
    for i := 0 to n
      invariant r == (c + i) % TWO_TO_THE_32
    {
      AddMod(c + i, 1);
      r := Add32(r, 1);
    }
  }

  /** operator+ of the count vectors. */
  method AddCounts(a: Counts, b: Counts) returns (r: Counts)
    requires |a| == |b|
    ensures |r| == |a| && forall t :: 0 <= t < |a| ==> r[t] == Add32(a[t], b[t])
  {
    r := [];
    for i := 0 to |a|
      invariant |r| == i && forall t :: 0 <= t < i ==> r[t] == Add32(a[t], b[t])
    {
      r := r + [Add32(a[i], b[i])];
    }
  }

  /** The exclusive prefix sum over the packets' counts, seeded with the table sizes. */
  method ExclusiveScan<V>(tabs: TableSet<V>, per: seq<Counts>, ghost pkts: seq<seq<Emit<V>>>)
    returns (base: seq<Counts>, run: Counts)
    requires tabs.Valid() && |per| == |pkts|
    requires forall k :: 0 <= k < |pkts| ==> CountsOf(per[k], pkts[k], |tabs.cols|)
    ensures run == Running(tabs.cols, pkts)
    ensures |base| == |pkts|
    ensures forall k :: 0 <= k < |pkts| ==> base[k] == Base(tabs.cols, pkts, k)
  {
    base, run := [], Sizes32(tabs.cols);
    for k := 0 to |per|
      invariant run == Running(tabs.cols, pkts[..k])
      invariant |base| == k && forall j :: 0 <= j < k ==> base[j] == Base(tabs.cols, pkts, j)
    {
      base := base + [run];
      assert CountsOf(per[k], pkts[k], |tabs.cols|);
      assert pkts[..k + 1][..k] == pkts[..k];
      run := AddCounts(run, per[k]);
    }
    assert pkts[..|pkts|] == pkts;
  }

  /** The writes of a worker: its packets' kernels, one after the other. */
  method TaskProgram<V>(ghost job: Job<V>, kernels: seq<seq<Write<V>>>, ks: seq<nat>) returns (ws: seq<Write<V>>)
    requires job.Valid() && |kernels| == |job.pkts|
    requires forall k :: 0 <= k < |kernels| ==> job.Reaches(k) && kernels[k] == WritesOf(job, k)
    requires forall i :: 0 <= i < |ks| ==> ks[i] < |kernels|
    ensures ws == WorkerWrites(job, ks)
  {
    hide WritesOf;
    ws := [];
    for i := 0 to |ks|
      invariant ws == WorkerWrites(job, ks[..i])
    {
      assert ks[..i + 1][..i] == ks[..i];
      assert job.Reaches(ks[i]) && kernels[ks[i]] == WritesOf(job, ks[i]);
      ws := ws + kernels[ks[i]];
    }
    assert ks[..|ks|] == ks;
  }

  /** Run the workers' programs to completion, one write at a time, any worker next. */
  method Execute<V>(tabs: TableSet<V>, programs: seq<seq<Write<V>>>, ghost job: Job<V>)
    requires tabs.Valid() && job.Valid() && job.Fits32() && job.widths == tabs.widths
    requires tabs.cols == Init(job).tabs && programs == Init(job).pend
    modifies tabs
    ensures tabs.Valid() && tabs.cols == job.Goal()
  {
    InitOnTrack(job);
    var pend := programs;
    ghost var s := Init(job);
    while exists u :: 0 <= u < |pend| && pend[u] != []
      invariant tabs.Valid() && s.tabs == tabs.cols && s.pend == pend
      invariant OnTrack(job, s)
      decreases Remaining(pend)
    {
      var u :| 0 <= u < |pend| && pend[u] != [];
      assert PendingAt(s, u, 0);
      StepOnTrack(job, s, u);
      RemainingDrops(pend, u);
      tabs.Set(pend[u][0]);
      s := Step(s, u);
      pend := pend[u := pend[u][1..]];
    }
    FinishedIsSerial(job, s);
  }

  /** Run every packet's kernel on the executor: the tables end as if every packet's records had been appended in
      packet order. */
  method ScatterAll<V>(tabs: TableSet<V>, kernels: seq<seq<Write<V>>>, ex: Executor, numTasks: nat, ghost job: Job<V>)
    requires tabs.Valid() && job.Valid() && job.Fits32() && job.widths == tabs.widths
    requires tabs.cols == Resized(job.start, Running(job.start, job.pkts), job.fill)
    requires job.work == WorkOf(ex, numTasks, |job.pkts|) && |kernels| == |job.pkts|
    requires forall k :: 0 <= k < |kernels| ==> job.Reaches(k) && kernels[k] == WritesOf(job, k)
    modifies tabs
    ensures tabs.Valid() && tabs.cols == job.Goal()
  {
    hide Running, Resized, WorkOf, WritesOf, WorkerWrites;
    var work := WorkOf(ex, numTasks, |kernels|);
    var programs := [];
    for t := 0 to |work|
      invariant |programs| == t && tabs.Valid() && tabs.cols == Init(job).tabs
      invariant forall u :: 0 <= u < t ==> programs[u] == WorkerWrites(job, work[u])
    {
      var program := TaskProgram(job, kernels, work[t]);
      programs := programs + [program];
    }
    assert programs == Init(job).pend;
    Execute(tabs, programs, job);
  }

  /** The serial result of a job, said with Appended. */
  lemma GoalIs<V>(job: Job<V>)
    requires job.Valid()
    ensures FitTables(Flat(job.pkts), job.widths) && job.Goal() == Appended(job.start, Flat(job.pkts), job.widths)
  {
    FlatFits(job.pkts, job.widths);
  }
}
