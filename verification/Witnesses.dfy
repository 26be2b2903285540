/** Inputs on which the code does not do what its comments or its documentation say: each exact condition proved
    elsewhere fails for one of them. */
module Witnesses {
  import opened Wire
  import opened WireSpec
  import opened Protocols
  import opened Dag
  import opened DagGrammar
  import opened PacketWalk
  import opened FrameBytes
  import opened WalksAgree
  import opened Tables
  import opened Bulk
  import Scatter
  import BulkIsSerial
  import DagDecode
  import Interop
  import PcapBlocks
  import PcapParse
  import PcapStreaming
  import SomeipSd
  import PacketTables
  import DparFields

  function Zeros(n: nat): (z: seq<byte>)
    ensures |z| == n && forall i :: 0 <= i < n ==> z[i] == 0
  {
    seq(n, _ => 0)
  }

  lemma Host16At(p: seq<byte>, off: nat)
    requires off + 2 <= |p|
    ensures Host16(p, off) == 256 * (p[off] as int) + (p[off + 1] as int)
  {
    var s := p[off..off + 2];
    SmallWords(s);
    assert s[0] == p[off] && s[1] == p[off + 1];
  }

  // ---- the two walks ----------------------------------------------------------------------------------

  /** Ethernet, IPv6, a Hop-by-Hop header and UDP. */
  function HiddenUdp(): seq<byte> { Zeros(70)[12 := 0x86][13 := 0xDD][54 := 17] }

  /** The graph sees the UDP header of this frame, walk_packet does not. */
  lemma WalksDiffer(pid: nat)
    ensures L4BehindExtension(HiddenUdp())
    ensures Restrict(Visits(HiddenUdp(), Eth)) != PacketVisits(LINK_TYPE_ETHERNET, HiddenUdp())
    ensures !Interop.SameTables(pid, HiddenUdp())
  {
    hide Visits, PacketVisits, Restrict, Interop.SameTables, Host16, HeaderCount;
    var p := HiddenUdp();
    Host16At(p, 12);
    assert TagsFrom(p, Host16(p, 12), 14) == 0;
    assert LeadsToL4(p, 17, 62, 29);
    assert LeadsToL4(p, 0, 54, 30);
    WalksAgreeExactly(p);
    Interop.TablesAgreeExactly(pid, p);
  }

  /** Ethernet, n VLAN tags, and half a tag. */
  function TagStack(n: nat): (p: seq<byte>)
    ensures |p| == 16 + 4 * n
  {
    seq(16 + 4 * n, i => if i % 2 == 0 then 0x81 else 0)
  }

  lemma {:induction false} TagsStack(n: nat, k: nat)
    requires k <= n
    ensures TagsFrom(TagStack(n), 0x8100, 14 + 4 * (n - k)) == k
    decreases k
  {
    if k > 0 {
      Host16At(TagStack(n), 16 + 4 * (n - k));
      TagsStack(n, k - 1);
    }
  }

  lemma StackHeaders()
    ensures HeaderCount(TagStack(32)) == 33
  {
    hide Host16, TagsFrom, UpperHeaders;
    var p := TagStack(32);
    Host16At(p, 12);
    Host16At(p, 140);
    TagsStack(32, 32);
    assert NetworkAt(p) == 142 && NetworkType(p) == 0x8100;
    assert UpperHeaders(p, 0x8100, 142) == 0 by { NoUpper(p); }
  }

  lemma NoUpper(p: seq<byte>)
    ensures UpperHeaders(p, 0x8100, 142) == 0
  {
  }

  /** The graph walk of a frame with 32 tags ends before walk_packet does. */
  lemma HeadersExceedTheBudget(pid: nat)
    ensures !(PacketVisits(LINK_TYPE_ETHERNET, TagStack(32)) <= Restrict(Visits(TagStack(32), Eth)))
    ensures !Interop.SameTables(pid, TagStack(32))
  {
    hide Visits, PacketVisits, Restrict, Interop.SameTables, HeaderCount, TagStack;
    StackHeaders();
    PacketWalkIsAPrefixExactly(TagStack(32));
    Interop.TablesAgreeExactly(pid, TagStack(32));
  }

  /** Ethernet, IPv6, an Authentication Header with payload length 0, and the header it names. */
  function ShortAh(): seq<byte> { Zeros(66)[12 := 0x86][13 := 0xDD][20 := 51][54 := 60] }

  lemma Ip6Start(p: seq<byte>)
    requires |p| >= 54 && p[12] == 0x86 && p[13] == 0xDD
    ensures Visits(p, Eth) ==
            [Visit(Eth, 0), Visit(Ipv6, 14)] + From(p, MatchEdges(p[20], IP6_NEXT_EDGES), 54, MAX_WALK_STEPS - 2)
  {
    hide MatchEdges, Trace, Host16, ReadUnsigned;
    Host16At(p, 12);
    EthStep(p, MAX_WALK_STEPS);
    EthertypeDispatch(ETHERTYPE_IPV6);
    Ipv6Step(p, 14, MAX_WALK_STEPS - 1);
    var rest := From(p, MatchEdges(p[20], IP6_NEXT_EDGES), 54, MAX_WALK_STEPS - 2);
    assert [Visit(Eth, 0)] + ([Visit(Ipv6, 14)] + rest) == [Visit(Eth, 0), Visit(Ipv6, 14)] + rest;
  }

  /** The third header of this frame ends at byte 66, the fourth starts at byte 62. */
  lemma HeadersOverlap()
    ensures var vs := Visits(ShortAh(), Eth);
      |vs| >= 4 && vs[2] == Visit(Ah, 54) && vs[3] == Visit(DestOpt, 62) && vs[3].off < vs[2].off + HeaderLen(Ah)
  {
    hide MatchEdges, Trace, ReadUnsigned;
    var p := ShortAh();
    Ip6Start(p);
    Ip6Targets(51);
    Ip6Targets(60);
    ExtensionFields(p, 54);
    TraceStep(p, Ah, 54, 30);
    TraceStep(p, DestOpt, 62, 29);
  }

  /** Ethernet and an IPv4 header that claims 60 bytes and has 20. */
  function LongIhl(): seq<byte> { Zeros(34)[12 := 8][14 := 0x4F] }

  /** The walk of this 34-byte frame consumes more than 34 bytes. */
  lemma ConsumedOverruns()
    ensures Consumed(LongIhl(), Visits(LongIhl(), Eth)) > |LongIhl()|
  {
    hide MatchEdges, Trace, ReadUnsigned, Host16;
    var p := LongIhl();
    Host16At(p, 12);
    EthStep(p, MAX_WALK_STEPS);
    EthertypeDispatch(ETHERTYPE_IPV4);
    Ipv4Step(p, 14, MAX_WALK_STEPS - 1);
    Ipv4Fields(p, 14);
    var vs := Visits(p, Eth);
    assert vs[1] == Visit(Ipv4, 14);
    assert DeclaresPast(p, vs[1].node, vs[1].off);
    ConsumedOverrunsExactly(p, Eth);
  }

  /** With a repeated key the last edge wins and the first is never taken. */
  lemma RepeatedKeysHideEdges()
    ensures var edges := [Edge(5, Tcp), Edge(5, Udp)]; MatchEdges(5, edges) == Some(Udp) && Edge(5, Tcp) in edges
  {
    assert Edge(5, Tcp) == [Edge(5, Tcp), Edge(5, Udp)][0];
  }

  // ---- readers ----------------------------------------------------------------------------------------

  const INTERVAL := Scalar("log_message_interval", 33, 1, true, true)

  /** A gPTP header whose last byte is 255: the spec reader says -1, the rule engine's reader 255. */
  lemma SignedFieldsDiffer()
    ensures var p, r := Zeros(34)[33 := 255], DparFields.FieldToRef(6, INTERVAL).value;
      && Leaf(INTERVAL) in NodeSpec(Gptp)
      && ReadField(INTERVAL, p, 0).n == -1 && DparFields.ReadRuntime(p, 0, r) == 255
  {
    var p := Zeros(34)[33 := 255];
    ByteAt(p, 33);
    assert PTP_HEADER_SPEC[|PTP_HEADER_SPEC| - 1] == Leaf(INTERVAL);
    Pow2Values();
  }

  /** A captured length for which the option region starts behind the block. */
  lemma EpbOptionsLeaveTheBlock()
    ensures var ref := PcapBlocks.BlockRef(0, 32, 6, PcapBlocks.Epb, true);
      !PcapParse.InBlock(PcapParse.EpbOptions(ref, TWO_TO_THE_32 - 32), ref)
  {
    PcapParse.EpbOptionsStayExactly(PcapBlocks.BlockRef(0, 32, 6, PcapBlocks.Epb, true), TWO_TO_THE_32 - 32);
  }

  /** Captured lengths at which the 32-bit offset wraps: the options are read from the block's own type word, or
      from where its data starts. */
  lemma EpbOptionsPrecedeTheData()
    ensures var ref := PcapBlocks.BlockRef(0, 32, 6, PcapBlocks.Epb, true);
      && PcapParse.EpbOptions(ref, 0xFFFF_FFE4) == PcapParse.Options(0, 28)
      && PcapParse.TrailingOptions(ref, 0xFFFF_FFE4) == PcapParse.Absent
    ensures var ref := PcapBlocks.BlockRef(0, 44, 6, PcapBlocks.Epb, true);
      && PcapParse.EpbOptions(ref, 0xFFFF_FFFF) == PcapParse.Options(28, 12)
      && PcapParse.TrailingOptions(ref, 0xFFFF_FFFF) == PcapParse.Absent
  {
  }

  // ---- service discovery ------------------------------------------------------------------------------

  /** A discovery message with 257 entries: service 0xFFFF, method 0x8100, SOME/IP length 4128, entries 4112. */
  function ManyEntries(): seq<byte> {
    Zeros(4136)[0 := 255][1 := 255][2 := 0x81][6 := 0x10][7 := 0x20][22 := 0x10][23 := 0x10]
  }

  /** Its last entry is stored with index 0. */
  lemma EntryIndicesRepeat()
    ensures var r := SomeipSd.SdRegion(ManyEntries(), 0);
      && r.Some? && |SomeipSd.Entries(r.value)| == 257
      && SomeipSd.Entries(r.value)[256].index == 0
  {
    var p := ManyEntries();
    SmallWords(p[0..2]);
    SmallWords(p[2..4]);
    SmallWords(p[4..8]);
    var entries := p[20..24];
    SmallWords(entries);
    assert entries[0] == 0 && entries[1] == 0 && entries[2] == 0x10 && entries[3] == 0x10;
    assert WordAt(p, 0, 2, true) == 0xFFFF && WordAt(p, 2, 2, true) == 0x8100;
    assert WordAt(p, 4, 4, true) == 4128 && WordAt(p, 20, 4, true) == 4112;
  }

  /** Options of length 0 and type 0, one behind the other. */
  lemma {:induction false} EmptyOptions(p: seq<byte>, from: nat, n: nat, i: nat)
    requires from + 3 * n == |p| && forall k :: 0 <= k < |p| ==> p[k] == 0
    ensures |SomeipSd.OptionsFrom(p, from, |p|, i)| == n
    decreases n
  {
    if n > 0 {
      SmallWords(p[from..from + 2]);
      EmptyOptions(p, from + 3, n - 1, i + 1);
    }
  }

  /** The last of 257 options is stored with index 0. */
  lemma OptionIndicesRepeat()
    ensures var os := SomeipSd.OptionsFrom(Zeros(771), 0, 771, 0); |os| == 257 && os[256].index == 0
  {
    hide SomeipSd.OptionsFrom, WordAt;
    EmptyOptions(Zeros(771), 0, 257, 0);
    SomeipSd.OptionsChain(Zeros(771), 0, 771, 0);
  }

  /** An option of length 1 that says it is an IPv4 endpoint, and eight bytes that are not its own. */
  const SHORT_OPTION: seq<byte> := [0, 1, 4, 0, 10, 0, 0, 1, 0, 17, 0, 80]

  /** Its endpoint is read from those bytes. */
  lemma EndpointsReadBeyond()
    ensures var o := SomeipSd.SdOption(0, 0, 1, 4);
      && SomeipSd.IsOption(SHORT_OPTION, 12, o) && SomeipSd.OptionEnd(o) == 4
      && SomeipSd.DecodeEndpoint(SHORT_OPTION, 0, 4).l4proto == 17
      && SomeipSd.DecodeEndpoint(SHORT_OPTION[..4], 0, 4).l4proto == 0
  {
    SmallWords(SHORT_OPTION[0..2]);
  }

  // ---- sizes ------------------------------------------------------------------------------------------

  /** Graph tables whose Ethernet table has 2^32 - 1 rows and whose other tables are empty. */
  function FullTables(): (tabs: seq<seq<seq<Value>>>)
    ensures Shaped(tabs, DagDecode.DagWidths()) && RowCount(tabs, 0) == TWO_TO_THE_32 - 1
  {
    var widths := DagDecode.DagWidths();
    seq(GRAPH_SIZE, t requires 0 <= t < GRAPH_SIZE =>
      seq(widths[t], _ => seq(if t == 0 then TWO_TO_THE_32 - 1 else 0, _ => Num(0))))
  }

  /** One more frame, decoded in bulk by one worker under a complete schedule, does not leave the serial tables. */
  lemma WrappedTotal() returns (job: Scatter.Job<Value>, sched: seq<nat>)
    ensures job.Valid() && job.start == FullTables() && job.widths == DagDecode.DagWidths()
    ensures job.pkts == DagDecode.DagStream([DagDecode.DagPacket(Zeros(14), 0)], Eth)
    ensures Scatter.Legal(Scatter.Init(job), sched) && Scatter.Finished(Scatter.Run(Scatter.Init(job), sched))
    ensures Scatter.Run(Scatter.Init(job), sched).tabs !=
            Appended(job.start, DagDecode.DagFlat([DagDecode.DagPacket(Zeros(14), 0)], Eth), job.widths)
  {
    hide FullTables, RunsEachOnce, DagDecode.DagRecords, DagDecode.DagWidths, Scatter.Legal, Scatter.Run, Scatter.Init;
    hide Scatter.Finished, Appended, Count, DagDecode.DagFlat, Zeros;
    var pkts := [DagDecode.DagPacket(Zeros(14), 0)];
    SerialRunsEachOnce(1);
    job := Scatter.Job(FullTables(), DagDecode.DagWidths(), DagDecode.DagStream(pkts, Eth), [Interval(0, 1)], Num(0));
    sched := BulkIsSerial.SomeScheduleFinishes(Scatter.Init(job));
    OneMoreRow();
    assert RowCount(job.start, 0) + Count(DagDecode.DagFlat(pkts, Eth), 0) >= TWO_TO_THE_32;
    DagDecode.DagBulkEqualsSerial(pkts, Eth, job, sched);
  }

  lemma OneMoreRow()
    ensures Count(DagDecode.DagFlat([DagDecode.DagPacket(Zeros(14), 0)], Eth), 0) > 0
  {
    hide Trace, DagDecode.NodeRow, Count;
    var p := Zeros(14);
    var es, none := DagDecode.DagRecords(0, p, Eth), DagDecode.DagStream([], Eth);
    VisitsAreTheWalk(p, Eth, Visits(p, Eth));
    assert Visits(p, Eth)[0] == Visit(Eth, 0);
    var s := DagDecode.DagStream([DagDecode.DagPacket(p, 0)], Eth);
    assert s == [es] && s[..0] == none;
    assert Flat(s) == Flat(s[..0]) + es == es;
    CountFinds(es, 0, 0);
  }

  /** A frame cut by the end of its window and completed by the next. */
  lemma CutFramesAreLost(start: seq<seq<seq<Value>>>)
    requires Shaped(start, PacketTables.PDU_WIDTHS)
    ensures var a := [PacketTables.PacketRef(LINK_TYPE_ETHERNET, 0, 14)];
      Appended(Appended(start, Flat(PacketTables.WindowStream(0, Zeros(10), a)), PacketTables.PDU_WIDTHS),
               Flat(PacketTables.WindowStream(1, Zeros(4), [])), PacketTables.PDU_WIDTHS)
      != Appended(start, Flat(PacketTables.WindowStream(0, Zeros(10) + Zeros(4), a)), PacketTables.PDU_WIDTHS)
  {
    hide Appended, PacketTables.WindowStream, Flat;
    var a := [PacketTables.PacketRef(LINK_TYPE_ETHERNET, 0, 14)];
    PacketTables.WindowsComposeExactly(start, 0, Zeros(10), a, Zeros(4), []);
    assert PacketTables.Straddles(a[0], Zeros(10), Zeros(4));
    assert a + PacketTables.AllMoved([], 10) == a;
  }

  /** A legacy capture whose only record has 2^32 - 16 bytes. */
  function HugeRecord(): seq<byte> {
    Zeros(TWO_TO_THE_32)[8 := 0xF0][9 := 0xFF][10 := 0xFF][11 := 0xFF]
  }

  /** Its ref has length 0. */
  lemma RecordLengthWraps()
    ensures var st := PcapBlocks.State(true, false, true, 1);
      var r := PcapBlocks.ScanWindow(st, HugeRecord(), true);
      && r.error == None && |r.refs| == 1 && r.refs[0].length == 0
      && !PcapStreaming.Tiles(r.refs, 0, r.consumed)
  {
    var p, st := HugeRecord(), PcapBlocks.State(true, false, true, 1);
    var s := p[8..12];
    SmallWords(s);
    assert s[0] == 0xF0 && s[1] == 0xFF && s[2] == 0xFF && s[3] == 0xFF;
    assert PcapBlocks.Rd32(p, 8, true) == 0xFFFF_FFF0;
    var f := PcapBlocks.BlockAt(st, p, 0);
    assert f == PcapBlocks.Block(PcapBlocks.BlockRef(0, 0, 1, PcapBlocks.PcapRecord, true), st, TWO_TO_THE_32);
    assert PcapBlocks.BlockAt(st, p, TWO_TO_THE_32) == PcapBlocks.More;
    assert PcapBlocks.ScanFrom(st, p, TWO_TO_THE_32) == PcapBlocks.Scan([], TWO_TO_THE_32, st, true);
    assert PcapBlocks.ScanFrom(st, p, 0).refs == [f.ref];
  }

  /** Two tasks over 2^63 indices: the second task's end wraps to 0. */
  lemma RangesMissIndices()
    ensures !RunsEachOnce(Ranges(2, 0x8000_0000_0000_0000), 0x8000_0000_0000_0000)
  {
    hide RunsEachOnce, Ranges;
    RangesRunEachOnce(2, 0x8000_0000_0000_0000);
  }

  /** A packet at the last offset there is passes the window test of any window. */
  lemma WindowTestWraps(window: seq<byte>)
    requires |window| < TWO_TO_THE_64
    ensures var r := PacketTables.PacketRef(1, TWO_TO_THE_64 - 1, 1);
      PacketTables.InWindow(window, r) && r.offset + r.size > |window|
  {
  }
}
