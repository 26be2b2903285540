/** The variable-length records inside IPv6 extension headers: SRv6 segments and option TLVs, in two child tables
    filled together with the walk. */
module Ipv6Children {
  import opened Wire
  import opened WireSpec
  import opened Protocols
  import opened Dag
  import opened DagDecode
  import opened Tables
  import opened Bulk
  import opened Scatter
  import opened BulkIsSerial
  import opened BulkDecode
  import opened Tlv

  const SEGMENTS: nat := 0
  const OPTIONS: nat := 1

  /** packet_id, srh_order, segment_index, address; packet_id, container_type, opt_type, opt_len. */
  const KID_WIDTHS: seq<nat> := [4, 4]

  const CONTAINER_HOP_BY_HOP: nat := 0
  const CONTAINER_SRH: nat := 43
  const CONTAINER_DEST_OPT: nat := 60

  // ---- one segment routing header ---------------------------------------------------------------------

  function ExtLen(p: seq<byte>, off: nat): nat
    requires off + 2 <= |p|
  {
    (ReadUnsigned(EXT_LEN, p, off) + 1) * 8
  }

  /** The end of an extension header, clamped to the packet. */
  function ExtEnd(p: seq<byte>, off: nat): (e: nat)
    requires off + 2 <= |p|
    ensures off + 2 <= e <= |p|
    ensures off + 8 <= |p| ==> off + 8 <= e
  {
    if off + ExtLen(p, off) <= |p| then off + ExtLen(p, off) else |p|
  }

  function DeclaredSegments(p: seq<byte>, off: nat): nat
    requires off + 8 <= |p|
  {
    ReadUnsigned(SRH_LAST_ENTRY, p, off) + 1
  }

  /** Whole 16-byte segments between the fixed part and the header's end. */
  function SegmentsThatFit(p: seq<byte>, off: nat): nat
    requires off + 8 <= |p|
  {
    (ExtEnd(p, off) - (off + 8)) / 16
  }

  function SegmentCount(p: seq<byte>, off: nat): nat
    requires off + 8 <= |p|
  {
    Min(DeclaredSegments(p, off), SegmentsThatFit(p, off))
  }

  /** A segment: its index and the offset of its address. */
  datatype Segment = Segment(index: nat, at: nat)

  function Segments(p: seq<byte>, off: nat): (s: seq<Segment>)
    requires off + 8 <= |p|
    ensures |s| == SegmentCount(p, off)
    ensures forall i :: 0 <= i < |s| ==> s[i] == Segment(i, off + 8 + 16 * i) && s[i].at + 16 <= |p|
  {
    seq(SegmentCount(p, off), i requires 0 <= i < SegmentCount(p, off) => Segment(i, off + 8 + 16 * i))
  }

  /** The TLVs behind the declared segment list. */
  function SrhTlvs(p: seq<byte>, off: nat): seq<Record>
    requires off + 8 <= |p|
  {
    Records(p, off + 8 + DeclaredSegments(p, off) * 16, ExtEnd(p, off), Ipv6Options)
  }

  /** The TLVs are visited only when every declared segment was. */
  lemma TlvsNeedAllSegments(p: seq<byte>, off: nat)
    requires off + 8 <= |p| && SrhTlvs(p, off) != []
    ensures SegmentCount(p, off) == DeclaredSegments(p, off)
  {
    hide ReadUnsigned;
    EmptyUnlessBefore(p, off + 8 + DeclaredSegments(p, off) * 16, ExtEnd(p, off));
  }

  lemma EmptyUnlessBefore(p: seq<byte>, start: nat, end: nat)
    requires end <= |p|
    ensures Records(p, start, end, Ipv6Options) != [] ==> start < end
  {
    if start >= end {
      EmptyRegion(p, start, end, Ipv6Options);
    }
  }

  /** The segment loop breaks at the first segment that does not fit; the TLV loop runs behind the declared
      list. */
  method ForEachSrhChild(p: seq<byte>, off: nat) returns (segs: seq<Segment>, tlvs: seq<Record>)
    requires off + 8 <= |p|
    ensures segs == Segments(p, off) && tlvs == SrhTlvs(p, off)
  {
    hide ReadUnsigned, Records;
    var end, nseg := ExtEnd(p, off), DeclaredSegments(p, off);
    segs, tlvs := [], [];
    var i := 0;
    while i < nseg
      invariant 0 <= i <= nseg && i <= SegmentsThatFit(p, off)
      invariant segs == Segments(p, off)[..i]
      decreases nseg - i
    {
      var s := RepeatAt(off + 8, nseg, 16, end, i);
      if s.None? {
        break;
      }
      ByteIndex(p, off, i);
      segs := segs + [Segment(i % 256, s.value)];
      i := i + 1;
    }
    assert i == SegmentCount(p, off);
    var start := off + 8 + nseg * 16;
    if start < end {
      tlvs := Collect(p, start, end, Ipv6Options);
    } else {
      EmptyUnlessBefore(p, start, end);
    }
  }

  /** At most 256 segments can be declared: the 8-bit index never wraps. */
  lemma ByteIndex(p: seq<byte>, off: nat, i: nat)
    requires off + 8 <= |p| && i < DeclaredSegments(p, off)
    ensures i % 256 == i
  {
    WordBound(p[off + 4..off + 5], true);
    Pow2Values();
  }

  /** The options of a Hop-by-Hop or Destination Options header. */
  function ExtOptions(p: seq<byte>, off: nat): seq<Record>
    requires off + 2 <= |p|
  {
    Records(p, off + 2, ExtEnd(p, off), Ipv6Options)
  }

  method ForEachOpt(p: seq<byte>, off: nat) returns (opts: seq<Record>)
    requires off + 2 <= |p|
    ensures opts == ExtOptions(p, off)
  {
    hide ReadUnsigned, Records;
    var end := ExtEnd(p, off);
    if off + 2 >= end {
      EmptyUnlessBefore(p, off + 2, end);
      return [];
    }
    opts := Collect(p, off + 2, end, Ipv6Options);
  }

  // ---- the rows ---------------------------------------------------------------------------------------

  function SegmentRecord(pid: nat, order: nat, p: seq<byte>, s: Segment): (e: Emit<Value>)
    requires s.at + 16 <= |p|
    ensures FitsTable(e, KID_WIDTHS)
  {
    Emit(SEGMENTS, [Num(pid), Num(order), Num(s.index), Raw(p[s.at..s.at + 16])])
  }

  function OptionRecord(pid: nat, container: nat, r: Record): (e: Emit<Value>)
    ensures FitsTable(e, KID_WIDTHS)
  {
    Emit(OPTIONS, [Num(pid), Num(container), Num(r.kind), Num(r.length)])
  }

  function SegmentRecords(pid: nat, order: nat, p: seq<byte>, segs: seq<Segment>): (es: seq<Emit<Value>>)
    requires forall i :: 0 <= i < |segs| ==> segs[i].at + 16 <= |p|
    ensures |es| == |segs| && FitTables(es, KID_WIDTHS)
  {
    seq(|segs|, i requires 0 <= i < |segs| => SegmentRecord(pid, order, p, segs[i]))
  }

  function OptionRecords(pid: nat, container: nat, rs: seq<Record>): (es: seq<Emit<Value>>)
    ensures |es| == |rs| && FitTables(es, KID_WIDTHS)
  {
    seq(|rs|, i requires 0 <= i < |rs| => OptionRecord(pid, container, rs[i]))
  }

  /** The child rows of one visited header: segments carry the header's order among the packet's SRHs, options
      the type of the header that holds them. */
  function VisitKids(pid: nat, order: nat, p: seq<byte>, v: Visit): (es: seq<Emit<Value>>)
    requires v.off + HeaderLen(v.node) <= |p|
    ensures FitTables(es, KID_WIDTHS)
  {
    match v.node
    case Routing =>
      SegmentRecords(pid, order, p, Segments(p, v.off)) + OptionRecords(pid, CONTAINER_SRH, SrhTlvs(p, v.off))
    case HopByHop => OptionRecords(pid, CONTAINER_HOP_BY_HOP, ExtOptions(p, v.off))
    case DestOpt => OptionRecords(pid, CONTAINER_DEST_OPT, ExtOptions(p, v.off))
    case _ => []
  }

  ghost predicate AllFit(p: seq<byte>, vs: seq<Visit>) {
    forall i :: 0 <= i < |vs| ==> Fits(p, vs[i].node, vs[i].off)
  }

  function NextOrder(order: nat, n: Node): nat { if n == Routing then (order + 1) % 256 else order }

  /** The child rows of a walk, from a given SRH order on. */
  ghost function KidsFrom(pid: nat, order: nat, p: seq<byte>, vs: seq<Visit>): (es: seq<Emit<Value>>)
    requires AllFit(p, vs)
    ensures FitTables(es, KID_WIDTHS)
    decreases |vs|
  {
    if vs == [] then []
    else VisitKids(pid, order, p, vs[0]) + KidsFrom(pid, NextOrder(order, vs[0].node), p, vs[1..])
  }

  ghost function Ipv6Kids(pid: nat, p: seq<byte>, root: Node): (es: seq<Emit<Value>>)
    ensures FitTables(es, KID_WIDTHS)
  {
    KidsFrom(pid, 0, p, Visits(p, root))
  }

  /** The serial add of a segment: one value per column. */
  method AddSegments(pid: nat, order: nat, p: seq<byte>, segs: seq<Segment>) returns (es: seq<Emit<Value>>)
    requires forall i :: 0 <= i < |segs| ==> segs[i].at + 16 <= |p|
    ensures es == SegmentRecords(pid, order, p, segs)
  {
    es := [];
    for i := 0 to |segs|
      invariant es == SegmentRecords(pid, order, p, segs)[..i]
    {
      var address := p[segs[i].at..segs[i].at + 16];
      es := es + [Emit(SEGMENTS, [Num(pid), Num(order), Num(segs[i].index), Raw(address)])];
    }
  }

  method AddOptions(pid: nat, container: nat, rs: seq<Record>) returns (es: seq<Emit<Value>>)
    ensures es == OptionRecords(pid, container, rs)
  {
    es := [];
    for i := 0 to |rs|
      invariant es == OptionRecords(pid, container, rs)[..i]
    {
      es := es + [Emit(OPTIONS, [Num(pid), Num(container), Num(rs[i].kind), Num(rs[i].length)])];
    }
  }

  /** Emit one visited header's children. */
  method EmitKids(pid: nat, order: nat, p: seq<byte>, v: Visit) returns (es: seq<Emit<Value>>)
    requires v.off + HeaderLen(v.node) <= |p|
    ensures es == VisitKids(pid, order, p, v)
  {
    hide ReadUnsigned, Records, SegmentRecords, OptionRecords, SegmentCount;
    es := [];
    if v.node == Routing {
      var segs, tlvs := ForEachSrhChild(p, v.off);
      var head := AddSegments(pid, order, p, segs);
      var tail := AddOptions(pid, CONTAINER_SRH, tlvs);
      es := head + tail;
    } else if v.node == HopByHop {
      var opts := ForEachOpt(p, v.off);
      es := AddOptions(pid, CONTAINER_HOP_BY_HOP, opts);
    } else if v.node == DestOpt {
      var opts := ForEachOpt(p, v.off);
      es := AddOptions(pid, CONTAINER_DEST_OPT, opts);
    }
  }

  lemma KidsStep(pid: nat, order: nat, p: seq<byte>, vs: seq<Visit>, i: nat, head: seq<Emit<Value>>)
    requires AllFit(p, vs) && i < |vs|
    ensures head + KidsFrom(pid, order, p, vs[i..]) ==
            head + VisitKids(pid, order, p, vs[i]) + KidsFrom(pid, NextOrder(order, vs[i].node), p, vs[i + 1..])
  {
    hide VisitKids;
    assert vs[i..][1..] == vs[i + 1..] && vs[i..][0] == vs[i];
    var a, b := VisitKids(pid, order, p, vs[i]), KidsFrom(pid, NextOrder(order, vs[i].node), p, vs[i + 1..]);
    assert KidsFrom(pid, order, p, vs[i..]) == a + b;
    assert head + (a + b) == head + a + b;
  }

  /** The children of one packet, in a single walk. */
  method CollectKids(pid: nat, p: seq<byte>, root: Node) returns (es: seq<Emit<Value>>)
    ensures es == Ipv6Kids(pid, p, root)
  {
    hide Trace, VisitKids, KidsFrom, HeaderLen;
    var vs, _ := Walk(p, root);
    es := [];
    var order := 0;
    assert vs[0..] == vs;
    for i := 0 to |vs|
      invariant Ipv6Kids(pid, p, root) == es + KidsFrom(pid, order, p, vs[i..])
    {
      KidsStep(pid, order, p, vs, i, es);
      var kids := EmitKids(pid, order, p, vs[i]);
      es := es + kids;
      order := NextOrder(order, vs[i].node);
    }
    NoKids(pid, order, p);
    assert vs[|vs|..] == [];
  }

  lemma NoKids(pid: nat, order: nat, p: seq<byte>)
    ensures KidsFrom(pid, order, p, []) == []
  {
  }

  // ---- serial and bulk --------------------------------------------------------------------------------

  /** Node rows and child rows of one packet, appended in one pass. */
  method DagDecodeWithChildren(pid: nat, p: seq<byte>, tabs: TableSet<Value>, kids: TableSet<Value>, root: Node)
    requires tabs.Valid() && tabs.widths == DagWidths() && kids.Valid() && kids.widths == KID_WIDTHS && tabs != kids
    modifies tabs, kids
    ensures tabs.Valid() && tabs.cols == Appended(old(tabs.cols), DagRecords(pid, p, root), tabs.widths)
    ensures kids.Valid() && kids.cols == Appended(old(kids.cols), Ipv6Kids(pid, p, root), kids.widths)
  {
    DagDecodePacket(pid, p, tabs, root);
    var es := CollectKids(pid, p, root);
    kids.AppendAll(es);
  }

  ghost function KidStream(pkts: seq<DagPacket>, root: Node): (s: seq<seq<Emit<Value>>>)
    ensures |s| == |pkts|
    ensures forall k :: 0 <= k < |pkts| ==> s[k] == Ipv6Kids(pkts[k].pid, pkts[k].data, root)
    ensures forall k :: 0 <= k < |pkts| ==> FitTables(s[k], KID_WIDTHS)
    ensures FitTables(Flat(s), KID_WIDTHS)
  {
    var s := seq(|pkts|, k requires 0 <= k < |pkts| => Ipv6Kids(pkts[k].pid, pkts[k].data, root));
    FlatFits(s, KID_WIDTHS);
    s
  }

  // ---- SRH order --------------------------------------------------------------------------------------

  function RoutingCount(vs: seq<Visit>): nat {
    if vs == [] then 0 else RoutingCount(vs[..|vs| - 1]) + if vs[|vs| - 1].node == Routing then 1 else 0
  }

  lemma {:induction false} RoutingCountBound(vs: seq<Visit>)
    ensures RoutingCount(vs) <= |vs|
  {
    if vs != [] {
      RoutingCountBound(vs[..|vs| - 1]);
    }
  }

  /** The order the loop has reached after the first i visits. */
  function OrderAt(vs: seq<Visit>, i: nat): nat
    requires i <= |vs|
  {
    if i == 0 then 0 else NextOrder(OrderAt(vs, i - 1), vs[i - 1].node)
  }

  /** Each SRH is numbered by the SRHs before it in the packet: 0, 1, 2, ... without wrapping. */
  lemma {:induction false} OrdersCountHeaders(p: seq<byte>, root: Node, i: nat)
    requires i <= |Visits(p, root)|
    ensures OrderAt(Visits(p, root), i) == RoutingCount(Visits(p, root)[..i])
  {
    hide Trace;
    var vs := Visits(p, root);
    if i > 0 {
      OrdersCountHeaders(p, root, i - 1);
      assert vs[..i][..i - 1] == vs[..i - 1];
      RoutingCountBound(vs[..i - 1]);
    }
  }

  /** The child rows described without a running counter: each visit's own rows, its SRH order being the number
      of SRHs visited before it. */
  ghost function KidsByVisit(pid: nat, p: seq<byte>, vs: seq<Visit>, i: nat): seq<Emit<Value>>
    requires AllFit(p, vs) && i <= |vs|
  {
    if i == 0 then []
    else KidsByVisit(pid, p, vs, i - 1) + VisitKids(pid, RoutingCount(vs[..i - 1]), p, vs[i - 1])
  }

  lemma {:induction false} KidsSplit(pid: nat, p: seq<byte>, root: Node, i: nat)
    requires i <= |Visits(p, root)|
    ensures var vs := Visits(p, root);
      Ipv6Kids(pid, p, root) == KidsByVisit(pid, p, vs, i) + KidsFrom(pid, OrderAt(vs, i), p, vs[i..])
  {
    hide Trace, VisitKids, KidsFrom;
    var vs := Visits(p, root);
    if i == 0 {
      assert vs[0..] == vs;
      assert Ipv6Kids(pid, p, root) == [] + KidsFrom(pid, OrderAt(vs, 0), p, vs[0..]);
    } else {
      KidsSplit(pid, p, root, i - 1);
      OrdersCountHeaders(p, root, i - 1);
      KidsStep(pid, OrderAt(vs, i - 1), p, vs, i - 1, KidsByVisit(pid, p, vs, i - 1));
    }
  }

  /** What the walk emits is exactly that description. */
  lemma KidsAreByVisit(pid: nat, p: seq<byte>, root: Node)
    ensures Ipv6Kids(pid, p, root) == KidsByVisit(pid, p, Visits(p, root), |Visits(p, root)|)
  {
    hide Trace, VisitKids, KidsFrom, KidsByVisit;
    var vs := Visits(p, root);
    KidsSplit(pid, p, root, |vs|);
    NoKids(pid, OrderAt(vs, |vs|), p);
    assert vs[|vs|..] == [];
  }

  // ---- the count walk ---------------------------------------------------------------------------------

  lemma SegmentTabs(pid: nat, order: nat, p: seq<byte>, segs: seq<Segment>)
    requires forall i :: 0 <= i < |segs| ==> segs[i].at + 16 <= |p|
    ensures forall i :: 0 <= i < |segs| ==> SegmentRecords(pid, order, p, segs)[i].tab == SEGMENTS
  {
  }

  lemma OptionTabs(pid: nat, container: nat, rs: seq<Record>)
    ensures forall i :: 0 <= i < |rs| ==> OptionRecords(pid, container, rs)[i].tab == OPTIONS
  {
  }

  function SegmentVisits(p: seq<byte>, v: Visit): nat
    requires v.off + HeaderLen(v.node) <= |p|
  {
    if v.node == Routing then |Segments(p, v.off)| else 0
  }

  function OptionVisits(p: seq<byte>, v: Visit): nat
    requires v.off + HeaderLen(v.node) <= |p|
  {
    match v.node
    case Routing => |SrhTlvs(p, v.off)|
    case HopByHop => |ExtOptions(p, v.off)|
    case DestOpt => |ExtOptions(p, v.off)|
    case _ => 0
  }

  /** A header adds a row per segment and a row per option. */
  lemma VisitCounts(pid: nat, order: nat, p: seq<byte>, v: Visit)
    requires v.off + HeaderLen(v.node) <= |p|
    ensures Count(VisitKids(pid, order, p, v), SEGMENTS) == SegmentVisits(p, v)
    ensures Count(VisitKids(pid, order, p, v), OPTIONS) == OptionVisits(p, v)
  {
    hide Segments, SrhTlvs, ExtOptions, SegmentRecords, OptionRecords, Count;
    NoCounts();
    if v.node == Routing {
      var a := SegmentRecords(pid, order, p, Segments(p, v.off));
      var b := OptionRecords(pid, CONTAINER_SRH, SrhTlvs(p, v.off));
      SegmentTabs(pid, order, p, Segments(p, v.off));
      OptionTabs(pid, CONTAINER_SRH, SrhTlvs(p, v.off));
      CountConcat(a, b, SEGMENTS);
      CountConcat(a, b, OPTIONS);
      OneTableCount(a, SEGMENTS);
      OneTableCount(b, OPTIONS);
      NoneCount(a, OPTIONS);
      NoneCount(b, SEGMENTS);
    } else if v.node == HopByHop || v.node == DestOpt {
      var container := if v.node == HopByHop then CONTAINER_HOP_BY_HOP else CONTAINER_DEST_OPT;
      var b := OptionRecords(pid, container, ExtOptions(p, v.off));
      OptionTabs(pid, container, ExtOptions(p, v.off));
      OneTableCount(b, OPTIONS);
      NoneCount(b, SEGMENTS);
    }
  }

  lemma NoCounts()
    ensures Count<Value>([], SEGMENTS) == Count<Value>([], OPTIONS) == 0
  {
  }

  /** The count visitors of one header. */
  method CountVisit(p: seq<byte>, v: Visit) returns (segs: nat, opts: nat)
    requires v.off + HeaderLen(v.node) <= |p|
    ensures segs == SegmentVisits(p, v) && opts == OptionVisits(p, v)
  {
    hide ReadUnsigned, Records, Segments;
    segs, opts := 0, 0;
    if v.node == Routing {
      var ss, tlvs := ForEachSrhChild(p, v.off);
      segs, opts := |ss|, |tlvs|;
    } else if v.node == HopByHop || v.node == DestOpt {
      var os := ForEachOpt(p, v.off);
      opts := |os|;
    }
  }

  /** The count walk: two 32-bit counters, no rows. */
  method CountPacketIpv6Children(p: seq<byte>, root: Node, ghost pid: nat) returns (r: Counts)
    ensures CountsOf(r, Ipv6Kids(pid, p, root), 2)
  {
    hide Trace, VisitKids, Count, HeaderLen, Ipv6Kids, SegmentVisits, OptionVisits;
    var vs, _ := Walk(p, root);
    var seg, opt := 0, 0;
    NoCounts();
    for i := 0 to |vs|
      invariant seg == Count(KidsByVisit(pid, p, vs, i), SEGMENTS) % TWO_TO_THE_32
      invariant opt == Count(KidsByVisit(pid, p, vs, i), OPTIONS) % TWO_TO_THE_32
    {
      ghost var before, order := KidsByVisit(pid, p, vs, i), RoutingCount(vs[..i]);
      var segs, opts := CountVisit(p, vs[i]);
      VisitCounts(pid, order, p, vs[i]);
      assert KidsByVisit(pid, p, vs, i + 1) == before + VisitKids(pid, order, p, vs[i]);
      CountConcat(before, VisitKids(pid, order, p, vs[i]), SEGMENTS);
      CountConcat(before, VisitKids(pid, order, p, vs[i]), OPTIONS);
      ModStep(Count(before, SEGMENTS), segs);
      ModStep(Count(before, OPTIONS), opts);
      seg := CountVisits(seg, segs);
      opt := CountVisits(opt, opts);
    }
    KidsAreByVisit(pid, p, root);
    r := [seg, opt];
  }

  lemma ModStep(a: nat, n: nat)
    ensures (a % TWO_TO_THE_32 + n) % TWO_TO_THE_32 == (a + n) % TWO_TO_THE_32
  {
  }

  // ---- the scatter walk -------------------------------------------------------------------------------

  /** The segment visitor: four stores per segment, each segment in the next row. */
  method ScatterSegments(pid: nat, order: nat, p: seq<byte>, segs: seq<Segment>, seg: nat, ghost opt: nat)
    returns (ws: seq<Write<Value>>, next: nat)
    requires forall i :: 0 <= i < |segs| ==> segs[i].at + 16 <= |p|
    ensures Reach(SegmentRecords(pid, order, p, segs), 2)
    ensures ws == PacketWrites(SegmentRecords(pid, order, p, segs), [seg, opt])
    ensures CursorsAfter(SegmentRecords(pid, order, p, segs), [seg, opt]) == [next, opt]
  {
    hide KernelAt, PacketWrites, CursorsAfter;
    ghost var rows, base := SegmentRecords(pid, order, p, segs), [seg, opt];
    SegmentTabs(pid, order, p, segs);
    ws, next := [], seg;
    KernelStarts(rows, base);
    for i := 0 to |segs|
      invariant KernelAt(rows, i, base, ws, [next, opt])
    {
      var address := p[segs[i].at..segs[i].at + 16];
      var row := [
        Write(SEGMENTS, 0, next, Num(pid)), Write(SEGMENTS, 1, next, Num(order)),
        Write(SEGMENTS, 2, next, Num(segs[i].index)), Write(SEGMENTS, 3, next, Raw(address))];
      assert row == RowWrites(rows[i], next);
      KernelSteps(rows, i, base, ws, [next, opt], row);
      assert Bump([next, opt], SEGMENTS) == [Add32(next, 1), opt];
      ws, next := ws + row, Add32(next, 1);
    }
    KernelEnds(rows, base, ws, [next, opt]);
  }

  /** The option visitor: four stores per option. */
  method ScatterOptions(pid: nat, container: nat, rs: seq<Record>, ghost seg: nat, opt: nat)
    returns (ws: seq<Write<Value>>, next: nat)
    ensures Reach(OptionRecords(pid, container, rs), 2)
    ensures ws == PacketWrites(OptionRecords(pid, container, rs), [seg, opt])
    ensures CursorsAfter(OptionRecords(pid, container, rs), [seg, opt]) == [seg, next]
  {
    hide KernelAt, PacketWrites, CursorsAfter;
    ghost var rows, base := OptionRecords(pid, container, rs), [seg, opt];
    OptionTabs(pid, container, rs);
    ws, next := [], opt;
    KernelStarts(rows, base);
    for i := 0 to |rs|
      invariant KernelAt(rows, i, base, ws, [seg, next])
    {
      var row := [
        Write(OPTIONS, 0, next, Num(pid)), Write(OPTIONS, 1, next, Num(container)),
        Write(OPTIONS, 2, next, Num(rs[i].kind)), Write(OPTIONS, 3, next, Num(rs[i].length))];
      assert row == RowWrites(rows[i], next);
      KernelSteps(rows, i, base, ws, [seg, next], row);
      assert Bump([seg, next], OPTIONS) == [seg, Add32(next, 1)];
      ws, next := ws + row, Add32(next, 1);
    }
    KernelEnds(rows, base, ws, [seg, next]);
  }

  method ScatterVisit(pid: nat, order: nat, p: seq<byte>, v: Visit, seg: nat, opt: nat)
    returns (ws: seq<Write<Value>>, seg': nat, opt': nat)
    requires v.off + HeaderLen(v.node) <= |p|
    ensures Reach(VisitKids(pid, order, p, v), 2) && ws == PacketWrites(VisitKids(pid, order, p, v), [seg, opt])
    ensures CursorsAfter(VisitKids(pid, order, p, v), [seg, opt]) == [seg', opt']
  {
    hide ReadUnsigned, Records, SegmentRecords, OptionRecords, PacketWrites, CursorsAfter, SegmentCount;
    ws, seg', opt' := [], seg, opt;
    if v.node == Routing {
      var segs, tlvs := ForEachSrhChild(p, v.off);
      var head, tail;
      head, seg' := ScatterSegments(pid, order, p, segs, seg, opt);
      tail, opt' := ScatterOptions(pid, CONTAINER_SRH, tlvs, seg', opt);
      WritesConcat(SegmentRecords(pid, order, p, segs), OptionRecords(pid, CONTAINER_SRH, tlvs), [seg, opt]);
      ws := head + tail;
    } else if v.node == HopByHop {
      var opts := ForEachOpt(p, v.off);
      ws, opt' := ScatterOptions(pid, CONTAINER_HOP_BY_HOP, opts, seg, opt);
    } else if v.node == DestOpt {
      var opts := ForEachOpt(p, v.off);
      ws, opt' := ScatterOptions(pid, CONTAINER_DEST_OPT, opts, seg, opt);
    } else {
      NoWrites<Value>([seg, opt]);
    }
  }

  /** The scatter walk: two cursors from the packet's bases, and the 8-bit count of routing headers. */
  method ScatterPacketIpv6Children(pid: nat, p: seq<byte>, root: Node, base: Counts) returns (ws: seq<Write<Value>>)
    requires |base| == 2
    ensures Reach(Ipv6Kids(pid, p, root), 2) && ws == PacketWrites(Ipv6Kids(pid, p, root), base)
  {
    hide Trace, VisitKids, PacketWrites, CursorsAfter, HeaderLen, Ipv6Kids;
    var vs, _ := Walk(p, root);
    var seg, opt, order := base[0], base[1], 0;
    ws := [];
    NoWrites<Value>(base);
    for i := 0 to |vs|
      invariant order == OrderAt(vs, i)
      invariant Reach(KidsByVisit(pid, p, vs, i), 2) && ws == PacketWrites(KidsByVisit(pid, p, vs, i), base)
      invariant CursorsAfter(KidsByVisit(pid, p, vs, i), base) == [seg, opt]
    {
      ghost var before := KidsByVisit(pid, p, vs, i);
      OrdersCountHeaders(p, root, i);
      var more, s, o := ScatterVisit(pid, order, p, vs[i], seg, opt);
      WritesConcat(before, VisitKids(pid, order, p, vs[i]), base);
      ws, seg, opt := ws + more, s, o;
      order := NextOrder(order, vs[i].node);
    }
    KidsAreByVisit(pid, p, root);
  }

  /** Bulk: a count walk, the scan, the resize and a scatter walk; both child tables, grown together, end as if every
      packet's children had been appended in order. */
  method Ipv6ChildrenBulk(pkts: seq<DagPacket>, kids: TableSet<Value>, root: Node, ex: Executor)
    requires kids.Valid() && kids.widths == KID_WIDTHS
    requires TotalsFit(kids.cols, Flat(KidStream(pkts, root))) && ExecutorFits(ex, Min(|pkts|, 64), |pkts|)
    modifies kids
    ensures kids.Valid() && kids.cols == Appended(old(kids.cols), Flat(KidStream(pkts, root)), KID_WIDTHS)
  {
    hide Ipv6Kids, Appended, Running, CountsOf, PacketWrites, RunsEachOnce, WorkOf, Resized;
    ghost var stream := KidStream(pkts, root);
    var np := |pkts|;
    var per := [];
    for k := 0 to np
      invariant kids.Valid() && kids.cols == old(kids.cols)
      invariant |per| == k && forall j :: 0 <= j < k ==> CountsOf(per[j], stream[j], 2)
    {
      var c := CountPacketIpv6Children(pkts[k].data, root, pkts[k].pid);
      per := per + [c];
    }
    var base, run := ExclusiveScan(kids, per, stream);
    EveryExecutorRunsEachOnce(ex, Min(np, 64), np);
    ghost var job := Job(kids.cols, kids.widths, stream, WorkOf(ex, Min(np, 64), np), Num(0));
    kids.Resize(run, Num(0));
    var kernels := [];
    for k := 0 to np
      invariant kids.Valid() && kids.cols == Resized(job.start, Running(job.start, job.pkts), job.fill)
      invariant |kernels| == k && forall j :: 0 <= j < k ==> job.Reaches(j) && kernels[j] == WritesOf(job, j)
    {
      var ws := ScatterPacketIpv6Children(pkts[k].pid, pkts[k].data, root, base[k]);
      kernels := kernels + [ws];
    }
    ScatterAll(kids, kernels, ex, Min(np, 64), job);
    GoalIs(job);
  }

  /** For every partition and interleaving, exactly when no table reaches 2^32 rows. */
  lemma Ipv6BulkEqualsSerial(pkts: seq<DagPacket>, root: Node, job: Job<Value>, sched: seq<nat>)
    requires job.Valid() && job.widths == KID_WIDTHS && job.pkts == KidStream(pkts, root)
    requires Legal(Init(job), sched) && Finished(Run(Init(job), sched))
    ensures Run(Init(job), sched).tabs == Appended(job.start, Flat(KidStream(pkts, root)), KID_WIDTHS) <==>
            TotalsFit(job.start, Flat(KidStream(pkts, root)))
  {
    BulkEqualsSerial(job, sched);
  }
}
