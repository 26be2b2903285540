/** The six header tables of the hand-written decoder: one shot, staged by layer, and bulk over a window. */
module PacketTables {
  import opened Wire
  import opened WireSpec
  import opened Dag
  import opened DagGrammar
  import opened PacketWalk
  import opened WalksAgree
  import opened Tables
  import opened Bulk
  import opened Scatter
  import opened BulkDecode

  /** packet_id and the header's bytes, for ethernet, vlan, ipv4, ipv6, tcp and udp. */
  const PDU_WIDTHS: seq<nat> := [2, 2, 2, 2, 2, 2]

  function PduTable(n: Node): nat
    requires IsShared(n)
  {
    NodeId(n)
  }

  ghost predicate PduVisit(p: seq<byte>, v: Visit) { IsShared(v.node) && Fits(p, v.node, v.off) }

  ghost predicate PduVisits(p: seq<byte>, vs: seq<Visit>) { forall i :: 0 <= i < |vs| ==> PduVisit(p, vs[i]) }

  function PduRecord(pid: nat, p: seq<byte>, v: Visit): (e: Emit<Value>)
    requires PduVisit(p, v)
    ensures FitsTable(e, PDU_WIDTHS)
  {
    Emit(PduTable(v.node), [Num(pid), Raw(p[v.off..v.off + HeaderLen(v.node)])])
  }

  function PduRecords(pid: nat, p: seq<byte>, vs: seq<Visit>): (es: seq<Emit<Value>>)
    requires PduVisits(p, vs)
    ensures |es| == |vs|
    ensures forall i :: 0 <= i < |vs| ==> es[i] == PduRecord(pid, p, vs[i])
    ensures FitTables(es, PDU_WIDTHS)
  {
    seq(|vs|, i requires 0 <= i < |vs| => PduRecord(pid, p, vs[i]))
  }

  lemma {:induction false} VlanStackVisits(p: seq<byte>, et: nat, off: nat)
    ensures PduVisits(p, VlanStack(p, et, off).visits)
    decreases |p| - off
  {
    if IsVlanType(et) && off + 4 <= |p| {
      VlanStackVisits(p, Host16(p, off + 2), off + 4);
    }
  }

  lemma LinkVisits(linkType: nat, p: seq<byte>)
    ensures PduVisits(p, LinkLayer(linkType, p).visits)
  {
    if linkType == LINK_TYPE_ETHERNET && 14 <= |p| {
      VlanStackVisits(p, Host16(p, 12), 14);
    }
  }

  lemma PacketVisitsArePdus(linkType: nat, p: seq<byte>)
    ensures PduVisits(p, PacketVisits(linkType, p))
  {
    hide LinkLayer, Host16;
    LinkVisits(linkType, p);
  }

  /** The records of a packet, in walk order. */
  ghost function PacketRecords(pid: nat, linkType: nat, p: seq<byte>): (es: seq<Emit<Value>>)
    ensures FitTables(es, PDU_WIDTHS)
  {
    PacketVisitsArePdus(linkType, p);
    PduRecords(pid, p, PacketVisits(linkType, p))
  }

  method AppendVisits(pid: nat, p: seq<byte>, vs: seq<Visit>, out: TableSet<Value>)
    requires out.Valid() && out.widths == PDU_WIDTHS && PduVisits(p, vs)
    modifies out
    ensures out.Valid() && out.cols == Appended(old(out.cols), PduRecords(pid, p, vs), PDU_WIDTHS)
  {
    hide PduVisit, Appended;
    ghost var es := PduRecords(pid, p, vs);
    AppendedNothing(out.cols, PDU_WIDTHS);
    assert es[..0] == [];
    for i := 0 to |vs|
      invariant out.Valid() && out.cols == Appended(old(out.cols), es[..i], PDU_WIDTHS)
    {
      assert es[..i + 1] == es[..i] + [es[i]];
      AppendedTwice(old(out.cols), es[..i], [es[i]], PDU_WIDTHS);
      out.Append(PduRecord(pid, p, vs[i]));
    }
    assert es[..|vs|] == es;
  }

  /** One-shot decode. */
  method DecodePacket(pid: nat, linkType: nat, p: seq<byte>, out: TableSet<Value>)
    requires out.Valid() && out.widths == PDU_WIDTHS
    modifies out
    ensures out.Valid() && out.cols == Appended(old(out.cols), PacketRecords(pid, linkType, p), PDU_WIDTHS)
  {
    var vs, _ := WalkPacket(linkType, p);
    PacketVisitsArePdus(linkType, p);
    AppendVisits(pid, p, vs, out);
  }

  // ---- staged decode: each stage sees the bytes from its own first byte on -----------------------------

  method DecodeL2(pid: nat, linkType: nat, bytes: seq<byte>, out: TableSet<Value>)
    returns (ok: bool, consumed: nat, nextEthertype: nat)
    requires out.Valid() && out.widths == PDU_WIDTHS
    modifies out
    ensures out.Valid() && PduVisits(bytes, LinkLayer(linkType, bytes).visits)
    ensures out.cols == Appended(old(out.cols), PduRecords(pid, bytes, LinkLayer(linkType, bytes).visits), PDU_WIDTHS)
    ensures ok == LinkLayer(linkType, bytes).end.ok
    ensures if ok then LinkLayer(linkType, bytes).end == LayerEnd(true, consumed, nextEthertype)
            else consumed == nextEthertype == 0
  {
    var l := WalkLink(linkType, bytes);
    LinkVisits(linkType, bytes);
    AppendVisits(pid, bytes, l.visits, out);
    if l.end.ok {
      return true, l.end.off, l.end.key;
    }
    return false, 0, 0;
  }

  /** A later fragment still reports its header length, with protocol 0, so that L4 decodes nothing. */
  method DecodeL3(pid: nat, ethertype: nat, bytes: seq<byte>, out: TableSet<Value>)
    returns (ok: bool, consumed: nat, nextProto: nat)
    requires out.Valid() && out.widths == PDU_WIDTHS
    modifies out
    ensures out.Valid() && PduVisits(bytes, NetworkLayer(bytes, ethertype, 0).visits)
    ensures out.cols ==
            Appended(old(out.cols), PduRecords(pid, bytes, NetworkLayer(bytes, ethertype, 0).visits), PDU_WIDTHS)
    ensures var l := NetworkLayer(bytes, ethertype, 0);
      && ok == (l.visits != [])
      && consumed == (if ok then l.end.off else 0)
      && nextProto == (if l.end.ok then l.end.key else 0)
  {
    hide Host16;
    var l := WalkNetwork(bytes, ethertype);
    AppendVisits(pid, bytes, l.visits, out);
    if l.visits == [] {
      return false, 0, 0;
    }
    return true, l.end.off, if l.end.ok then l.end.key else 0;
  }

  method DecodeL4(pid: nat, proto: nat, bytes: seq<byte>, out: TableSet<Value>)
    returns (ok: bool, consumed: nat, nextDisc: nat)
    requires out.Valid() && out.widths == PDU_WIDTHS
    modifies out
    ensures out.Valid() && PduVisits(bytes, TransportLayer(bytes, proto, 0).visits)
    ensures out.cols ==
            Appended(old(out.cols), PduRecords(pid, bytes, TransportLayer(bytes, proto, 0).visits), PDU_WIDTHS)
    ensures ok == TransportLayer(bytes, proto, 0).end.ok
    ensures if ok then TransportLayer(bytes, proto, 0).end == LayerEnd(true, consumed, nextDisc)
            else consumed == nextDisc == 0
  {
    hide Host16;
    var l := WalkTransport(bytes, proto);
    AppendVisits(pid, bytes, l.visits, out);
    if l.end.ok {
      return true, l.end.off, l.end.key;
    }
    return false, 0, 0;
  }

  /** A header read in a span has the same bytes as in the packet. */
  lemma RecordsRebased(pid: nat, p: seq<byte>, off: nat, vs: seq<Visit>)
    requires PduVisits(Subspan(p, off), vs)
    ensures PduVisits(p, Shift(vs, off))
    ensures PduRecords(pid, Subspan(p, off), vs) == PduRecords(pid, p, Shift(vs, off))
  {
    var span := Subspan(p, off);
    forall i | 0 <= i < |vs|
      ensures PduVisit(p, Shift(vs, off)[i])
      ensures PduRecord(pid, span, vs[i]) == PduRecord(pid, p, Shift(vs, off)[i])
    {
      var v, n := vs[i], HeaderLen(vs[i].node);
      assert PduVisit(span, v);
      assert span[v.off..v.off + n] == p[v.off + off..v.off + off + n];
    }
  }

  lemma RecordsConcat(pid: nat, p: seq<byte>, a: seq<Visit>, b: seq<Visit>)
    requires PduVisits(p, a) && PduVisits(p, b)
    ensures PduVisits(p, a + b)
    ensures PduRecords(pid, p, a + b) == PduRecords(pid, p, a) + PduRecords(pid, p, b)
  {
  }

  /** The tables hold, beyond their old rows, the records of these visits. */
  ghost predicate Hold(start: seq<seq<seq<Value>>>, cols: seq<seq<seq<Value>>>, pid: nat, p: seq<byte>,
                       vs: seq<Visit>)
  {
    Shaped(start, PDU_WIDTHS) && PduVisits(p, vs) && cols == Appended(start, PduRecords(pid, p, vs), PDU_WIDTHS)
  }

  /** A stage that decodes a span adds the same headers, seen from the packet. */
  lemma StageAdds(start: seq<seq<seq<Value>>>, cols: seq<seq<seq<Value>>>, pid: nat, p: seq<byte>, vs: seq<Visit>,
                  off: nat, ws: seq<Visit>)
    requires Hold(start, cols, pid, p, vs) && PduVisits(Subspan(p, off), ws)
    ensures Shaped(cols, PDU_WIDTHS)
    ensures Hold(start, Appended(cols, PduRecords(pid, Subspan(p, off), ws), PDU_WIDTHS), pid, p, vs + Shift(ws, off))
  {
    hide Appended, PduRecords, PduVisits;
    RecordsRebased(pid, p, off, ws);
    RecordsConcat(pid, p, vs, Shift(ws, off));
    AppendedTwice(start, PduRecords(pid, p, vs), PduRecords(pid, p, Shift(ws, off)), PDU_WIDTHS);
  }

  lemma HeldRecords(start: seq<seq<seq<Value>>>, cols: seq<seq<seq<Value>>>, pid: nat, linkType: nat, p: seq<byte>)
    requires Hold(start, cols, pid, p, PacketVisits(linkType, p))
    ensures Shaped(start, PDU_WIDTHS) && cols == Appended(start, PacketRecords(pid, linkType, p), PDU_WIDTHS)
  {
  }

  /** The one-shot walk, said with each layer seen from the span its predecessor left. */
  lemma StagesMeet(linkType: nat, p: seq<byte>)
    ensures var link := LinkLayer(linkType, p);
      if !link.end.ok then PacketVisits(linkType, p) == link.visits && PacketResult(linkType, p) == NO_L4
      else
        var off, span := link.end.off, Subspan(p, link.end.off);
        var net := NetworkLayer(span, link.end.key, 0);
        var two := link.visits + Shift(net.visits, off);
        if !net.end.ok then PacketVisits(linkType, p) == two && PacketResult(linkType, p) == NO_L4
        else
          var l4 := TransportLayer(Subspan(span, net.end.off), net.end.key, 0);
          && PacketVisits(linkType, p) == two + Shift(l4.visits, off + net.end.off)
          && PacketResult(linkType, p) ==
               if l4.end.ok then WalkResult(off + net.end.off + l4.end.off, l4.end.key, true) else NO_L4
  {
    hide LinkLayer, NetworkLayer, TransportLayer, Subspan, Shift;
    var link := LinkLayer(linkType, p);
    if link.end.ok {
      NetworkRebased(p, link.end.key, link.end.off);
      var net := NetworkLayer(Subspan(p, link.end.off), link.end.key, 0);
      SubspanTwice(p, link.end.off, net.end.off);
      TransportRebased(p, net.end.key, link.end.off + net.end.off);
    }
  }

  /** Staged decoding, each stage on the bytes its predecessor left, appends the rows of the one-shot decode; on
      reaching L4 the three lengths add up to its payload offset, with the same ports. */
  method DecodeStaged(pid: nat, linkType: nat, p: seq<byte>, out: TableSet<Value>)
    returns (reachedL4: bool, consumed: nat, ports: nat)
    requires out.Valid() && out.widths == PDU_WIDTHS
    modifies out
    ensures out.Valid() && out.cols == Appended(old(out.cols), PacketRecords(pid, linkType, p), PDU_WIDTHS)
    ensures WalkResult(consumed, ports, reachedL4) == PacketResult(linkType, p)
  {
    hide LinkLayer, NetworkLayer, TransportLayer, Appended, PduRecords, PduVisits, Hold, Subspan, Shift, PacketRecords,
         Shaped, PacketVisits, PacketResult;
    ghost var start := out.cols;
    StagesMeet(linkType, p);
    var ok2, c2, ethertype := DecodeL2(pid, linkType, p, out);
    ghost var seen := LinkLayer(linkType, p).visits;
    LinkHeld(start, pid, p, seen);
    if !ok2 {
      HeldRecords(start, out.cols, pid, linkType, p);
      return false, 0, 0;
    }
    var span3 := Subspan(p, c2);
    ghost var cols, net := out.cols, NetworkLayer(span3, ethertype, 0).visits;
    NetworkEnds(span3, ethertype);
    var ok3, c3, proto := DecodeL3(pid, ethertype, span3, out);
    StageAdds(start, cols, pid, p, seen, c2, net);
    seen := seen + Shift(net, c2);
    if !ok3 {
      HeldRecords(start, out.cols, pid, linkType, p);
      return false, 0, 0;
    }
    var span4 := Subspan(span3, c3);
    SubspanTwice(p, c2, c3);
    NoTransport(span4);
    NoShift(c2 + c3);
    cols := out.cols;
    ghost var l4 := TransportLayer(span4, proto, 0).visits;
    var ok4, c4, disc := DecodeL4(pid, proto, span4, out);
    StageAdds(start, cols, pid, p, seen, c2 + c3, l4);
    assert l4 == [] ==> seen + Shift(l4, c2 + c3) == seen;
    HeldRecords(start, out.cols, pid, linkType, p);
    if !ok4 {
      return false, 0, 0;
    }
    return true, c2 + c3 + c4, disc;
  }

  lemma LinkHeld(start: seq<seq<seq<Value>>>, pid: nat, p: seq<byte>, link: seq<Visit>)
    requires Shaped(start, PDU_WIDTHS) && PduVisits(p, link)
    ensures Hold(start, Appended(start, PduRecords(pid, p, link), PDU_WIDTHS), pid, p, link)
  {
  }

  lemma SubspanTwice(p: seq<byte>, a: nat, b: nat)
    ensures Subspan(Subspan(p, a), b) == Subspan(p, a + b)
  {
  }

  lemma NoShift(off: nat)
    ensures Shift([], off) == []
  {
  }

  lemma NetworkEnds(span: seq<byte>, et: nat)
    ensures var l := NetworkLayer(span, et, 0); l.visits == [] ==> !l.end.ok
  {
  }

  /** Protocol 0 is no transport. */
  lemma NoTransport(span: seq<byte>)
    ensures TransportLayer(span, 0, 0) == Layer([], LayerEnd(false, 0, 0))
  {
  }

  // ---- bulk decode of a window ------------------------------------------------------------------------

  /** Where a packet lies in the window, and its link type. */
  datatype PacketRef = PacketRef(linkType: nat, offset: nat, size: nat)

  /** The source's test: a 64-bit sum against the window's size. */
  predicate InWindow(window: seq<byte>, r: PacketRef) { (r.offset + r.size) % TWO_TO_THE_64 <= |window| }

  /** The test accepts exactly the packets that lie in the window, unless the sum wraps to a small value: then it
      accepts a packet that does not. */
  lemma InWindowExactly(window: seq<byte>, r: PacketRef)
    requires |window| < TWO_TO_THE_64 && r.offset < TWO_TO_THE_64 && r.size < TWO_TO_THE_32
    ensures (InWindow(window, r) <==> r.offset + r.size <= |window|) <==>
            !(TWO_TO_THE_64 <= r.offset + r.size <= TWO_TO_THE_64 + |window|)
  {
  }

  /** A packet that does not lie in the window decodes as an empty one. */
  function PacketBytes(window: seq<byte>, r: PacketRef): seq<byte> {
    if r.offset + r.size <= |window| then window[r.offset..r.offset + r.size] else []
  }

  /** A 64-bit offset and a 32-bit size whose sum does not wrap into the window. */
  predicate RefFits(window: seq<byte>, r: PacketRef) {
    && r.offset < TWO_TO_THE_64 && r.size < TWO_TO_THE_32
    && !(TWO_TO_THE_64 <= r.offset + r.size <= TWO_TO_THE_64 + |window|)
  }

  predicate RefsFit(window: seq<byte>, refs: seq<PacketRef>) {
    forall i :: 0 <= i < |refs| ==> RefFits(window, refs[i])
  }

  /** The bytes a kernel looks at. */
  method BytesOf(window: seq<byte>, r: PacketRef) returns (p: seq<byte>)
    requires |window| < TWO_TO_THE_64 && RefFits(window, r)
    ensures p == PacketBytes(window, r)
  {
    InWindowExactly(window, r);
    p := [];
    if InWindow(window, r) {
      p := window[r.offset..r.offset + r.size];
    }
  }

  ghost function WindowStream(pidBase: nat, window: seq<byte>, refs: seq<PacketRef>): (s: seq<seq<Emit<Value>>>)
    ensures |s| == |refs|
    ensures forall i :: 0 <= i < |refs| ==>
      s[i] == PacketRecords(pidBase + i, refs[i].linkType, PacketBytes(window, refs[i]))
    ensures forall i :: 0 <= i < |refs| ==> FitTables(s[i], PDU_WIDTHS)
    ensures FitTables(Flat(s), PDU_WIDTHS)
  {
    var s := seq(|refs|, i requires 0 <= i < |refs| =>
                   PacketRecords(pidBase + i, refs[i].linkType, PacketBytes(window, refs[i])));
    FlatFits(s, PDU_WIDTHS);
    s
  }

  function Indices(n: nat): (s: set<nat>)
    ensures forall i: nat :: i in s <==> i < n
  {
    if n == 0 then {} else Indices(n - 1) + {n - 1}
  }

  /** The count visitors: one 32-bit counter per table. */
  method CountHeaders(vs: seq<Visit>, ghost es: seq<Emit<Value>>) returns (r: Counts)
    requires |es| == |vs| && forall i :: 0 <= i < |vs| ==> IsShared(vs[i].node) && es[i].tab == NodeId(vs[i].node) < 6
    ensures CountsOf(r, es, 6)
  {
    hide NodeId, Count;
    CountStarts(es);
    var c := new nat[6](_ => 0);
    for i := 0 to |vs|
      invariant forall t :: 0 <= t < 6 ==> c[t] == Count(es[..i], t) % TWO_TO_THE_32
    {
      CountSteps(es, i);
      var t := PduTable(vs[i].node);
      c[t] := Add32(c[t], 1);
    }
    assert es[..|vs|] == es;
    r := c[..];
  }

  /** Counting a packet's headers; the packet id does not matter. */
  method CountPacket(linkType: nat, p: seq<byte>, ghost pid: nat) returns (r: Counts)
    ensures CountsOf(r, PacketRecords(pid, linkType, p), 6)
  {
    hide PacketVisits, PduRecord, PduRecords, CountsOf, PduVisits, NodeId;
    var vs, _ := WalkPacket(linkType, p);
    RecordsAreVisits(pid, linkType, p);
    PduTabs(pid, p, vs);
    r := CountHeaders(vs, PduRecords(pid, p, vs));
  }

  lemma PduTabs(pid: nat, p: seq<byte>, vs: seq<Visit>)
    requires PduVisits(p, vs)
    ensures Reach(PduRecords(pid, p, vs), 6)
    ensures forall i :: 0 <= i < |vs| ==>
      IsShared(vs[i].node) && PduRecords(pid, p, vs)[i].tab == NodeId(vs[i].node) < 6
  {
    forall i | 0 <= i < |vs|
      ensures IsShared(vs[i].node) && PduRecords(pid, p, vs)[i].tab == NodeId(vs[i].node) < 6
    {
      assert PduVisit(p, vs[i]);
    }
  }

  /** Store one header: the packet id and the copied header. */
  method StoreHeader(pid: nat, p: seq<byte>, v: Visit, slot: nat) returns (ws: seq<Write<Value>>)
    requires PduVisit(p, v)
    ensures ws == RowWrites(PduRecord(pid, p, v), slot)
  {
    var t := PduTable(v.node);
    ws := [Write(t, 0, slot, Num(pid)), Write(t, 1, slot, Raw(p[v.off..v.off + HeaderLen(v.node)]))];
  }

  /** The scatter visitors: each header takes its table's next row. */
  method ScatterHeaders(pid: nat, p: seq<byte>, vs: seq<Visit>, base: Counts) returns (ws: seq<Write<Value>>)
    requires |base| == 6 && PduVisits(p, vs)
    ensures Reach(PduRecords(pid, p, vs), 6) && ws == PacketWrites(PduRecords(pid, p, vs), base)
  {
    hide PduRecord, PduRecords, RowWrites, KernelAt, NodeId;
    var cur := new nat[6](i requires 0 <= i < |base| => base[i]);
    assert cur[..] == base;
    ghost var es := PduRecords(pid, p, vs);
    PduTabs(pid, p, vs);
    ws := [];
    KernelStarts(es, base);
    for i := 0 to |vs|
      invariant KernelAt(es, i, base, ws, cur[..])
    {
      assert PduVisit(p, vs[i]);
      var t := PduTable(vs[i].node);
      ghost var was := cur[..];
      var row := StoreHeader(pid, p, vs[i], cur[t]);
      KernelSteps(es, i, base, ws, was, row);
      ws := ws + row;
      cur[t] := Add32(cur[t], 1);
      assert cur[..] == Bump(was, t);
    }
    KernelEnds(es, base, ws, cur[..]);
  }

  /** The scatter walk also reports where the L4 payload starts. */
  method ScatterPacket(pid: nat, linkType: nat, p: seq<byte>, base: Counts)
    returns (ws: seq<Write<Value>>, w: WalkResult)
    requires |base| == 6
    ensures Reach(PacketRecords(pid, linkType, p), 6) && ws == PacketWrites(PacketRecords(pid, linkType, p), base)
    ensures w == PacketResult(linkType, p)
  {
    hide PacketVisits, PduRecord, PduRecords, PacketResult, PacketWrites, PduVisits;
    var vs;
    vs, w := WalkPacket(linkType, p);
    RecordsAreVisits(pid, linkType, p);
    ws := ScatterHeaders(pid, p, vs, base);
  }

  /** Pass 1, in any order: every packet's counts into its own slot. */
  method CountAll(window: seq<byte>, refs: seq<PacketRef>, ghost pidBase: nat) returns (per: seq<Counts>)
    requires |window| < TWO_TO_THE_64 && RefsFit(window, refs)
    ensures |per| == |refs|
    ensures forall i :: 0 <= i < |refs| ==> CountsOf(per[i], WindowStream(pidBase, window, refs)[i], 6)
  {
    hide PacketRecords, PacketBytes, CountsOf;
    var n := |refs|;
    ghost var stream := WindowStream(pidBase, window, refs);
    var slots := new Counts[n];
    var todo := Indices(n);
    while todo != {}
      invariant todo <= Indices(n)
      invariant forall i: nat :: i < n && i !in todo ==> CountsOf(slots[i], stream[i], 6)
      decreases |todo|
    {
      var i :| i in todo;
      todo := todo - {i};
      var p := BytesOf(window, refs[i]);
      slots[i] := CountPacket(refs[i].linkType, p, pidBase + i);
    }
    per := slots[..];
  }

  /** Pass 2, in any order: every packet is walked again; its kernel's writes, and its trailer. */
  method ScatterKernels(pidBase: nat, window: seq<byte>, refs: seq<PacketRef>, base: seq<Counts>,
                        trailers: array<WalkResult>)
    returns (kernels: seq<seq<Write<Value>>>)
    requires |window| < TWO_TO_THE_64 && RefsFit(window, refs) && trailers.Length == |base| == |refs|
    requires forall i :: 0 <= i < |base| ==> |base[i]| == 6
    modifies trailers
    ensures |kernels| == |refs|
    ensures forall i :: 0 <= i < |refs| ==>
      && Reach(WindowStream(pidBase, window, refs)[i], 6)
      && kernels[i] == PacketWrites(WindowStream(pidBase, window, refs)[i], base[i])
    ensures forall i :: 0 <= i < |refs| ==>
      trailers[i] == PacketResult(refs[i].linkType, PacketBytes(window, refs[i]))
  {
    hide PacketRecords, PacketBytes, PacketResult, PacketWrites, Reach;
    var n := |refs|;
    ghost var stream := WindowStream(pidBase, window, refs);
    var slots := new seq<Write<Value>>[n];
    var todo := Indices(n);
    while todo != {}
      invariant todo <= Indices(n)
      invariant forall i: nat :: i < n && i !in todo ==>
        && Reach(stream[i], 6) && slots[i] == PacketWrites(stream[i], base[i])
        && trailers[i] == PacketResult(refs[i].linkType, PacketBytes(window, refs[i]))
      decreases |todo|
    {
      var i :| i in todo;
      todo := todo - {i};
      var p := BytesOf(window, refs[i]);
      slots[i], trailers[i] := ScatterPacket(pidBase + i, refs[i].linkType, p, base[i]);
    }
    kernels := slots[..];
  }

  /** Two bulk passes around the scan, each walking every packet, with the kernels in any order and their writes in
      any interleaving. The tables end as if DecodePacket had run on every packet in order, and every trailer is its
      packet's walk result. */
  method DecodeWindow(pidBase: nat, window: seq<byte>, refs: seq<PacketRef>, out: TableSet<Value>,
                      trailers: array<WalkResult>, ex: Executor)
    requires out.Valid() && out.widths == PDU_WIDTHS && trailers.Length == |refs|
    requires |window| < TWO_TO_THE_64 && RefsFit(window, refs) && ExecutorFits(ex, Min(|refs|, 64), |refs|)
    requires TotalsFit(out.cols, Flat(WindowStream(pidBase, window, refs)))
    modifies out, trailers
    ensures out.Valid()
    ensures out.cols == Appended(old(out.cols), Flat(WindowStream(pidBase, window, refs)), PDU_WIDTHS)
    ensures forall i :: 0 <= i < |refs| ==>
      trailers[i] == PacketResult(refs[i].linkType, PacketBytes(window, refs[i]))
  {
    hide PacketRecords, PacketResult, PacketBytes, Appended, Running, CountsOf, PacketWrites, RunsEachOnce, WorkOf,
         Resized, RefsFit;
    var n := |refs|;
    if n == 0 {
      NoPackets(pidBase, window, out.cols);
      return;
    }
    ghost var stream := WindowStream(pidBase, window, refs);
    var per := CountAll(window, refs, pidBase);
    var base, run := ExclusiveScan(out, per, stream);
    EveryExecutorRunsEachOnce(ex, Min(n, 64), n);
    ghost var job := Job(out.cols, out.widths, stream, WorkOf(ex, Min(n, 64), n), Num(0));
    out.Resize(run, Num(0));
    var kernels := ScatterKernels(pidBase, window, refs, base, trailers);
    ScatterAll(out, kernels, ex, Min(n, 64), job);
    GoalIs(job);
  }

  lemma NoPackets(pidBase: nat, window: seq<byte>, cols: seq<seq<seq<Value>>>)
    requires Shaped(cols, PDU_WIDTHS)
    ensures Appended(cols, Flat(WindowStream(pidBase, window, [])), PDU_WIDTHS) == cols
  {
    assert WindowStream(pidBase, window, []) == [];
    AppendedNothing(cols, PDU_WIDTHS);
  }

  lemma RecordsAreVisits(pid: nat, linkType: nat, p: seq<byte>)
    ensures PduVisits(p, PacketVisits(linkType, p))
    ensures PacketRecords(pid, linkType, p) == PduRecords(pid, p, PacketVisits(linkType, p))
  {
    PacketVisitsArePdus(linkType, p);
  }

  /** Decoding a window's packets in two batches is decoding them in one: packet ids go on counting. */
  lemma BatchesCompose(start: seq<seq<seq<Value>>>, pidBase: nat, window: seq<byte>, a: seq<PacketRef>,
                        b: seq<PacketRef>)
    requires Shaped(start, PDU_WIDTHS)
    ensures Appended(Appended(start, Flat(WindowStream(pidBase, window, a)), PDU_WIDTHS),
                     Flat(WindowStream(pidBase + |a|, window, b)), PDU_WIDTHS)
         == Appended(start, Flat(WindowStream(pidBase, window, a + b)), PDU_WIDTHS)
  {
    hide PacketRecords, Appended;
    var first, second := WindowStream(pidBase, window, a), WindowStream(pidBase + |a|, window, b);
    assert WindowStream(pidBase, window, a + b) == first + second;
    FlatConcat(first, second);
    AppendedTwice(start, Flat(first), Flat(second), PDU_WIDTHS);
  }

  /** A packet as it is referred to when n bytes are put in front of its window. */
  function Moved(r: PacketRef, n: nat): PacketRef { r.(offset := r.offset + n) }

  function AllMoved(refs: seq<PacketRef>, n: nat): (s: seq<PacketRef>)
    ensures |s| == |refs| && forall i :: 0 <= i < |refs| ==> s[i] == Moved(refs[i], n)
  {
    seq(|refs|, i requires 0 <= i < |refs| => Moved(refs[i], n))
  }

  /** A packet that runs past window w, ends inside w + v, and has a header to decode. */
  predicate Straddles(r: PacketRef, w: seq<byte>, v: seq<byte>) {
    |w| < r.offset + r.size <= |w| + |v| && r.linkType == LINK_TYPE_ETHERNET && r.size >= 14
  }

  lemma MovedBytes(r: PacketRef, w: seq<byte>, v: seq<byte>)
    ensures PacketBytes(w + v, Moved(r, |w|)) == PacketBytes(v, r)
    ensures r.offset + r.size <= |w| ==> PacketBytes(w + v, r) == PacketBytes(w, r)
    ensures r.offset + r.size > |w| + |v| ==> PacketBytes(w + v, r) == PacketBytes(w, r)
  {
  }

  /** A packet has rows exactly when it is an Ethernet frame of at least 14 bytes; then one is in the Ethernet
      table. */
  lemma EthernetRows(pid: nat, linkType: nat, p: seq<byte>)
    ensures if linkType == LINK_TYPE_ETHERNET && |p| >= 14 then Count(PacketRecords(pid, linkType, p), 0) > 0
            else PacketRecords(pid, linkType, p) == []
  {
    hide VlanStack, NetworkLayer, TransportLayer, Count, Host16;
    if linkType == LINK_TYPE_ETHERNET && |p| >= 14 {
      assert PacketVisits(linkType, p)[0] == Visit(Eth, 0);
      CountFinds(PacketRecords(pid, linkType, p), 0, 0);
    }
  }

  /** More rows in some packet and fewer in none are more rows in all. */
  lemma {:induction false} FlatCounts(a: seq<seq<Emit<Value>>>, b: seq<seq<Emit<Value>>>, t: nat)
    requires |a| == |b| && forall i :: 0 <= i < |a| ==> Count(a[i], t) <= Count(b[i], t)
    ensures Count(Flat(a), t) <= Count(Flat(b), t)
    ensures (exists i :: 0 <= i < |a| && Count(a[i], t) < Count(b[i], t)) ==> Count(Flat(a), t) < Count(Flat(b), t)
  {
    hide Count;
    if a != [] {
      var n := |a| - 1;
      FlatCounts(a[..n], b[..n], t);
      CountConcat(Flat(a[..n]), a[n], t);
      CountConcat(Flat(b[..n]), b[n], t);
      assert forall i :: 0 <= i < n ==> a[..n][i] == a[i] && b[..n][i] == b[i];
    }
  }

  /** The records of the two windows' packets, as decoded window by window. */
  ghost function TwoWindows(pidBase: nat, w: seq<byte>, a: seq<PacketRef>, v: seq<byte>, b: seq<PacketRef>)
    : (s: seq<seq<Emit<Value>>>)
    ensures |s| == |a| + |b|
  {
    WindowStream(pidBase, w, a) + WindowStream(pidBase + |a|, v, b)
  }

  ghost function OneWindow(pidBase: nat, w: seq<byte>, a: seq<PacketRef>, v: seq<byte>, b: seq<PacketRef>)
    : (s: seq<seq<Emit<Value>>>)
    ensures |s| == |a| + |b|
  {
    WindowStream(pidBase, w + v, a + AllMoved(b, |w|))
  }

  lemma PacketsOfWindows(pidBase: nat, w: seq<byte>, a: seq<PacketRef>, v: seq<byte>, b: seq<PacketRef>, i: nat)
    requires i < |a| + |b|
    ensures var two, one := TwoWindows(pidBase, w, a, v, b)[i], OneWindow(pidBase, w, a, v, b)[i];
      if i < |a| && Straddles(a[i], w, v) then Count(two, 0) < Count(one, 0) else two == one
  {
    hide PacketRecords;
    if i < |a| {
      MovedBytes(a[i], w, v);
      EthernetRows(pidBase + i, a[i].linkType, PacketBytes(w, a[i]));
      EthernetRows(pidBase + i, a[i].linkType, PacketBytes(w + v, a[i]));
    } else {
      MovedBytes(b[i - |a|], w, v);
    }
  }

  /** Decoding one window and then the next, packet ids counting on, gives the tables of decoding both windows'
      bytes as one, the second window's packets moved behind the first, if and only if no Ethernet frame of the
      first window is cut by its end and completed by the second. */
  lemma WindowsComposeExactly(start: seq<seq<seq<Value>>>, pidBase: nat, w: seq<byte>, a: seq<PacketRef>,
                              v: seq<byte>, b: seq<PacketRef>)
    requires Shaped(start, PDU_WIDTHS)
    ensures Appended(Appended(start, Flat(WindowStream(pidBase, w, a)), PDU_WIDTHS),
                     Flat(WindowStream(pidBase + |a|, v, b)), PDU_WIDTHS)
         == Appended(start, Flat(WindowStream(pidBase, w + v, a + AllMoved(b, |w|))), PDU_WIDTHS)
       <==> forall i :: 0 <= i < |a| ==> !Straddles(a[i], w, v)
  {
    hide PacketRecords, Appended, Count, Flat, Straddles;
    var two, one := TwoWindows(pidBase, w, a, v, b), OneWindow(pidBase, w, a, v, b);
    var first, second := WindowStream(pidBase, w, a), WindowStream(pidBase + |a|, v, b);
    FlatConcat(first, second);
    AppendedTwice(start, Flat(first), Flat(second), PDU_WIDTHS);
    forall i | 0 <= i < |two|
      ensures if i < |a| && Straddles(a[i], w, v) then Count(two[i], 0) < Count(one[i], 0) else two[i] == one[i]
    {
      PacketsOfWindows(pidBase, w, a, v, b, i);
    }
    if i: nat :| i < |a| && Straddles(a[i], w, v) {
      assert Count(two[i], 0) < Count(one[i], 0);
      FlatCounts(two, one, 0);
    } else {
      assert two == one;
    }
  }
}
