/** The walk's dispatch on the bytes of each header: where it goes next, and how far. */
module WalkBytes {
  import opened Wire
  import opened ByteWords
  import opened WireSpec
  import opened Protocols
  import opened Dag
  import opened DagGrammar
  import opened FrameBytes
  import opened WalksAgree

  function ByEthertype(et: nat): Option<Node> {
    if et == 0x8100 || et == 0x88A8 then Some(Vlan)
    else if et == 0x0800 then Some(Ipv4)
    else if et == 0x86DD then Some(Ipv6)
    else if et == 0x88F7 then Some(Gptp)
    else None
  }

  function ByProtocol(proto: nat): Option<Node> {
    if proto == 6 then Some(Tcp) else if proto == 17 then Some(Udp) else None
  }

  function ByNextHeader(nh: nat): Option<Node> {
    if nh == 0 then Some(HopByHop)
    else if nh == 43 then Some(Routing)
    else if nh == 44 then Some(Fragment)
    else if nh == 51 then Some(Ah)
    else if nh == 60 then Some(DestOpt)
    else ByProtocol(nh)
  }

  /** Sync, Delay_Req, Pdelay_Req and Follow_Up carry a timestamp; the three responses also a port; 11 is Announce
      and 12 Signaling. */
  function ByMessageType(mt: nat): Option<Node> {
    if mt in {0, 1, 2, 8} then Some(PtpTimestampBody)
    else if mt in {3, 9, 10} then Some(PtpTsPortBody)
    else if mt == 11 then Some(PtpAnnounceBody)
    else if mt == 12 then Some(PtpSignalingBody)
    else None
  }

  /** The next header's node, read off the bytes. */
  function WireNext(p: seq<byte>, n: Node, off: nat): Option<Node>
    requires off + HeaderLen(n) <= |p|
  {
    match n
    case Eth => ByEthertype(B2(p, off + 12))
    case Vlan => ByEthertype(B2(p, off + 2))
    case Ipv4 => if B2(p, off + 6) % 0x2000 != 0 then None else ByProtocol(p[off + 9])
    case Ipv6 => ByNextHeader(p[off + 6])
    case Fragment => if B2(p, off + 2) >= 8 then None else ByNextHeader(p[off])
    case HopByHop => ByNextHeader(p[off])
    case Routing => ByNextHeader(p[off])
    case DestOpt => ByNextHeader(p[off])
    case Ah => ByNextHeader(p[off])
    case Tcp => if NamesSomeip(p, off) then Some(Someip) else None
    case Udp => if NamesSomeip(p, off) then Some(Someip) else None
    case Gptp => ByMessageType(p[off] % 16)
    case _ => None
  }

  /** The header's length, read off the bytes. */
  function WireLength(p: seq<byte>, n: Node, off: nat): nat
    requires off + HeaderLen(n) <= |p|
  {
    match n
    case Eth => 14
    case Vlan => 4
    case Ipv4 => if p[off] % 16 < 5 then 20 else 4 * ((p[off] % 16) as int)
    case Ipv6 => 40
    case Fragment => 8
    case HopByHop => 8 * ((p[off + 1] as int) + 1)
    case Routing => 8 * ((p[off + 1] as int) + 1)
    case DestOpt => 8 * ((p[off + 1] as int) + 1)
    case Ah => 4 * ((p[off + 1] as int) + 2)
    case Tcp => if p[off + 12] < 80 then 20 else 4 * ((p[off + 12] / 16) as int)
    case Udp => 8
    case Gptp => 34
    case PtpTimestampBody => 10
    case PtpTsPortBody => 20
    case PtpAnnounceBody => 30
    case PtpSignalingBody => 10
    case Someip => 16
  }

  lemma MessageTypes(mt: nat)
    ensures MatchEdges(mt, PTP_EDGES) == ByMessageType(mt)
  {
    TablesHaveDistinctKeys();
    MatchEdgesFinds(mt, PTP_EDGES);
    assert PTP_EDGES[0] == Edge(0, PtpTimestampBody) && PTP_EDGES[1] == Edge(8, PtpTimestampBody);
    assert PTP_EDGES[2] == Edge(1, PtpTimestampBody) && PTP_EDGES[3] == Edge(2, PtpTimestampBody);
    assert PTP_EDGES[4] == Edge(9, PtpTsPortBody) && PTP_EDGES[5] == Edge(3, PtpTsPortBody);
    assert PTP_EDGES[6] == Edge(10, PtpTsPortBody) && PTP_EDGES[7] == Edge(11, PtpAnnounceBody);
    assert PTP_EDGES[8] == Edge(12, PtpSignalingBody);
  }

  lemma GptpField(p: seq<byte>, off: nat)
    requires off + 34 <= |p|
    ensures ReadUnsigned(PTP_MESSAGE_TYPE, p, off) == p[off] % 16
  {
    WordIsBytes(p, off, 1);
    assert Pow2(0) == 1 && Pow2(4) == 16;
  }

  /** In every node, dispatch goes where the header's bytes say. */
  lemma NextOnTheWire(p: seq<byte>, n: Node, off: nat)
    requires off + HeaderLen(n) <= |p|
    ensures Next(p, n, off) == WireNext(p, n, off)
  {
    hide MatchEdges, ReadUnsigned, SomeipPortDispatch;
    match n
    case Eth =>
      LinkFields(p, off);
      WordIsBytes(p, off + 12, 2);
      EthertypeDispatch(B2(p, off + 12));
    case Vlan =>
      LinkFields(p, off);
      WordIsBytes(p, off + 2, 2);
      EthertypeDispatch(B2(p, off + 2));
    case Ipv4 =>
      Ipv4Fields(p, off);
      WordIsBytes(p, off + 6, 2);
      IpProtoDispatch(p[off + 9]);
    case Ipv6 =>
      Ipv6Fields(p, off);
      Ip6Targets(p[off + 6]);
    case Tcp => L4Next(p, n, off);
    case Udp => L4Next(p, n, off);
    case Gptp =>
      GptpField(p, off);
      MessageTypes(p[off] % 16);
    case PtpTimestampBody =>
    case PtpTsPortBody =>
    case PtpAnnounceBody =>
    case PtpSignalingBody =>
    case Someip =>
    case Fragment =>
      ExtensionFields(p, off);
      WordIsBytes(p, off + 2, 2);
      Ip6Targets(p[off]);
    case _ =>
      ExtensionFields(p, off);
      Ip6Targets(p[off]);
  }

  lemma LengthOnTheWire(p: seq<byte>, n: Node, off: nat)
    requires off + HeaderLen(n) <= |p|
    ensures Advance(p, n, off) == WireLength(p, n, off)
  {
    hide ReadUnsigned;
    match n
    case Ipv4 => Ipv4Fields(p, off);
    case Tcp =>
      TcpFields(p, off);
      WordIsBytes(p, off + 12, 2);
    case HopByHop => ExtensionFields(p, off);
    case Routing => ExtensionFields(p, off);
    case DestOpt => ExtensionFields(p, off);
    case Ah => ExtensionFields(p, off);
    case _ =>
  }

  /** A walk told on the bytes alone: it starts with an Ethernet header, each header fits and is followed by the one its
      bytes name, where its bytes say it ends, and the walk stops after 32 headers, or where no header is named, or
      where the named one does not fit. */
  ghost predicate IsWireWalk(p: seq<byte>, vs: seq<Visit>) {
    && |vs| <= 32
    && (forall i :: 0 <= i < |vs| ==> vs[i].off + HeaderLen(vs[i].node) <= |p|)
    && (vs == [] ==> |p| < 14)
    && (vs != [] ==> vs[0] == Visit(Eth, 0))
    && (forall i :: 0 < i < |vs| ==> FollowsOnTheWire(p, vs[i - 1], vs[i]))
    && (vs != [] && |vs| < 32 ==> EndsOnTheWire(p, vs[|vs| - 1]))
  }

  ghost predicate FollowsOnTheWire(p: seq<byte>, v: Visit, w: Visit)
    requires v.off + HeaderLen(v.node) <= |p|
  {
    WireNext(p, v.node, v.off) == Some(w.node) && w.off == v.off + WireLength(p, v.node, v.off)
  }

  ghost predicate EndsOnTheWire(p: seq<byte>, v: Visit)
    requires v.off + HeaderLen(v.node) <= |p|
  {
    match WireNext(p, v.node, v.off)
    case None => true
    case Some(m) => v.off + WireLength(p, v.node, v.off) + HeaderLen(m) > |p|
  }

  /** A visit sequence is the graph walk's exactly when it is the one the bytes tell. */
  lemma VisitsOnTheWire(p: seq<byte>, vs: seq<Visit>)
    ensures vs == Visits(p, Eth) <==> IsWireWalk(p, vs)
  {
    hide Next, Advance, WireNext, WireLength, Trace;
    VisitsAreTheWalk(p, Eth, vs);
    forall i | 0 <= i < |vs| && vs[i].off + HeaderLen(vs[i].node) <= |p|
      ensures Next(p, vs[i].node, vs[i].off) == WireNext(p, vs[i].node, vs[i].off)
      ensures Advance(p, vs[i].node, vs[i].off) == WireLength(p, vs[i].node, vs[i].off)
    {
      NextOnTheWire(p, vs[i].node, vs[i].off);
      LengthOnTheWire(p, vs[i].node, vs[i].off);
    }
  }

  /** A SOME/IP header follows a visited TCP or UDP header exactly when one of its ports is 30490, 16 bytes are left
      behind it, and it is not the 32nd header. */
  lemma SomeipIsVisitedExactly(p: seq<byte>, i: nat)
    requires i < |Visits(p, Eth)| && IsL4(Visits(p, Eth)[i].node)
    ensures var vs := Visits(p, Eth);
      var v, e := vs[i], vs[i].off + WireLength(p, vs[i].node, vs[i].off);
      && v.off + 4 <= |p|
      && (i + 1 < |vs| ==> vs[i + 1] == Visit(Someip, e))
      && (i + 1 < |vs| <==> i + 1 < 32 && NamesSomeip(p, v.off) && e + 16 <= |p|)
  {
    hide Trace, WireLength;
    var vs := Visits(p, Eth);
    VisitsOnTheWire(p, vs);
    if i + 1 < |vs| {
      assert FollowsOnTheWire(p, vs[i], vs[i + 1]);
    }
  }
}
