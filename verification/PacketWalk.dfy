/** The hand-written decode walk: Ethernet, a VLAN stack, IPv4 or IPv6, then TCP or UDP. */
module PacketWalk {
  import opened Wire
  import opened Dag

  const LINK_TYPE_ETHERNET: nat := 1
  const ETHERTYPE_IPV4: nat := 0x0800
  const ETHERTYPE_IPV6: nat := 0x86DD
  const ETHERTYPE_VLAN: nat := 0x8100
  const ETHERTYPE_QINQ: nat := 0x88A8
  const IP_PROTO_TCP: nat := 6
  const IP_PROTO_UDP: nat := 17

  /** The host value of a big-endian word of the header structs. */
  function Host16(p: seq<byte>, off: nat): nat
    requires off + 2 <= |p|
  {
    WordAt(p, off, 2, true)
  }

  function Ipv4HeaderLen(p: seq<byte>, off: nat): nat
    requires off + 20 <= |p|
  {
    Max(p[off] % 16 * 4, 20)
  }

  function TcpHeaderLen(p: seq<byte>, off: nat): nat
    requires off + 20 <= |p|
  {
    Max(Host16(p, off + 12) / 4096 % 16 * 4, 20)
  }

  function PackPorts(src: nat, dst: nat): nat { src * 0x1_0000 + dst }

  predicate IsVlanType(et: nat) { et == ETHERTYPE_VLAN || et == ETHERTYPE_QINQ }

  datatype WalkResult = WalkResult(payloadOffset: nat, ports: nat, reachedL4: bool)

  const NO_L4: WalkResult := WalkResult(0, 0, false)

  // ---- the walk as functions, layer by layer ----------------------------------------------------------

  /** ok: the layer parsed; off: where the next layer starts; key: what selects it. */
  datatype LayerEnd = LayerEnd(ok: bool, off: nat, key: nat)

  datatype Layer = Layer(visits: seq<Visit>, end: LayerEnd)

  function VlanStack(p: seq<byte>, et: nat, off: nat): (l: Layer)
    ensures l.end.ok && off <= |p| ==> l.end.off <= |p|
    decreases |p| - off
  {
    if !IsVlanType(et) then Layer([], LayerEnd(true, off, et))
    else if off + 4 > |p| then Layer([], LayerEnd(false, off, et))
    else
      var rest := VlanStack(p, Host16(p, off + 2), off + 4);
      Layer([Visit(Vlan, off)] + rest.visits, rest.end)
  }

  function LinkLayer(linkType: nat, p: seq<byte>): (l: Layer)
    ensures l.end.ok ==> l.end.off <= |p|
  {
    if linkType != LINK_TYPE_ETHERNET || 14 > |p| then Layer([], LayerEnd(false, 0, 0))
    else
      var rest := VlanStack(p, Host16(p, 12), 14);
      Layer([Visit(Eth, 0)] + rest.visits, rest.end)
  }

  /** The network header at off; it does not lead to L4 when it is a later fragment. */
  function NetworkLayer(p: seq<byte>, et: nat, off: nat): Layer {
    if et == ETHERTYPE_IPV4 && off + 20 <= |p| then
      Layer([Visit(Ipv4, off)],
            LayerEnd(Host16(p, off + 6) % 0x2000 == 0, off + Ipv4HeaderLen(p, off), p[off + 9]))
    else if et == ETHERTYPE_IPV6 && off + 40 <= |p| then
      Layer([Visit(Ipv6, off)], LayerEnd(true, off + 40, p[off + 6]))
    else
      Layer([], LayerEnd(false, off, 0))
  }

  function TransportLayer(p: seq<byte>, proto: nat, off: nat): Layer {
    if proto == IP_PROTO_TCP && off + 20 <= |p| then
      Layer([Visit(Tcp, off)],
            LayerEnd(true, off + TcpHeaderLen(p, off), PackPorts(Host16(p, off), Host16(p, off + 2))))
    else if proto == IP_PROTO_UDP && off + 8 <= |p| then
      Layer([Visit(Udp, off)], LayerEnd(true, off + 8, PackPorts(Host16(p, off), Host16(p, off + 2))))
    else
      Layer([], LayerEnd(false, off, 0))
  }

  /** The headers walk_packet visits, in order. */
  function PacketVisits(linkType: nat, p: seq<byte>): seq<Visit> {
    var link := LinkLayer(linkType, p);
    if !link.end.ok then link.visits
    else
      var net := NetworkLayer(p, link.end.key, link.end.off);
      if !net.end.ok then link.visits + net.visits
      else link.visits + net.visits + TransportLayer(p, net.end.key, net.end.off).visits
  }

  function PacketResult(linkType: nat, p: seq<byte>): WalkResult {
    var link := LinkLayer(linkType, p);
    if !link.end.ok then NO_L4
    else
      var net := NetworkLayer(p, link.end.key, link.end.off);
      if !net.end.ok then NO_L4
      else
        var l4 := TransportLayer(p, net.end.key, net.end.off);
        if l4.end.ok then WalkResult(l4.end.off, l4.end.key, true) else NO_L4
  }

  /** overlay: a header of n bytes fits at off. */
  predicate Overlay(p: seq<byte>, off: nat, n: nat) { off + n <= |p| }

  function Subspan(p: seq<byte>, off: nat): seq<byte> {
    if off <= |p| then p[off..] else []
  }

  /** A layer parsed in a span that starts at off, seen from the whole packet. */
  function Rebase(l: Layer, off: nat): Layer {
    Layer(Shift(l.visits, off), LayerEnd(l.end.ok, l.end.off + off, l.end.key))
  }

  function Shift(vs: seq<Visit>, off: nat): (r: seq<Visit>)
    ensures |r| == |vs|
    ensures forall i :: 0 <= i < |vs| ==> r[i] == Visit(vs[i].node, vs[i].off + off)
  {
    seq(|vs|, i requires 0 <= i < |vs| => Visit(vs[i].node, vs[i].off + off))
  }

  lemma SubspanReads(p: seq<byte>, off: nat, i: nat)
    requires off + i + 2 <= |p|
    ensures Host16(Subspan(p, off), i) == Host16(p, off + i)
    ensures Subspan(p, off)[i] == p[off + i]
  {
    assert Subspan(p, off)[i..i + 2] == p[off + i..off + i + 2];
  }

  /** Parsing a network header in the span after the link layer is parsing it in place. */
  lemma NetworkRebased(p: seq<byte>, et: nat, off: nat)
    requires off <= |p|
    ensures NetworkLayer(p, et, off) == Rebase(NetworkLayer(Subspan(p, off), et, 0), off)
  {
    hide WordAt;
    if off + 20 <= |p| {
      SubspanReads(p, off, 6);
      SubspanReads(p, off, 0);
      SubspanReads(p, off, 9);
    }
  }

  lemma TransportRebased(p: seq<byte>, proto: nat, off: nat)
    ensures TransportLayer(p, proto, off).visits == Rebase(TransportLayer(Subspan(p, off), proto, 0), off).visits
    ensures TransportLayer(p, proto, off).end == Rebase(TransportLayer(Subspan(p, off), proto, 0), off).end
  {
    hide WordAt;
    if off + 8 <= |p| {
      SubspanReads(p, off, 0);
      SubspanReads(p, off, 2);
    }
    if off + 20 <= |p| {
      SubspanReads(p, off, 12);
    }
  }

  /** The Ethernet header and the VLAN loop. */
  method WalkLink(linkType: nat, p: seq<byte>) returns (l: Layer)
    ensures l == LinkLayer(linkType, p)
  {
    hide WordAt;
    if linkType != LINK_TYPE_ETHERNET || !Overlay(p, 0, 14) {
      return Layer([], LayerEnd(false, 0, 0));
    }
    var vs := [Visit(Eth, 0)];
    var ethertype, off := Host16(p, 12), 14;
    while IsVlanType(ethertype)
      invariant off <= |p|
      invariant LinkLayer(linkType, p) ==
        Layer(vs + VlanStack(p, ethertype, off).visits, VlanStack(p, ethertype, off).end)
      decreases |p| - off
    {
      if !Overlay(p, off, 4) {
        return Layer(vs, LayerEnd(false, off, ethertype));
      }
      ghost var rest := VlanStack(p, Host16(p, off + 2), off + 4).visits;
      assert vs + ([Visit(Vlan, off)] + rest) == vs + [Visit(Vlan, off)] + rest;
      vs := vs + [Visit(Vlan, off)];
      ethertype := Host16(p, off + 2);
      off := off + 4;
    }
    l := Layer(vs, LayerEnd(true, off, ethertype));
  }

  /** The IP header at the start of a span. */
  method WalkNetwork(span: seq<byte>, ethertype: nat) returns (l: Layer)
    ensures l == NetworkLayer(span, ethertype, 0)
  {
    hide WordAt;
    l := Layer([], LayerEnd(false, 0, 0));
    if ethertype == ETHERTYPE_IPV4 {
      if Overlay(span, 0, 20) {
        var hdr := span[0] % 16 * 4;
        var l3 := if hdr >= 20 then hdr else 20;
        var hasL4 := Host16(span, 6) % 0x2000 == 0;
        l := Layer([Visit(Ipv4, 0)], LayerEnd(hasL4, l3, span[9]));
      }
    } else if ethertype == ETHERTYPE_IPV6 {
      if Overlay(span, 0, 40) {
        l := Layer([Visit(Ipv6, 0)], LayerEnd(true, 40, span[6]));
      }
    }
  }

  /** The TCP or UDP header at the start of a span. */
  method WalkTransport(span: seq<byte>, proto: nat) returns (l: Layer)
    ensures l == TransportLayer(span, proto, 0)
  {
    hide WordAt;
    l := Layer([], LayerEnd(false, 0, 0));
    if proto == IP_PROTO_TCP {
      if Overlay(span, 0, 20) {
        var hdr := Host16(span, 12) / 4096 % 16 * 4;
        l := Layer([Visit(Tcp, 0)],
                   LayerEnd(true, if hdr >= 20 then hdr else 20, PackPorts(Host16(span, 0), Host16(span, 2))));
      }
    } else if proto == IP_PROTO_UDP {
      if Overlay(span, 0, 8) {
        l := Layer([Visit(Udp, 0)], LayerEnd(true, 8, PackPorts(Host16(span, 0), Host16(span, 2))));
      }
    }
  }

  /** The walk and its early returns; each layer is read in the span after the one below. */
  method WalkPacket(linkType: nat, p: seq<byte>) returns (vs: seq<Visit>, res: WalkResult)
    ensures vs == PacketVisits(linkType, p)
    ensures res == PacketResult(linkType, p)
  {
    hide NetworkLayer, TransportLayer, LinkLayer;
    var link := WalkLink(linkType, p);
    vs, res := link.visits, NO_L4;
    if !link.end.ok {
      return;
    }
    var off := link.end.off;
    NetworkRebased(p, link.end.key, off);
    var afterL2 := Subspan(p, off);
    var net := WalkNetwork(afterL2, link.end.key);
    vs := vs + Shift(net.visits, off);
    var l3 := net.end.off;
    if !net.end.ok {
      return;
    }
    TransportRebased(p, net.end.key, off + l3);
    if l3 > |afterL2| {
      TransportPastTheEnd(p, net.end.key, off + l3);
      return;
    }
    var afterL3 := Subspan(afterL2, l3);
    assert afterL3 == Subspan(p, off + l3);
    var l4 := WalkTransport(afterL3, net.end.key);
    vs := vs + Shift(l4.visits, off + l3);
    if l4.end.ok {
      res := WalkResult(off + l3 + l4.end.off, l4.end.key, true);
    }
  }

  lemma TransportPastTheEnd(p: seq<byte>, proto: nat, off: nat)
    requires off > |p|
    ensures TransportLayer(p, proto, off) == Layer([], LayerEnd(false, off, 0))
  {
  }
}
