/** The graph walk against the hand-written walk: where they agree, exactly. */
module WalksAgree {
  import opened Wire
  import opened WireSpec
  import opened Protocols
  import opened Dag
  import opened DagGrammar
  import opened PacketWalk
  import opened ByteWords
  import opened FrameBytes

  // ---- the two header readers agree -------------------------------------------------------------------

  lemma ByteAt(p: seq<byte>, off: nat)
    requires off < |p|
    ensures WordAt(p, off, 1, true) == p[off]
  {
    SmallWords(p[off..off + 1]);
  }

  lemma LinkFields(p: seq<byte>, off: nat)
    ensures off + 14 <= |p| ==> ReadUnsigned(ETHERTYPE, p, off) == Host16(p, off + 12)
    ensures off + 4 <= |p| ==> ReadUnsigned(INNER_ETHERTYPE, p, off) == Host16(p, off + 2)
  {
  }

  lemma Ipv4Fields(p: seq<byte>, off: nat)
    requires off + 20 <= |p|
    ensures ReadUnsigned(IPV4_IHL, p, off) == p[off] % 16
    ensures ReadUnsigned(IPV4_FRAG_OFFSET, p, off) == Host16(p, off + 6) % 0x2000
    ensures ReadUnsigned(IPV4_PROTOCOL, p, off) == p[off + 9]
  {
    ByteAt(p, off);
    ByteAt(p, off + 9);
    assert Pow2(0) == 1 && Pow2(4) == 16 && Pow2(13) == 0x2000;
  }

  lemma Ipv6Fields(p: seq<byte>, off: nat)
    requires off + 40 <= |p|
    ensures ReadUnsigned(IPV6_NEXT_HEADER, p, off) == p[off + 6]
  {
    ByteAt(p, off + 6);
  }

  lemma TcpFields(p: seq<byte>, off: nat)
    requires off + 20 <= |p|
    ensures ReadUnsigned(TCP_DATA_OFFSET, p, off) == Host16(p, off + 12) / 4096 % 16
  {
    assert Pow2(12) == 4096 && Pow2(4) == 16;
  }

  // ---- dispatch values --------------------------------------------------------------------------------

  lemma EthertypeDispatch(et: nat)
    ensures MatchEdges(et, ETHERTYPE_EDGES) ==
      if IsVlanType(et) then Some(Vlan)
      else if et == ETHERTYPE_IPV4 then Some(Ipv4)
      else if et == ETHERTYPE_IPV6 then Some(Ipv6)
      else if et == 0x88F7 then Some(Gptp) else None
  {
    TablesHaveDistinctKeys();
    MatchEdgesFinds(et, ETHERTYPE_EDGES);
    assert ETHERTYPE_EDGES[0] == Edge(0x8100, Vlan) && ETHERTYPE_EDGES[1] == Edge(0x88A8, Vlan);
    assert ETHERTYPE_EDGES[2] == Edge(0x0800, Ipv4) && ETHERTYPE_EDGES[3] == Edge(0x86DD, Ipv6);
    assert ETHERTYPE_EDGES[4] == Edge(0x88F7, Gptp);
  }

  lemma IpProtoDispatch(proto: nat)
    ensures MatchEdges(proto, IP_PROTO_EDGES) ==
      if proto == IP_PROTO_TCP then Some(Tcp) else if proto == IP_PROTO_UDP then Some(Udp) else None
  {
    TablesHaveDistinctKeys();
    MatchEdgesFinds(proto, IP_PROTO_EDGES);
    assert IP_PROTO_EDGES[0] == Edge(6, Tcp) && IP_PROTO_EDGES[1] == Edge(17, Udp);
  }

  lemma Ip6Targets(nh: nat)
    ensures MatchEdges(nh, IP6_NEXT_EDGES) ==
      if nh == 0 then Some(HopByHop) else if nh == 43 then Some(Routing) else if nh == 44 then Some(Fragment)
      else if nh == 60 then Some(DestOpt) else if nh == 51 then Some(Ah) else if nh == 6 then Some(Tcp)
      else if nh == 17 then Some(Udp) else None
  {
    TablesHaveDistinctKeys();
    MatchEdgesFinds(nh, IP6_NEXT_EDGES);
    assert IP6_NEXT_EDGES[0] == Edge(0, HopByHop) && IP6_NEXT_EDGES[1] == Edge(43, Routing);
    assert IP6_NEXT_EDGES[2] == Edge(44, Fragment) && IP6_NEXT_EDGES[3] == Edge(60, DestOpt);
    assert IP6_NEXT_EDGES[4] == Edge(51, Ah) && IP6_NEXT_EDGES[5] == Edge(6, Tcp);
    assert IP6_NEXT_EDGES[6] == Edge(17, Udp);
  }

  lemma Ip6NextDispatch(nh: nat)
    ensures !IsExtensionType(nh) ==> MatchEdges(nh, IP6_NEXT_EDGES) == MatchEdges(nh, IP_PROTO_EDGES)
    ensures IsExtensionType(nh) ==>
      MatchEdges(nh, IP6_NEXT_EDGES).Some? && IsExt(MatchEdges(nh, IP6_NEXT_EDGES).value)
  {
    hide MatchEdges;
    IpProtoDispatch(nh);
    Ip6Targets(nh);
  }

  // ---- layer by layer ---------------------------------------------------------------------------------

  /** The graph walk from a dispatch result. */
  ghost function From(p: seq<byte>, next: Option<Node>, off: nat, budget: nat): seq<Visit> {
    if next.None? then [] else Trace(p, next.value, off, budget)
  }

  ghost function FromEthertype(p: seq<byte>, et: nat, off: nat, budget: nat): seq<Visit> {
    From(p, MatchEdges(et, ETHERTYPE_EDGES), off, budget)
  }

  lemma VlanStep(p: seq<byte>, off: nat, budget: nat)
    requires budget > 0 && off + 4 <= |p|
    ensures Trace(p, Vlan, off, budget) ==
            [Visit(Vlan, off)] + FromEthertype(p, Host16(p, off + 2), off + 4, budget - 1)
  {
    LinkFields(p, off);
    TraceStep(p, Vlan, off, budget);
  }

  /** The VLAN stack is walked alike, as far as the budget goes. */
  lemma {:induction false} VlanStacksAgree(p: seq<byte>, et: nat, off: nat, budget: nat)
    ensures var l := VlanStack(p, et, off);
      FromEthertype(p, et, off, budget) ==
        if |l.visits| > budget then l.visits[..budget]
        else if !l.end.ok then l.visits
        else l.visits + FromEthertype(p, l.end.key, l.end.off, budget - |l.visits|)
    decreases |p| - off
  {
    hide Next, Advance, Host16, MatchEdges;
    EthertypeDispatch(et);
    if IsVlanType(et) {
      if budget > 0 && off + 4 <= |p| {
        VlanStep(p, off, budget);
        VlanStacksAgree(p, Host16(p, off + 2), off + 4, budget - 1);
      } else {
        TraceStops(p, Vlan, off, budget);
      }
    }
  }

  lemma EthStep(p: seq<byte>, budget: nat)
    requires budget > 0 && 14 <= |p|
    ensures Trace(p, Eth, 0, budget) == [Visit(Eth, 0)] + FromEthertype(p, Host16(p, 12), 14, budget - 1)
  {
    LinkFields(p, 0);
    TraceStep(p, Eth, 0, budget);
  }

  lemma LinkLayersAgree(p: seq<byte>)
    ensures var l := LinkLayer(LINK_TYPE_ETHERNET, p);
      Visits(p, Eth) ==
        if |l.visits| > MAX_WALK_STEPS then l.visits[..MAX_WALK_STEPS]
        else if !l.end.ok then l.visits
        else l.visits + FromEthertype(p, l.end.key, l.end.off, MAX_WALK_STEPS - |l.visits|)
  {
    hide Next, Advance, Host16, MatchEdges, Trace, VlanStack;
    if 14 <= |p| {
      EthStep(p, MAX_WALK_STEPS);
      VlanStacksAgree(p, Host16(p, 12), 14, MAX_WALK_STEPS - 1);
    } else {
      TraceStops(p, Eth, 0, MAX_WALK_STEPS);
    }
  }

  lemma SomeipDispatch(dst: nat, src: nat)
    ensures SomeipPortDispatch(dst, src) == if dst == 30490 || src == 30490 then Some(Someip) else None
  {
    TablesHaveDistinctKeys();
    MatchEdgesFinds(dst, SOMEIP_PORT_EDGES);
    MatchEdgesFinds(src, SOMEIP_PORT_EDGES);
    assert SOMEIP_PORT_EDGES[0] == Edge(30490, Someip);
  }

  lemma PortFields(p: seq<byte>, off: nat)
    requires off + 4 <= |p|
    ensures ReadUnsigned(SRC_PORT, p, off) == B2(p, off) && ReadUnsigned(DST_PORT, p, off) == B2(p, off + 2)
  {
    WordIsBytes(p, off, 2);
    WordIsBytes(p, off + 2, 2);
  }

  lemma L4Next(p: seq<byte>, n: Node, off: nat)
    requires IsL4(n) && Fits(p, n, off)
    ensures Next(p, n, off) == if NamesSomeip(p, off) then Some(Someip) else None
  {
    hide ReadUnsigned, MatchEdges, SomeipPortDispatch;
    PortFields(p, off);
    SomeipDispatch(B2(p, off + 2), B2(p, off));
  }

  /** What follows a TCP or UDP header in the graph: a SOME/IP header exactly when one of the ports is 30490, it
      fits, and the budget lasts; and nothing else. */
  lemma TransportStep(p: seq<byte>, n: Node, off: nat, budget: nat)
    requires IsL4(n) && Fits(p, n, off) && budget > 0
    ensures var e := off + Advance(p, n, off);
      Trace(p, n, off, budget) ==
      [Visit(n, off)] + if budget > 1 && SomeipFollows(p, off, e) then [Visit(Someip, e)] else []
  {
    hide Next, Advance;
    TraceStep(p, n, off, budget);
    L4Next(p, n, off);
    SomeipIsLast(p, off + Advance(p, n, off), budget - 1);
  }

  lemma SomeipIsLast(p: seq<byte>, off: nat, budget: nat)
    ensures Trace(p, Someip, off, budget) == if budget > 0 && off + 16 <= |p| then [Visit(Someip, off)] else []
  {
  }

  predicate IsShared(n: Node) { n in {Eth, Vlan, Ipv4, Ipv6, Tcp, Udp} }

  /** A visit sequence restricted to the six node types both walks know. */
  function Restrict(vs: seq<Visit>): seq<Visit> {
    if vs == [] then []
    else (if IsShared(vs[0].node) then [vs[0]] else []) + Restrict(vs[1..])
  }

  lemma {:induction false} RestrictConcat(a: seq<Visit>, b: seq<Visit>)
    ensures Restrict(a + b) == Restrict(a) + Restrict(b)
  {
    if a == [] {
      assert a + b == b;
    } else {
      hide IsShared;
      RestrictConcat(a[1..], b);
      assert (a + b)[1..] == a[1..] + b;
      var head := if IsShared(a[0].node) then [a[0]] else [];
      assert head + (Restrict(a[1..]) + Restrict(b)) == head + Restrict(a[1..]) + Restrict(b);
    }
  }

  lemma {:induction false} RestrictShared(vs: seq<Visit>)
    requires forall i :: 0 <= i < |vs| ==> IsShared(vs[i].node)
    ensures Restrict(vs) == vs
  {
    if vs != [] {
      RestrictShared(vs[1..]);
    }
  }

  lemma {:induction false} RestrictLength(vs: seq<Visit>)
    ensures |Restrict(vs)| <= |vs|
  {
    if vs != [] {
      RestrictLength(vs[1..]);
    }
  }

  /** An L4 layer at off and the SOME/IP header behind it, if there is one and the budget lasts. */
  function WithSomeip(p: seq<byte>, l: Layer, off: nat, budget: nat): seq<Visit>
    requires off + 4 <= |p|
  {
    l.visits + if budget > 1 && SomeipFollows(p, off, l.end.off) then [Visit(Someip, l.end.off)] else []
  }

  /** L4 from a protocol number: the shared part of the graph walk is the hand-written walk's. */
  lemma TransportLayersAgree(p: seq<byte>, proto: nat, off: nat, budget: nat)
    requires budget > 0
    ensures var t := From(p, MatchEdges(proto, IP_PROTO_EDGES), off, budget);
      var l := TransportLayer(p, proto, off);
      && Restrict(t) == l.visits
      && (l.end.ok ==> off + 4 <= |p| && l.visits != [] && t == WithSomeip(p, l, off, budget))
      && (!l.end.ok ==> t == [])
  {
    hide Next, MatchEdges, Host16, Trace;
    IpProtoDispatch(proto);
    var n := if proto == IP_PROTO_TCP then Tcp else Udp;
    if proto == IP_PROTO_TCP || proto == IP_PROTO_UDP {
      if Fits(p, n, off) {
        TransportStep(p, n, off, budget);
        if n == Tcp {
          TcpFields(p, off);
        }
        RestrictPair(Visit(n, off), Visit(Someip, off + Advance(p, n, off)));
      } else {
        TraceStops(p, n, off, budget);
      }
    }
  }

  lemma RestrictPair(a: Visit, b: Visit)
    requires IsShared(a.node) && !IsShared(b.node)
    ensures Restrict([a]) == [a] && Restrict([a, b]) == [a]
  {
    assert [a][1..] == [] && [a, b][1..] == [b] && [b][1..] == [];
  }

  // ---- network layer and above ------------------------------------------------------------------------

  /** What walk_packet visits above the link layer. */
  function UpperVisits(p: seq<byte>, et: nat, off: nat): seq<Visit> {
    var net := NetworkLayer(p, et, off);
    if !net.end.ok then net.visits else net.visits + TransportLayer(p, net.end.key, net.end.off).visits
  }

  lemma Ipv4Step(p: seq<byte>, off: nat, budget: nat)
    requires budget > 0 && off + 20 <= |p|
    ensures var net := NetworkLayer(p, ETHERTYPE_IPV4, off);
      Trace(p, Ipv4, off, budget) ==
        [Visit(Ipv4, off)] +
        From(p, if net.end.ok then MatchEdges(net.end.key, IP_PROTO_EDGES) else None, net.end.off, budget - 1)
  {
    hide MatchEdges, ReadUnsigned, Trace;
    Ipv4Fields(p, off);
    TraceStep(p, Ipv4, off, budget);
  }

  lemma Ipv6Step(p: seq<byte>, off: nat, budget: nat)
    requires budget > 0 && off + 40 <= |p|
    ensures Trace(p, Ipv6, off, budget) ==
            [Visit(Ipv6, off)] + From(p, MatchEdges(p[off + 6], IP6_NEXT_EDGES), off + 40, budget - 1)
  {
    hide MatchEdges, ReadUnsigned, Trace;
    Ipv6Fields(p, off);
    TraceStep(p, Ipv6, off, budget);
  }

  lemma GptpIsNotShared(p: seq<byte>, off: nat, budget: nat)
    ensures Restrict(Trace(p, Gptp, off, budget)) == []
  {
    hide Next, Advance;
    if budget > 0 && Fits(p, Gptp, off) {
      TraceStep(p, Gptp, off, budget);
      NextFollows(p, Gptp, off);
      RestrictConcat([Visit(Gptp, off)], Trace(p, Gptp, off, budget)[1..]);
      assert [Visit(Gptp, off)][1..] == [];
      if Next(p, Gptp, off).Some? {
        BodyIsNotShared(p, Next(p, Gptp, off).value, off + Advance(p, Gptp, off), budget - 1);
      }
    }
  }

  lemma BodyIsNotShared(p: seq<byte>, n: Node, off: nat, budget: nat)
    requires IsPtpBody(n)
    ensures Restrict(Trace(p, n, off, budget)) == []
  {
    assert [Visit(n, off)][1..] == [];
  }

  /** Above the link layer, without an IPv6 extension header: the same headers, given the budget for them. */
  lemma UpperLayersAgree(p: seq<byte>, et: nat, off: nat, budget: nat)
    requires !IsVlanType(et) && !MeetsExtension(p, et, off)
    requires |UpperVisits(p, et, off)| <= budget
    ensures Restrict(FromEthertype(p, et, off, budget)) == UpperVisits(p, et, off)
  {
    hide Trace, MatchEdges, Host16, Ipv4HeaderLen, TransportLayer;
    EthertypeDispatch(et);
    var net := NetworkLayer(p, et, off);
    if net.visits != [] {
      var key := if net.end.ok then MatchEdges(net.end.key, IP_PROTO_EDGES) else None;
      if et == ETHERTYPE_IPV4 {
        Ipv4Step(p, off, budget);
      } else {
        Ipv6Step(p, off, budget);
        Ip6NextDispatch(p[off + 6]);
      }
      var rest := From(p, key, net.end.off, budget - 1);
      RestrictConcat(net.visits, rest);
      RestrictShared(net.visits);
      if net.end.ok {
        RestTransport(p, net.end.key, net.end.off, budget - 1);
      }
    } else if et == 0x88F7 {
      GptpIsNotShared(p, off, budget);
    } else if et == ETHERTYPE_IPV4 {
      TraceStops(p, Ipv4, off, budget);
    } else if et == ETHERTYPE_IPV6 {
      TraceStops(p, Ipv6, off, budget);
    }
  }

  lemma RestTransport(p: seq<byte>, proto: nat, off: nat, budget: nat)
    requires |TransportLayer(p, proto, off).visits| <= budget
    ensures Restrict(From(p, MatchEdges(proto, IP_PROTO_EDGES), off, budget)) == TransportLayer(p, proto, off).visits
  {
    hide Trace, MatchEdges, TransportLayer;
    if budget > 0 {
      TransportLayersAgree(p, proto, off, budget);
    } else if MatchEdges(proto, IP_PROTO_EDGES).Some? {
      TraceStops(p, MatchEdges(proto, IP_PROTO_EDGES).value, off, 0);
    }
  }

  /** Behind an IPv6 extension header walk_packet stops; the graph goes on. */
  lemma ExtensionSplits(p: seq<byte>, off: nat, budget: nat) returns (rest: seq<Visit>)
    requires MeetsExtension(p, ETHERTYPE_IPV6, off) && budget > 0
    ensures UpperVisits(p, ETHERTYPE_IPV6, off) == [Visit(Ipv6, off)]
    ensures FromEthertype(p, ETHERTYPE_IPV6, off, budget) == [Visit(Ipv6, off)] + rest
    ensures rest == From(p, MatchEdges(p[off + 6], IP6_NEXT_EDGES), off + 40, budget - 1)
  {
    hide Trace, MatchEdges;
    EthertypeDispatch(ETHERTYPE_IPV6);
    Ipv6Step(p, off, budget);
    rest := From(p, MatchEdges(p[off + 6], IP6_NEXT_EDGES), off + 40, budget - 1);
  }

  lemma {:induction false} RestrictEmpty(vs: seq<Visit>)
    ensures Restrict(vs) == [] <==> forall i :: 0 <= i < |vs| ==> !IsShared(vs[i].node)
  {
    if vs != [] {
      RestrictEmpty(vs[1..]);
      assert forall i :: 0 < i < |vs| ==> vs[i] == vs[1..][i - 1];
    }
  }

  lemma {:induction false} VlanStackIsShared(p: seq<byte>, et: nat, off: nat)
    ensures var l := VlanStack(p, et, off);
      && (forall i :: 0 <= i < |l.visits| ==> l.visits[i].node == Vlan)
      && (l.end.ok ==> !IsVlanType(l.end.key))
    decreases |p| - off
  {
    if IsVlanType(et) && off + 4 <= |p| {
      VlanStackIsShared(p, Host16(p, off + 2), off + 4);
    }
  }

  lemma LinkLayerIsShared(p: seq<byte>)
    ensures var l := LinkLayer(LINK_TYPE_ETHERNET, p);
      && (forall i :: 0 <= i < |l.visits| ==> IsShared(l.visits[i].node))
      && (l.end.ok ==> !IsVlanType(l.end.key) && l.visits != [])
  {
    if 14 <= |p| {
      VlanStackIsShared(p, Host16(p, 12), 14);
    }
  }

  // ---- the comparison ---------------------------------------------------------------------------------

  lemma {:induction false} TagsAreTheStack(p: seq<byte>, et: nat, off: nat)
    requires 2 <= off <= |p| && et == Host16(p, off - 2)
    ensures var l, k := VlanStack(p, et, off), TagsFrom(p, et, off);
      && off + 4 * k <= |p| && |l.visits| == k
      && (l.end.ok <==> !IsVlanType(Host16(p, off + 4 * k - 2)))
      && (l.end.ok ==> l.end == LayerEnd(true, off + 4 * k, Host16(p, off + 4 * k - 2)))
    decreases |p| - off
  {
    hide WordAt, Host16;
    if IsVlanType(et) && off + 4 <= |p| {
      TagsAreTheStack(p, Host16(p, off + 2), off + 4);
    }
  }

  /** The link layer, from the tag count alone. */
  lemma LinkIsTags(p: seq<byte>)
    requires 14 <= |p|
    ensures var l := LinkLayer(LINK_TYPE_ETHERNET, p);
      && |l.visits| == 1 + TagCount(p)
      && (l.end.ok <==> !IsVlanType(NetworkType(p)))
      && (l.end.ok ==> l.end == LayerEnd(true, NetworkAt(p), NetworkType(p)))
  {
    hide Host16;
    TagsAreTheStack(p, Host16(p, 12), 14);
  }

  lemma UpperHeadersCount(p: seq<byte>, et: nat, off: nat)
    ensures |UpperVisits(p, et, off)| == UpperHeaders(p, et, off)
  {
    hide Host16, Ipv4HeaderLen;
  }

  /** walk_packet visits as many headers as the bytes say. */
  lemma HeadersCount(p: seq<byte>)
    ensures |PacketVisits(LINK_TYPE_ETHERNET, p)| == HeaderCount(p)
  {
    hide UpperVisits, UpperHeaders, Host16, PacketVisits;
    PacketVisitsSplit(p);
    if 14 <= |p| {
      hide LinkLayer;
      LinkIsTags(p);
      UpperHeadersCount(p, NetworkType(p), NetworkAt(p));
      NoUpperBehindVlan(p, NetworkType(p), NetworkAt(p));
    }
  }

  lemma NoUpperBehindVlan(p: seq<byte>, et: nat, off: nat)
    ensures IsVlanType(et) ==> UpperHeaders(p, et, off) == 0
  {
  }

  ghost predicate HasL4(vs: seq<Visit>) { exists i :: 0 <= i < |vs| && IsL4(vs[i].node) }

  lemma HasL4Step(v: Visit, rest: seq<Visit>)
    ensures HasL4([v] + rest) <==> IsL4(v.node) || HasL4(rest)
  {
    var vs := [v] + rest;
    assert vs[0] == v;
    if HasL4(rest) {
      var i :| 0 <= i < |rest| && IsL4(rest[i].node);
      assert vs[i + 1] == rest[i];
    }
  }

  lemma ExtensionFields(p: seq<byte>, off: nat)
    ensures off + 2 <= |p| ==>
      ReadUnsigned(EXT_NEXT_HEADER, p, off) == p[off] && ReadUnsigned(EXT_LEN, p, off) == p[off + 1]
    ensures off + 12 <= |p| ==> ReadUnsigned(AH_PAYLOAD_LEN, p, off) == p[off + 1]
    ensures off + 8 <= |p| ==> (ReadUnsigned(FRAGMENT_OFFSET, p, off) == 0 <==> Host16(p, off + 2) < 8)
  {
    if off + 2 <= |p| {
      ByteAt(p, off);
      ByteAt(p, off + 1);
    }
    if off + 8 <= |p| {
      WordBound(p[off + 2..off + 4], true);
      Pow2Values();
      assert Pow2(3) == 8 && Pow2(13) == 0x2000;
    }
  }

  lemma L4Visit(p: seq<byte>, n: Node, off: nat, budget: nat)
    requires IsL4(n) && budget > 0
    ensures HasL4(Trace(p, n, off, budget)) <==> Fits(p, n, off)
  {
    hide Next, Advance;
    if Fits(p, n, off) {
      TraceStep(p, n, off, budget);
      assert Trace(p, n, off, budget)[0].node == n;
    }
  }

  lemma ExtensionVisit(p: seq<byte>, n: Node, off: nat, budget: nat)
    requires IsExt(n) && budget > 0
    ensures HasL4(Trace(p, n, off, budget)) <==>
            Fits(p, n, off) && HasL4(From(p, Next(p, n, off), off + Advance(p, n, off), budget - 1))
  {
    hide Next, Advance, HasL4, Trace;
    if Fits(p, n, off) {
      TraceStep(p, n, off, budget);
      HasL4Step(Visit(n, off), From(p, Next(p, n, off), off + Advance(p, n, off), budget - 1));
    } else {
      TraceStops(p, n, off, budget);
      assert !HasL4([]) by { NoL4InNothing(); }
    }
  }

  lemma NoL4InNothing()
    ensures !HasL4([])
  {
  }

  /** The graph walk from a next-header byte meets an L4 header exactly when the bytes lead to one. */
  lemma {:induction false} L4IsLedTo(p: seq<byte>, nh: nat, off: nat, budget: nat)
    ensures HasL4(From(p, MatchEdges(nh, IP6_NEXT_EDGES), off, budget)) <==> LeadsToL4(p, nh, off, budget)
    decreases budget
  {
    hide MatchEdges, ReadUnsigned, Host16, Trace, HasL4;
    Ip6Targets(nh);
    NoL4InNothing();
    var t := MatchEdges(nh, IP6_NEXT_EDGES);
    if budget == 0 {
      if t.Some? {
        TraceStops(p, t.value, off, 0);
      }
    } else if t.Some? && IsL4(t.value) {
      L4Visit(p, t.value, off, budget);
    } else if t.Some? {
      ExtensionVisit(p, t.value, off, budget);
      if Fits(p, t.value, off) {
        ExtensionFields(p, off);
        L4IsLedTo(p, p[off], off + Advance(p, t.value, off), budget - 1);
      }
    }
  }

  lemma PacketVisitsSplit(p: seq<byte>)
    ensures var link := LinkLayer(LINK_TYPE_ETHERNET, p);
      PacketVisits(LINK_TYPE_ETHERNET, p) ==
        if link.end.ok then link.visits + UpperVisits(p, link.end.key, link.end.off) else link.visits
  {
    hide LinkLayer, NetworkLayer, TransportLayer;
    var link := LinkLayer(LINK_TYPE_ETHERNET, p);
    if link.end.ok {
      var net := NetworkLayer(p, link.end.key, link.end.off);
      var l4 := TransportLayer(p, net.end.key, net.end.off);
      assert link.visits + (net.visits + l4.visits) == link.visits + net.visits + l4.visits;
    }
  }

  /** Without an extension header, and with at most 32 headers, both walks visit the same headers. */
  lemma SameHeaders(p: seq<byte>)
    requires HeaderCount(p) <= MAX_WALK_STEPS && !HasExtension(p)
    ensures Restrict(Visits(p, Eth)) == PacketVisits(LINK_TYPE_ETHERNET, p)
  {
    hide LinkLayer, UpperVisits, Trace, MatchEdges, PacketVisits, Host16, UpperHeaders;
    var link := LinkLayer(LINK_TYPE_ETHERNET, p);
    HeadersCount(p);
    PacketVisitsSplit(p);
    LinkLayersAgree(p);
    LinkLayerIsShared(p);
    RestrictShared(link.visits);
    if link.end.ok {
      LinkNeedsHeader(p);
      LinkIsTags(p);
      var budget := MAX_WALK_STEPS - |link.visits|;
      RestrictConcat(link.visits, FromEthertype(p, link.end.key, link.end.off, budget));
      UpperLayersAgree(p, link.end.key, link.end.off, budget);
    }
  }

  lemma LinkNeedsHeader(p: seq<byte>)
    ensures LinkLayer(LINK_TYPE_ETHERNET, p).end.ok ==> 14 <= |p|
  {
  }

  lemma ExtensionStart(p: seq<byte>)
    requires HeaderCount(p) <= MAX_WALK_STEPS && HasExtension(p)
    ensures 14 <= |p| && TagCount(p) <= 30 && NetworkType(p) == ETHERTYPE_IPV6
    ensures MeetsExtension(p, ETHERTYPE_IPV6, NetworkAt(p))
    ensures var l := LinkLayer(LINK_TYPE_ETHERNET, p);
      |l.visits| == 1 + TagCount(p) && l.end == LayerEnd(true, NetworkAt(p), ETHERTYPE_IPV6)
  {
    hide LinkLayer, TagCount, Host16;
    LinkIsTags(p);
  }

  /** With an extension header walk_packet ends at the IPv6 header, and the graph goes on from its next-header
      byte. */
  lemma ExtensionTrace(p: seq<byte>) returns (head: seq<Visit>, rest: seq<Visit>)
    requires HeaderCount(p) <= MAX_WALK_STEPS && HasExtension(p)
    ensures TagCount(p) <= 30 && Visits(p, Eth) == head + rest && PacketVisits(LINK_TYPE_ETHERNET, p) == head
    ensures head != [] && head[|head| - 1].node == Ipv6 && forall i :: 0 <= i < |head| ==> IsShared(head[i].node)
    ensures rest == From(p, MatchEdges(p[NetworkAt(p) + 6], IP6_NEXT_EDGES), NetworkAt(p) + 40, 30 - TagCount(p))
  {
    hide LinkLayer, UpperVisits, Trace, MatchEdges, PacketVisits, From, FromEthertype;
    hide HeaderCount, HasExtension, MeetsExtension, NetworkType, NetworkAt, TagCount;
    ExtensionStart(p);
    var link := LinkLayer(LINK_TYPE_ETHERNET, p);
    PacketVisitsSplit(p);
    LinkLayersAgree(p);
    LinkLayerIsShared(p);
    ExtensionSplitSize(p, link.end.off);
    rest := ExtensionSplits(p, link.end.off, MAX_WALK_STEPS - |link.visits|);
    head := link.visits + [Visit(Ipv6, link.end.off)];
    assert link.visits + ([Visit(Ipv6, link.end.off)] + rest) == head + rest;
  }

  /** The graph's shared headers are then walk_packet's, followed by the L4 header if the bytes lead to one. */
  lemma ExtensionHeaders(p: seq<byte>)
    requires HeaderCount(p) <= MAX_WALK_STEPS && HasExtension(p)
    ensures PacketVisits(LINK_TYPE_ETHERNET, p) <= Restrict(Visits(p, Eth))
    ensures Restrict(Visits(p, Eth)) == PacketVisits(LINK_TYPE_ETHERNET, p) <==> !L4BehindExtension(p)
  {
    hide HeaderCount, TagCount, Trace, MatchEdges, PacketVisits, LeadsToL4, HasL4, From, Restrict, IsShared;
    var head, rest := ExtensionTrace(p);
    RestrictConcat(head, rest);
    RestrictShared(head);
    RestrictEmpty(rest);
    OnlyL4IsSharedAfterIpv6(p, head, rest);
    L4IsLedTo(p, p[NetworkAt(p) + 6], NetworkAt(p) + 40, 30 - TagCount(p));
    assert Restrict(head + rest) == head + Restrict(rest);
  }

  lemma ExtensionSplitSize(p: seq<byte>, off: nat)
    requires MeetsExtension(p, ETHERTYPE_IPV6, off)
    ensures UpperVisits(p, ETHERTYPE_IPV6, off) == [Visit(Ipv6, off)]
  {
    var _ := ExtensionSplits(p, off, 1);
  }

  lemma OnlyL4IsSharedAfterIpv6(p: seq<byte>, head: seq<Visit>, rest: seq<Visit>)
    requires Visits(p, Eth) == head + rest && head != [] && head[|head| - 1].node == Ipv6
    ensures (forall i :: 0 <= i < |rest| ==> !IsShared(rest[i].node)) <==> !HasL4(rest)
  {
    hide Trace;
    WalkIsAChain(p, Eth);
    var vs := Visits(p, Eth);
    var ns := Names(vs);
    var m := |head| - 1;
    forall i | 0 <= i < |rest| ensures IsShared(rest[i].node) <==> IsL4(rest[i].node) {
      assert ns[m + 1 + i] == rest[i].node;
      LayersClimb(ns, m, m + 1 + i);
    }
  }

  /** The hand-written walk's headers are a prefix of the graph walk's shared headers exactly when there are at
      most 32 of them: walk_packet's VLAN loop has no cap. */
  lemma PacketWalkIsAPrefixExactly(p: seq<byte>)
    ensures PacketVisits(LINK_TYPE_ETHERNET, p) <= Restrict(Visits(p, Eth)) <==> HeaderCount(p) <= MAX_WALK_STEPS
  {
    hide PacketVisits, Trace, HasExtension, HeaderCount;
    HeadersCount(p);
    RestrictLength(Visits(p, Eth));
    if HeaderCount(p) <= MAX_WALK_STEPS {
      if HasExtension(p) {
        ExtensionHeaders(p);
      } else {
        SameHeaders(p);
      }
    }
  }

  /** The two walks visit the same headers exactly when there are at most 32 and no L4 header lies behind an IPv6
      extension header. */
  lemma WalksAgreeExactly(p: seq<byte>)
    ensures Restrict(Visits(p, Eth)) == PacketVisits(LINK_TYPE_ETHERNET, p) <==>
            HeaderCount(p) <= MAX_WALK_STEPS && !L4BehindExtension(p)
  {
    hide PacketVisits, Trace, HasExtension, LeadsToL4, HeaderCount;
    HeadersCount(p);
    RestrictLength(Visits(p, Eth));
    if HeaderCount(p) <= MAX_WALK_STEPS {
      if HasExtension(p) {
        ExtensionHeaders(p);
      } else {
        SameHeaders(p);
      }
    }
  }

  /** Up to 29 VLAN tags always fit under the cap. */
  lemma UpTo29TagsFit(p: seq<byte>)
    requires TagCount(p) <= 29
    ensures |PacketVisits(LINK_TYPE_ETHERNET, p)| <= MAX_WALK_STEPS
  {
    hide PacketVisits, TagCount;
    HeadersCount(p);
  }

  /** When walk_packet reaches L4, the graph's parsed length is its payload offset, plus a SOME/IP header exactly when
      the budget lasts, one of the two packed ports is 30490, and 16 more bytes are there. */
  lemma PayloadOffsetsAgree(p: seq<byte>)
    requires HeaderCount(p) <= MAX_WALK_STEPS
    requires PacketResult(LINK_TYPE_ETHERNET, p).reachedL4
    ensures var vs := Visits(p, Eth);
      var r := PacketResult(LINK_TYPE_ETHERNET, p);
      vs != [] &&
      Consumed(p, vs) ==
      r.payloadOffset + if HeaderCount(p) < MAX_WALK_STEPS && SomeipPayload(p, r) then 16 else 0
  {
    hide LinkLayer, Trace, MatchEdges, PacketVisits, Next, NetworkLayer, TransportLayer, HeaderCount;
    HeadersCount(p);
    var link := LinkLayer(LINK_TYPE_ETHERNET, p);
    var net := NetworkLayer(p, link.end.key, link.end.off);
    var l4 := TransportLayer(p, net.end.key, net.end.off);
    PacketVisitsSplit(p);
    LinkLayersAgree(p);
    LinkLayerIsShared(p);
    ReachingIsOneHeader(p, link.end.key, link.end.off);
    assert UpperVisits(p, link.end.key, link.end.off) == net.visits + l4.visits;
    var budget := MAX_WALK_STEPS - |link.visits|;
    var t := UpperTrace(p, link.end.key, link.end.off, budget);
    assert Visits(p, Eth) == (link.visits + net.visits) + t by {
      assert link.visits + (net.visits + t) == (link.visits + net.visits) + t;
    }
    L4Ports(p, net.end.key, net.end.off);
    LastHeader(p, net.end.key, net.end.off, link.visits + net.visits, t,
               budget > 2 && SomeipFollows(p, net.end.off, l4.end.off));
  }

  /** The packed ports are the first four bytes of the L4 header, as one big-endian word. */
  lemma L4Ports(p: seq<byte>, proto: nat, off: nat)
    requires TransportLayer(p, proto, off).end.ok
    ensures off + 4 <= |p| && TransportLayer(p, proto, off).end.key == B4(p, off)
    ensures B4(p, off) / 0x1_0000 == B2(p, off) && B4(p, off) % 0x1_0000 == B2(p, off + 2)
  {
    WordIsBytes(p, off, 2);
    WordIsBytes(p, off + 2, 2);
  }

  lemma ReachingIsOneHeader(p: seq<byte>, et: nat, off: nat)
    ensures var net := NetworkLayer(p, et, off);
      && (net.end.ok ==> |net.visits| == 1)
      && (TransportLayer(p, net.end.key, net.end.off).end.ok ==>
            |TransportLayer(p, net.end.key, net.end.off).visits| == 1)
  {
  }

  lemma UpperTrace(p: seq<byte>, et: nat, off: nat, budget: nat) returns (t: seq<Visit>)
    requires !IsVlanType(et) && budget >= 2
    requires var net := NetworkLayer(p, et, off);
      net.end.ok && TransportLayer(p, net.end.key, net.end.off).end.ok
    ensures var net := NetworkLayer(p, et, off);
      && FromEthertype(p, et, off, budget) == net.visits + t
      && t == From(p, MatchEdges(net.end.key, IP_PROTO_EDGES), net.end.off, budget - 1)
      && var l4 := TransportLayer(p, net.end.key, net.end.off);
         net.end.off + 4 <= |p| && t == WithSomeip(p, l4, net.end.off, budget - 1)
  {
    hide Trace, MatchEdges, Host16, Ipv4HeaderLen, TcpHeaderLen;
    EthertypeDispatch(et);
    var net := NetworkLayer(p, et, off);
    t := From(p, MatchEdges(net.end.key, IP_PROTO_EDGES), net.end.off, budget - 1);
    if et == ETHERTYPE_IPV4 {
      Ipv4Step(p, off, budget);
    } else {
      Ipv6Step(p, off, budget);
      Ip6NextDispatch(p[off + 6]);
    }
    TransportLayersAgree(p, net.end.key, net.end.off, budget - 1);
  }

  lemma LastHeader(p: seq<byte>, proto: nat, off: nat, head: seq<Visit>, t: seq<Visit>, someip: bool)
    requires TransportLayer(p, proto, off).end.ok
    requires var l4 := TransportLayer(p, proto, off);
      t == l4.visits + if someip then [Visit(Someip, l4.end.off)] else []
    requires Visits(p, Eth) == head + t
    ensures var vs := head + t;
      vs != [] && Fits(p, vs[|vs| - 1].node, vs[|vs| - 1].off) &&
      Consumed(p, vs) == TransportLayer(p, proto, off).end.off + if someip then 16 else 0
  {
    hide Trace, Host16;
    if proto == IP_PROTO_TCP {
      TcpFields(p, off);
    }
  }
}
