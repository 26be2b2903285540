/** What every walk of the graph looks like, for every byte string: its shape, its offsets and its bound. */
module DagGrammar {
  import opened Wire
  import opened WireSpec
  import opened Protocols
  import opened Dag

  predicate IsExt(n: Node) { n in {HopByHop, Routing, Fragment, DestOpt, Ah} }
  predicate IsL4(n: Node) { n == Tcp || n == Udp }
  predicate IsPtpBody(n: Node) { n in {PtpTimestampBody, PtpTsPortBody, PtpAnnounceBody, PtpSignalingBody} }

  predicate MayFollow(a: Node, b: Node) {
    match a
    case Eth => b in {Vlan, Ipv4, Ipv6, Gptp}
    case Vlan => b in {Vlan, Ipv4, Ipv6, Gptp}
    case Ipv4 => IsL4(b)
    case Ipv6 => IsExt(b) || IsL4(b)
    case Tcp => b == Someip
    case Udp => b == Someip
    case Gptp => IsPtpBody(b)
    case _ => IsExt(a) && (IsExt(b) || IsL4(b))
  }

  /** An edge table only leads to the targets it lists. */
  lemma {:induction false} MatchIsATarget(key: nat, edges: seq<Edge>)
    ensures MatchEdges(key, edges).Some? ==>
      exists i :: 0 <= i < |edges| && edges[i].key == key && edges[i].target == MatchEdges(key, edges).value
  {
    if edges != [] {
      MatchIsATarget(key, edges[..|edges| - 1]);
      if key == edges[|edges| - 1].key {
        assert edges[|edges| - 1].target == MatchEdges(key, edges).value;
      }
    }
  }

  lemma EthertypeTargets(key: nat)
    ensures MatchEdges(key, ETHERTYPE_EDGES).Some? ==>
      MatchEdges(key, ETHERTYPE_EDGES).value in {Vlan, Ipv4, Ipv6, Gptp}
  {
    MatchIsATarget(key, ETHERTYPE_EDGES);
  }

  lemma IpProtoTargets(key: nat)
    ensures MatchEdges(key, IP_PROTO_EDGES).Some? ==> IsL4(MatchEdges(key, IP_PROTO_EDGES).value)
  {
    MatchIsATarget(key, IP_PROTO_EDGES);
  }

  lemma Ip6NextTargets(key: nat)
    ensures var r := MatchEdges(key, IP6_NEXT_EDGES); r.Some? ==> IsExt(r.value) || IsL4(r.value)
  {
    MatchIsATarget(key, IP6_NEXT_EDGES);
  }

  lemma SomeipTargets(dst: nat, src: nat)
    ensures SomeipPortDispatch(dst, src).Some? ==> SomeipPortDispatch(dst, src).value == Someip
  {
    MatchIsATarget(dst, SOMEIP_PORT_EDGES);
    MatchIsATarget(src, SOMEIP_PORT_EDGES);
  }

  lemma PtpTargets(key: nat)
    ensures MatchEdges(key, PTP_EDGES).Some? ==> IsPtpBody(MatchEdges(key, PTP_EDGES).value)
  {
    MatchIsATarget(key, PTP_EDGES);
  }

  lemma NextFollows(p: seq<byte>, n: Node, off: nat)
    requires Fits(p, n, off)
    ensures Next(p, n, off).Some? ==> MayFollow(n, Next(p, n, off).value)
  {
    hide MatchEdges, ReadUnsigned;
    match n
    case Eth => EthertypeTargets(ReadUnsigned(ETHERTYPE, p, off));
    case Vlan => EthertypeTargets(ReadUnsigned(INNER_ETHERTYPE, p, off));
    case Ipv4 => IpProtoTargets(ReadUnsigned(IPV4_PROTOCOL, p, off));
    case Ipv6 => Ip6NextTargets(ReadUnsigned(IPV6_NEXT_HEADER, p, off));
    case Tcp => SomeipTargets(ReadUnsigned(DST_PORT, p, off), ReadUnsigned(SRC_PORT, p, off));
    case Udp => SomeipTargets(ReadUnsigned(DST_PORT, p, off), ReadUnsigned(SRC_PORT, p, off));
    case Gptp => PtpTargets(ReadUnsigned(PTP_MESSAGE_TYPE, p, off));
    case PtpTimestampBody =>
    case PtpTsPortBody =>
    case PtpAnnounceBody =>
    case PtpSignalingBody =>
    case Someip =>
    case _ => Ip6NextTargets(ReadUnsigned(EXT_NEXT_HEADER, p, off));
  }

  // ---- the grammar ------------------------------------------------------------------------------------

  function Names(vs: seq<Visit>): (ns: seq<Node>)
    ensures |ns| == |vs|
    ensures forall i :: 0 <= i < |vs| ==> ns[i] == vs[i].node
  {
    seq(|vs|, i requires 0 <= i < |vs| => vs[i].node)
  }

  /** ((Tcp | Udp) Someip?)? */
  predicate L4Word(ns: seq<Node>) {
    ns == [] || (IsL4(ns[0]) && (|ns| == 1 || ns[1..] == [Someip]))
  }

  /** Ext* ((Tcp | Udp) Someip?)? */
  ghost predicate Ipv6Tail(ns: seq<Node>) {
    exists k :: 0 <= k <= |ns| && (forall i :: 0 <= i < k ==> IsExt(ns[i])) && L4Word(ns[k..])
  }

  /** (Ipv4 L4? | Ipv6 Ext* L4? | Gptp Body?)? */
  ghost predicate NetworkWord(ns: seq<Node>) {
    || ns == []
    || (ns[0] == Ipv4 && L4Word(ns[1..]))
    || (ns[0] == Ipv6 && Ipv6Tail(ns[1..]))
    || (ns[0] == Gptp && (|ns| == 1 || (|ns| == 2 && IsPtpBody(ns[1]))))
  }

  /** Vlan* (Ipv4 L4? | Ipv6 Ext* L4? | Gptp Body?)? */
  ghost predicate LinkTail(ns: seq<Node>) {
    exists k :: 0 <= k <= |ns| && (forall i :: 0 <= i < k ==> ns[i] == Vlan) && NetworkWord(ns[k..])
  }

  /** A packet too short for an Ethernet header, or Eth followed by a LinkTail. The language is closed under
      prefixes, so it also describes walks the step cap or the packet end cut short. */
  ghost predicate FrameWord(ns: seq<Node>) {
    ns == [] || (ns[0] == Eth && LinkTail(ns[1..]))
  }

  ghost predicate Chain(ns: seq<Node>) {
    forall i :: 0 < i < |ns| ==> MayFollow(ns[i - 1], ns[i])
  }

  lemma ChainL4(ns: seq<Node>)
    requires Chain(ns) && (ns != [] ==> IsL4(ns[0]))
    ensures L4Word(ns)
  {
    if |ns| > 1 {
      assert MayFollow(ns[0], ns[1]);
      assert |ns| > 2 ==> MayFollow(ns[1], ns[2]);
      assert ns[1..] == [ns[1]];
    }
  }

  lemma {:induction false} ChainIpv6Tail(ns: seq<Node>)
    requires Chain(ns) && (ns != [] ==> IsExt(ns[0]) || IsL4(ns[0]))
    ensures Ipv6Tail(ns)
  {
    if ns == [] || IsL4(ns[0]) {
      ChainL4(ns);
      assert ns[0..] == ns;
    } else {
      var rest := ns[1..];
      assert forall i :: 0 < i < |rest| ==> MayFollow(ns[i], ns[i + 1]);
      assert rest != [] ==> MayFollow(ns[0], ns[1]);
      ChainIpv6Tail(rest);
      var k :| 0 <= k <= |rest| && (forall i :: 0 <= i < k ==> IsExt(rest[i])) && L4Word(rest[k..]);
      assert ns[k + 1..] == rest[k..];
      assert forall i :: 0 <= i < k + 1 ==> IsExt(ns[i]) by {
        assert forall i :: 0 < i < k + 1 ==> ns[i] == rest[i - 1];
      }
    }
  }

  lemma ChainNetwork(ns: seq<Node>)
    requires Chain(ns) && (ns != [] ==> ns[0] in {Ipv4, Ipv6, Gptp})
    ensures NetworkWord(ns)
  {
    if ns != [] {
      var rest := ns[1..];
      assert forall i :: 0 < i < |rest| ==> MayFollow(ns[i], ns[i + 1]);
      assert rest != [] ==> MayFollow(ns[0], ns[1]);
      if ns[0] == Ipv4 {
        ChainL4(rest);
      } else if ns[0] == Ipv6 {
        ChainIpv6Tail(rest);
      } else {
        assert |ns| > 2 ==> MayFollow(ns[1], ns[2]);
      }
    }
  }

  lemma ChainRest(ns: seq<Node>)
    requires Chain(ns) && ns != []
    ensures Chain(ns[1..])
    ensures ns[1..] != [] && ns[0] == Vlan ==> ns[1..][0] in {Vlan, Ipv4, Ipv6, Gptp}
  {
    var rest := ns[1..];
    assert forall i :: 0 < i < |rest| ==> MayFollow(ns[i], ns[i + 1]);
    assert rest != [] ==> MayFollow(ns[0], ns[1]);
  }

  lemma {:induction false} ChainLinkTail(ns: seq<Node>)
    requires Chain(ns) && (ns != [] ==> ns[0] in {Vlan, Ipv4, Ipv6, Gptp})
    ensures LinkTail(ns)
  {
    hide Chain, NetworkWord;
    if ns == [] || ns[0] != Vlan {
      ChainNetwork(ns);
      assert ns[0..] == ns;
    } else {
      var rest := ns[1..];
      ChainRest(ns);
      ChainLinkTail(rest);
      var k :| 0 <= k <= |rest| && (forall i :: 0 <= i < k ==> rest[i] == Vlan) && NetworkWord(rest[k..]);
      assert ns[k + 1..] == rest[k..];
      assert forall i :: 0 <= i < k + 1 ==> ns[i] == Vlan by {
        assert forall i :: 0 < i < k + 1 ==> ns[i] == rest[i - 1];
      }
    }
  }

  lemma WalkIsAChain(p: seq<byte>, root: Node)
    ensures Chain(Names(Visits(p, root)))
  {
    hide Next, Advance, MayFollow;
    var vs := Visits(p, root);
    VisitsAreTheWalk(p, root, vs);
    forall i | 0 < i < |vs| ensures MayFollow(vs[i - 1].node, vs[i].node) {
      NextFollows(p, vs[i - 1].node, vs[i - 1].off);
    }
  }

  /** Every walk, on every byte string, is a word of the frame grammar. */
  lemma EveryWalkIsAFrameWord(p: seq<byte>)
    ensures FrameWord(Names(Visits(p, Eth)))
  {
    hide Next, Advance;
    WalkIsAChain(p, Eth);
    VisitsAreTheWalk(p, Eth, Visits(p, Eth));
    var ns := Names(Visits(p, Eth));
    if ns != [] {
      var rest := ns[1..];
      assert forall i :: 0 < i < |rest| ==> MayFollow(ns[i], ns[i + 1]);
      assert rest != [] ==> MayFollow(ns[0], ns[1]);
      ChainLinkTail(rest);
    }
  }

  // ---- rows per table ---------------------------------------------------------------------------------

  function Layer(n: Node): nat {
    match n
    case Eth => 0
    case Vlan => 1
    case Ipv4 => 2
    case Ipv6 => 2
    case Gptp => 2
    case Tcp => 4
    case Udp => 4
    case Someip => 5
    case _ => 3
  }

  /** Only VLAN tags and IPv6 extension headers can stack. */
  predicate Stacks(n: Node) { n == Vlan || IsExt(n) }

  lemma {:induction false} LayersClimb(ns: seq<Node>, i: nat, j: nat)
    requires Chain(ns) && i < j < |ns|
    ensures Layer(ns[i]) <= Layer(ns[j])
    ensures Layer(ns[i]) == Layer(ns[j]) ==> Stacks(ns[i]) && Stacks(ns[j])
  {
    assert MayFollow(ns[j - 1], ns[j]);
    if i < j - 1 {
      LayersClimb(ns, i, j - 1);
    }
  }

  /** Two headers of one packet share a layer only as VLAN tags or extension headers: a packet yields at most
      one row in every other table, never rows in both IP tables (or IP and gPTP), never in both TCP and UDP,
      and at most one gPTP body. */
  lemma AtMostOneRowPerLayer(p: seq<byte>)
    ensures var vs := Visits(p, Eth);
      forall i, j :: 0 <= i < j < |vs| && Layer(vs[i].node) == Layer(vs[j].node) ==>
        (vs[i].node == vs[j].node == Vlan) || (IsExt(vs[i].node) && IsExt(vs[j].node))
  {
    hide Next, Advance, Trace;
    WalkIsAChain(p, Eth);
    var ns := Names(Visits(p, Eth));
    forall i, j | 0 <= i < j < |ns| && Layer(ns[i]) == Layer(ns[j])
      ensures (ns[i] == ns[j] == Vlan) || (IsExt(ns[i]) && IsExt(ns[j]))
    {
      LayersClimb(ns, i, j);
    }
  }

  /** A header whose packet is not the first fragment. */
  predicate LaterFragment(p: seq<byte>, n: Node, off: nat)
    requires off + HeaderLen(n) <= |p|
  {
    || (n == Ipv4 && ReadUnsigned(IPV4_FRAG_OFFSET, p, off) != 0)
    || (n == Fragment && ReadUnsigned(FRAGMENT_OFFSET, p, off) != 0)
  }

  lemma LaterFragmentStops(p: seq<byte>, n: Node, off: nat)
    requires Fits(p, n, off) && LaterFragment(p, n, off)
    ensures Next(p, n, off) == None
  {
    hide MatchEdges, ReadUnsigned;
  }

  /** Nothing follows an IPv4 header or a Fragment header whose fragment offset is not zero: the bytes after it
      are fragment data. */
  lemma FragmentsEndTheWalk(p: seq<byte>, root: Node)
    ensures var vs := Visits(p, root);
      forall i :: 0 <= i < |vs| && LaterFragment(p, vs[i].node, vs[i].off) ==> i == |vs| - 1
  {
    hide Advance, Next, Trace, LaterFragment;
    var vs := Visits(p, root);
    VisitsAreTheWalk(p, root, vs);
    forall i | 0 <= i < |vs| && LaterFragment(p, vs[i].node, vs[i].off)
      ensures i == |vs| - 1
    {
      ghost var j := i + 1;
      assert j < |vs| ==> Next(p, vs[j - 1].node, vs[j - 1].off) == Some(vs[j].node);
      LaterFragmentStops(p, vs[i].node, vs[i].off);
    }
  }

  // ---- offsets ----------------------------------------------------------------------------------------

  lemma AdvanceBounds(p: seq<byte>, n: Node, off: nat)
    requires Fits(p, n, off)
    ensures Advance(p, n, off) >= 4
    ensures Advance(p, n, off) < HeaderLen(n) <==> n == Ah && ReadUnsigned(AH_PAYLOAD_LEN, p, off) == 0
  {
    hide ReadField;
  }

  /** Every visited header lies inside the packet; offsets climb by at least 4; and one header starts before
      the previous one ended exactly when the previous one is an Authentication Header claiming length 0. */
  lemma HeadersLieInOrder(p: seq<byte>, root: Node)
    ensures var vs := Visits(p, root);
      && (forall i :: 0 <= i < |vs| ==> vs[i].off + SpecSize(NodeSpec(vs[i].node)) <= |p|)
      && (forall i :: 0 < i < |vs| ==> vs[i].off >= vs[i - 1].off + 4)
      && (forall i :: 0 < i < |vs| ==>
            (vs[i].off < vs[i - 1].off + HeaderLen(vs[i - 1].node) <==>
             vs[i - 1].node == Ah && ReadUnsigned(AH_PAYLOAD_LEN, p, vs[i - 1].off) == 0))
  {
    hide Advance, Next, ReadUnsigned, SpecSize, NodeSpec, HeaderLen;
    var vs := Visits(p, root);
    VisitsAreTheWalk(p, root, vs);
    forall i | 0 <= i < |vs| ensures vs[i].off + SpecSize(NodeSpec(vs[i].node)) <= |p| {
      SpecSizes(vs[i].node);
    }
    forall i | 0 < i < |vs|
      ensures vs[i].off >= vs[i - 1].off + 4
      ensures vs[i].off < vs[i - 1].off + HeaderLen(vs[i - 1].node) <==>
              vs[i - 1].node == Ah && ReadUnsigned(AH_PAYLOAD_LEN, p, vs[i - 1].off) == 0
    {
      AdvanceBounds(p, vs[i - 1].node, vs[i - 1].off);
      assert vs[i].off == After(p, vs[i - 1]);
    }
  }

  /** A header whose own length field puts its end past the packet. */
  predicate DeclaresPast(p: seq<byte>, n: Node, off: nat)
    requires off + HeaderLen(n) <= |p|
  {
    match n
    case Ipv4 => off + 4 * ReadUnsigned(IPV4_IHL, p, off) > |p|
    case Tcp => off + 4 * ReadUnsigned(TCP_DATA_OFFSET, p, off) > |p|
    case HopByHop => off + 8 * (ReadUnsigned(EXT_LEN, p, off) + 1) > |p|
    case Routing => off + 8 * (ReadUnsigned(EXT_LEN, p, off) + 1) > |p|
    case DestOpt => off + 8 * (ReadUnsigned(EXT_LEN, p, off) + 1) > |p|
    case Ah => off + 4 * (ReadUnsigned(AH_PAYLOAD_LEN, p, off) + 2) > |p|
    case _ => false
  }

  lemma DeclaredEnd(p: seq<byte>, n: Node, off: nat)
    requires Fits(p, n, off)
    ensures off + Advance(p, n, off) > |p| <==> DeclaresPast(p, n, off)
  {
    hide ReadUnsigned;
  }

  /** The parsed length exceeds the packet exactly when some visited header declares an end past the packet;
      every header but the last ends inside it. */
  lemma ConsumedOverrunsExactly(p: seq<byte>, root: Node)
    ensures var vs := Visits(p, root);
      Consumed(p, vs) > |p| <==> exists i :: 0 <= i < |vs| && DeclaresPast(p, vs[i].node, vs[i].off)
    ensures var vs := Visits(p, root);
      forall i :: 0 <= i < |vs| - 1 ==> !DeclaresPast(p, vs[i].node, vs[i].off)
  {
    hide Trace, Advance, Next, DeclaresPast;
    var vs := Visits(p, root);
    VisitsAreTheWalk(p, root, vs);
    forall i | 0 <= i < |vs| - 1 ensures !DeclaresPast(p, vs[i].node, vs[i].off) {
      DeclaredEnd(p, vs[i].node, vs[i].off);
      assert vs[i + 1].off == After(p, vs[i + 1 - 1]);
      assert Fits(p, vs[i + 1].node, vs[i + 1].off);
    }
    if vs != [] {
      DeclaredEnd(p, vs[|vs| - 1].node, vs[|vs| - 1].off);
    }
  }

  // ---- the step cap -----------------------------------------------------------------------------------

  /** The same walk without a step cap; it terminates because every header moves the offset forward inside
      the packet. */
  ghost function UncappedTrace(p: seq<byte>, n: Node, off: nat): seq<Visit>
    decreases |p| - off
  {
    if !Fits(p, n, off) then []
    else
      [Visit(n, off)] +
      match Next(p, n, off)
      case None => []
      case Some(m) =>
        AdvanceBounds(p, n, off);
        UncappedTrace(p, m, off + Advance(p, n, off))
  }

  /** The capped walk is exactly the first 32 visits of the uncapped one; on a packet of up to 128 bytes the
      cap never bites. */
  lemma CapTruncates(p: seq<byte>, root: Node)
    ensures var full := UncappedTrace(p, root, 0);
      && Visits(p, root) == full[..Min(|full|, MAX_WALK_STEPS)]
      && (|p| <= 4 * MAX_WALK_STEPS ==> Visits(p, root) == full)
  {
    hide Advance, Next;
    TraceIsAPrefix(p, root, 0, MAX_WALK_STEPS);
    UncappedLength(p, root, 0);
  }

  lemma {:induction false} TraceIsAPrefix(p: seq<byte>, n: Node, off: nat, budget: nat)
    ensures var full := UncappedTrace(p, n, off);
      Trace(p, n, off, budget) == full[..Min(|full|, budget)]
    decreases budget
  {
    hide Advance, Next;
    if budget > 0 && Fits(p, n, off) && Next(p, n, off).Some? {
      TraceIsAPrefix(p, Next(p, n, off).value, off + Advance(p, n, off), budget - 1);
    }
  }

  /** Headers start at least four bytes apart. */
  lemma {:induction false} UncappedLength(p: seq<byte>, n: Node, off: nat)
    ensures var full := UncappedTrace(p, n, off); full != [] ==> 4 * (|full| - 1) + off < |p|
    decreases |p| - off
  {
    hide Advance, Next;
    if Fits(p, n, off) && Next(p, n, off).Some? {
      AdvanceBounds(p, n, off);
      UncappedLength(p, Next(p, n, off).value, off + Advance(p, n, off));
    }
  }
}
