/** The protocol graph: node dispatch and the bounded walk. */
module Dag {
  import opened Wire
  import opened WireSpec
  import opened Protocols

  datatype Node =
    | Eth | Vlan | Ipv4 | Ipv6 | Tcp | Udp | Gptp
    | PtpTimestampBody | PtpTsPortBody | PtpAnnounceBody | PtpSignalingBody
    | HopByHop | Routing | Fragment | DestOpt | Ah | Someip

  /** The nodes in graph order; a node's id is its position. */
  const GRAPH: seq<Node> := [
    Eth, Vlan, Ipv4, Ipv6, Tcp, Udp, Gptp, PtpTimestampBody, PtpTsPortBody, PtpAnnounceBody, PtpSignalingBody,
    HopByHop, Routing, Fragment, DestOpt, Ah, Someip]

  const GRAPH_SIZE: nat := 17

  function NodeId(n: Node): (id: nat)
    ensures id < GRAPH_SIZE == |GRAPH| && GRAPH[id] == n
  {
    match n
    case Eth => 0 case Vlan => 1 case Ipv4 => 2 case Ipv6 => 3 case Tcp => 4 case Udp => 5 case Gptp => 6
    case PtpTimestampBody => 7 case PtpTsPortBody => 8 case PtpAnnounceBody => 9 case PtpSignalingBody => 10
    case HopByHop => 11 case Routing => 12 case Fragment => 13 case DestOpt => 14 case Ah => 15 case Someip => 16
  }

  function NodeSpec(n: Node): Spec {
    match n
    case Eth => ETHERNET_SPEC
    case Vlan => VLAN_SPEC
    case Ipv4 => IPV4_SPEC
    case Ipv6 => IPV6_SPEC
    case Tcp => TCP_SPEC
    case Udp => UDP_SPEC
    case Gptp => PTP_HEADER_SPEC
    case PtpTimestampBody => PTP_TIMESTAMP_BODY_SPEC
    case PtpTsPortBody => PTP_TS_PORT_BODY_SPEC
    case PtpAnnounceBody => PTP_ANNOUNCE_BODY_SPEC
    case PtpSignalingBody => PTP_SIGNALING_BODY_SPEC
    case HopByHop => EXT_OPT_SPEC
    case Routing => SRH_SPEC
    case Fragment => FRAGMENT_SPEC
    case DestOpt => EXT_OPT_SPEC
    case Ah => AH_SPEC
    case Someip => SOMEIP_SPEC
  }

  /** The fixed header length of each node: the size of its spec (SpecSizes). */
  function HeaderLen(n: Node): nat {
    match n
    case Eth => 14
    case Vlan => 4
    case Ipv4 => 20
    case Ipv6 => 40
    case Tcp => 20
    case Udp => 8
    case Gptp => 34
    case PtpTimestampBody => 10
    case PtpTsPortBody => 20
    case PtpAnnounceBody => 30
    case PtpSignalingBody => 10
    case HopByHop => 2
    case Routing => 8
    case Fragment => 8
    case DestOpt => 2
    case Ah => 12
    case Someip => 16
  }

  lemma SpecSizes(n: Node)
    ensures SpecSize(NodeSpec(n)) == HeaderLen(n)
    ensures forall i :: 0 <= i < |Flatten(NodeSpec(n))| ==>
      Flatten(NodeSpec(n))[i].Valid() && Flatten(NodeSpec(n))[i].End() <= HeaderLen(n)
  {
    var spec := NodeSpec(n);
    NodeSpecExtent(n);
    FlatteningPreservesSize(spec);
    FlatteningPreservesValidity(spec);
    MaxEndIsMaximum(Flatten(spec));
  }

  lemma SubRecordExtents()
    ensures Extent(TIMESTAMP_SPEC) == 10 && LeafCount(TIMESTAMP_SPEC) > 0
    ensures Extent(PORT_IDENTITY_SPEC) == 10 && LeafCount(PORT_IDENTITY_SPEC) > 0
    ensures Extent(CLOCK_QUALITY_SPEC) == 4 && LeafCount(CLOCK_QUALITY_SPEC) > 0
    ensures ValidSpec(TIMESTAMP_SPEC) && ValidSpec(PORT_IDENTITY_SPEC) && ValidSpec(CLOCK_QUALITY_SPEC)
  {
    ExtentIs(TIMESTAMP_SPEC, 10, 2);
    ExtentIs(PORT_IDENTITY_SPEC, 10, 1);
    ExtentIs(CLOCK_QUALITY_SPEC, 4, 2);
  }

  lemma LinkSpecs()
    ensures Extent(ETHERNET_SPEC) == 14 && ValidSpec(ETHERNET_SPEC)
    ensures Extent(VLAN_SPEC) == 4 && ValidSpec(VLAN_SPEC)
  {
    ExtentIs(ETHERNET_SPEC, 14, 2);
    ExtentIs(VLAN_SPEC, 4, 3);
  }

  lemma Ipv4SpecSize()
    ensures Extent(IPV4_SPEC) == 20 && ValidSpec(IPV4_SPEC)
  {
    ExtentIs(IPV4_SPEC, 20, 12);
  }

  lemma Ipv6SpecSize()
    ensures Extent(IPV6_SPEC) == 40 && ValidSpec(IPV6_SPEC)
  {
    ExtentIs(IPV6_SPEC, 40, 7);
  }

  lemma TransportSpecs()
    ensures Extent(TCP_SPEC) == 20 && ValidSpec(TCP_SPEC)
    ensures Extent(UDP_SPEC) == 8 && ValidSpec(UDP_SPEC)
  {
    ExtentIs(TCP_SPEC, 20, 9);
    ExtentIs(UDP_SPEC, 8, 3);
  }

  lemma ExtensionSpecs()
    ensures Extent(EXT_OPT_SPEC) == 2 && ValidSpec(EXT_OPT_SPEC)
    ensures Extent(SRH_SPEC) == 8 && ValidSpec(SRH_SPEC)
    ensures Extent(FRAGMENT_SPEC) == 8 && ValidSpec(FRAGMENT_SPEC)
    ensures Extent(AH_SPEC) == 12 && ValidSpec(AH_SPEC)
  {
    ExtentIs(EXT_OPT_SPEC, 2, 1);
    ExtentIs(SRH_SPEC, 8, 6);
    ExtentIs(FRAGMENT_SPEC, 8, 5);
    ExtentIs(AH_SPEC, 12, 4);
  }

  lemma PtpHeaderSpecSize()
    ensures Extent(PTP_HEADER_SPEC) == 34 && ValidSpec(PTP_HEADER_SPEC)
  {
    ExtentIs(PTP_HEADER_SPEC, 34, 11);
  }

  lemma SomeipSpecSize()
    ensures Extent(SOMEIP_SPEC) == 16 && ValidSpec(SOMEIP_SPEC)
  {
    ExtentIs(SOMEIP_SPEC, 16, 8);
  }

  lemma PtpBodySpecs()
    ensures Extent(PTP_TIMESTAMP_BODY_SPEC) == 10 && ValidSpec(PTP_TIMESTAMP_BODY_SPEC)
    ensures Extent(PTP_TS_PORT_BODY_SPEC) == 20 && ValidSpec(PTP_TS_PORT_BODY_SPEC)
    ensures Extent(PTP_ANNOUNCE_BODY_SPEC) == 30 && ValidSpec(PTP_ANNOUNCE_BODY_SPEC)
    ensures Extent(PTP_SIGNALING_BODY_SPEC) == 10 && ValidSpec(PTP_SIGNALING_BODY_SPEC)
  {
    SubRecordExtents();
    ExtentIs(PTP_TIMESTAMP_BODY_SPEC, 10, 0);
    ExtentIs(PTP_TS_PORT_BODY_SPEC, 20, 1);
    ExtentIs(PTP_ANNOUNCE_BODY_SPEC, 30, 7);
    ExtentIs(PTP_SIGNALING_BODY_SPEC, 10, 0);
  }

  lemma NodeSpecExtent(n: Node)
    ensures Extent(NodeSpec(n)) == HeaderLen(n)
    ensures ValidSpec(NodeSpec(n))
  {
    match n
    case Eth => LinkSpecs();
    case Vlan => LinkSpecs();
    case Ipv4 => Ipv4SpecSize();
    case Ipv6 => Ipv6SpecSize();
    case Tcp => TransportSpecs();
    case Udp => TransportSpecs();
    case Gptp => PtpHeaderSpecSize();
    case PtpTimestampBody => PtpBodySpecs();
    case PtpTsPortBody => PtpBodySpecs();
    case PtpAnnounceBody => PtpBodySpecs();
    case PtpSignalingBody => PtpBodySpecs();
    case HopByHop => ExtensionSpecs();
    case Routing => ExtensionSpecs();
    case Fragment => ExtensionSpecs();
    case DestOpt => ExtensionSpecs();
    case Ah => ExtensionSpecs();
    case Someip => SomeipSpecSize();
  }

  // ---- edges ------------------------------------------------------------------------------------------

  datatype Edge = Edge(key: nat, target: Node)

  const ETHERTYPE_EDGES: seq<Edge> := [
    Edge(0x8100, Vlan), Edge(0x88A8, Vlan), Edge(0x0800, Ipv4), Edge(0x86DD, Ipv6), Edge(0x88F7, Gptp)]

  const IP_PROTO_EDGES: seq<Edge> := [Edge(6, Tcp), Edge(17, Udp)]

  const IP6_NEXT_EDGES: seq<Edge> := [
    Edge(0, HopByHop), Edge(43, Routing), Edge(44, Fragment), Edge(60, DestOpt), Edge(51, Ah), Edge(6, Tcp),
    Edge(17, Udp)]

  const SOMEIP_PORT_EDGES: seq<Edge> := [Edge(SOMEIP_SD_PORT, Someip)]

  const PTP_EDGES: seq<Edge> := [
    Edge(PTP_SYNC, PtpTimestampBody), Edge(PTP_FOLLOW_UP, PtpTimestampBody),
    Edge(PTP_DELAY_REQ, PtpTimestampBody), Edge(PTP_PDELAY_REQ, PtpTimestampBody),
    Edge(PTP_DELAY_RESP, PtpTsPortBody), Edge(PTP_PDELAY_RESP, PtpTsPortBody),
    Edge(PTP_PDELAY_RESP_FOLLOW_UP, PtpTsPortBody), Edge(PTP_ANNOUNCE, PtpAnnounceBody),
    Edge(PTP_SIGNALING, PtpSignalingBody)]

  /** Scan the whole edge table; a later match overwrites an earlier one. */
  function MatchEdges(key: nat, edges: seq<Edge>): Option<Node> {
    if edges == [] then None
    else
      var last := edges[|edges| - 1];
      if key == last.key then Some(last.target) else MatchEdges(key, edges[..|edges| - 1])
  }

  ghost predicate DistinctKeys(edges: seq<Edge>) {
    forall i, j :: 0 <= i < j < |edges| ==> edges[i].key != edges[j].key
  }

  /** Edges that repeat a key carry it to the same node. */
  ghost predicate OneTargetPerKey(edges: seq<Edge>) {
    forall i, j :: 0 <= i < j < |edges| && edges[i].key == edges[j].key ==> edges[i].target == edges[j].target
  }

  /** The scan finds a node exactly when some edge carries the key to it. */
  ghost predicate FindsEveryEdge(edges: seq<Edge>) {
    forall key: nat, n: Node :: MatchEdges(key, edges) == Some(n) <==> Edge(key, n) in edges
  }

  /** What is found is the target of an edge with the key; nothing is found exactly when no edge has the key; and
      when edges with the key agree, every one of them is found. */
  lemma {:induction false} MatchEdgesFinds(key: nat, edges: seq<Edge>)
    ensures match MatchEdges(key, edges)
            case None => forall i :: 0 <= i < |edges| ==> edges[i].key != key
            case Some(n) => Edge(key, n) in edges
    ensures OneTargetPerKey(edges) ==> forall n :: MatchEdges(key, edges) == Some(n) <==> Edge(key, n) in edges
  {
    if edges != [] {
      var front := edges[..|edges| - 1];
      MatchEdgesFinds(key, front);
      assert edges == front + [edges[|edges| - 1]];
    }
  }

  /** The scan finds exactly the edges of a table, in whatever order they stand, if and only if edges that repeat a
      key carry it to the same node. */
  lemma MatchEdgesExact(edges: seq<Edge>)
    ensures FindsEveryEdge(edges) <==> OneTargetPerKey(edges)
  {
    if OneTargetPerKey(edges) {
      forall key: nat, n: Node ensures MatchEdges(key, edges) == Some(n) <==> Edge(key, n) in edges {
        MatchEdgesFinds(key, edges);
      }
    }
    if FindsEveryEdge(edges) {
      forall i, j | 0 <= i < j < |edges| && edges[i].key == edges[j].key
        ensures edges[i].target == edges[j].target
      {
        assert Edge(edges[i].key, edges[i].target) in edges && Edge(edges[j].key, edges[j].target) in edges;
      }
    }
  }

  /** No concrete table repeats a key. */
  lemma TablesHaveDistinctKeys()
    ensures DistinctKeys(ETHERTYPE_EDGES) && DistinctKeys(IP_PROTO_EDGES) && DistinctKeys(IP6_NEXT_EDGES)
    ensures DistinctKeys(SOMEIP_PORT_EDGES) && DistinctKeys(PTP_EDGES)
  {
  }

  function SomeipPortDispatch(dst: nat, src: nat): Option<Node> {
    var t := MatchEdges(dst, SOMEIP_PORT_EDGES);
    if t.Some? then t else MatchEdges(src, SOMEIP_PORT_EDGES)
  }

  // ---- nodes ------------------------------------------------------------------------------------------

  ghost predicate Fits(p: seq<byte>, n: Node, off: nat) {
    off + HeaderLen(n) <= |p|
  }

  /** Bytes to the next header. */
  function Advance(p: seq<byte>, n: Node, off: nat): nat
    requires Fits(p, n, off)
  {
    match n
    case Eth => 14
    case Vlan => 4
    case Ipv4 => Max(ReadUnsigned(IPV4_IHL, p, off) * 4, 20)
    case Ipv6 => 40
    case Tcp => Max(ReadUnsigned(TCP_DATA_OFFSET, p, off) * 4, 20)
    case Udp => 8
    case Gptp => PTP_HEADER_LEN
    case PtpTimestampBody => 10
    case PtpTsPortBody => 20
    case PtpAnnounceBody => 30
    case PtpSignalingBody => 10
    case HopByHop => (ReadUnsigned(EXT_LEN, p, off) + 1) * 8
    case Routing => (ReadUnsigned(EXT_LEN, p, off) + 1) * 8
    case Fragment => 8
    case DestOpt => (ReadUnsigned(EXT_LEN, p, off) + 1) * 8
    case Ah => (ReadUnsigned(AH_PAYLOAD_LEN, p, off) + 2) * 4
    case Someip => SOMEIP_HEADER_LEN
  }

  /** The node the header at off dispatches to, if any. */
  function Next(p: seq<byte>, n: Node, off: nat): Option<Node>
    requires Fits(p, n, off)
  {
    match n
    case Eth => MatchEdges(ReadUnsigned(ETHERTYPE, p, off), ETHERTYPE_EDGES)
    case Vlan => MatchEdges(ReadUnsigned(INNER_ETHERTYPE, p, off), ETHERTYPE_EDGES)
    case Ipv4 =>
      if ReadUnsigned(IPV4_FRAG_OFFSET, p, off) != 0 then None
      else MatchEdges(ReadUnsigned(IPV4_PROTOCOL, p, off), IP_PROTO_EDGES)
    case Ipv6 => MatchEdges(ReadUnsigned(IPV6_NEXT_HEADER, p, off), IP6_NEXT_EDGES)
    case HopByHop => MatchEdges(ReadUnsigned(EXT_NEXT_HEADER, p, off), IP6_NEXT_EDGES)
    case Routing => MatchEdges(ReadUnsigned(EXT_NEXT_HEADER, p, off), IP6_NEXT_EDGES)
    case Fragment =>
      if ReadUnsigned(FRAGMENT_OFFSET, p, off) != 0 then None
      else MatchEdges(ReadUnsigned(EXT_NEXT_HEADER, p, off), IP6_NEXT_EDGES)
    case DestOpt => MatchEdges(ReadUnsigned(EXT_NEXT_HEADER, p, off), IP6_NEXT_EDGES)
    case Ah => MatchEdges(ReadUnsigned(EXT_NEXT_HEADER, p, off), IP6_NEXT_EDGES)
    case Tcp => SomeipPortDispatch(ReadUnsigned(DST_PORT, p, off), ReadUnsigned(SRC_PORT, p, off))
    case Udp => SomeipPortDispatch(ReadUnsigned(DST_PORT, p, off), ReadUnsigned(SRC_PORT, p, off))
    case Gptp => MatchEdges(ReadUnsigned(PTP_MESSAGE_TYPE, p, off), PTP_EDGES)
    case PtpTimestampBody => None
    case PtpTsPortBody => None
    case PtpAnnounceBody => None
    case PtpSignalingBody => None
    case Someip => None
  }

  // ---- the walk ---------------------------------------------------------------------------------------

  const MAX_WALK_STEPS: nat := 32

  /** One call of the visitor: a node and the offset of its header. */
  datatype Visit = Visit(node: Node, off: nat)

  /** Where the header of a visit leads. */
  ghost function After(p: seq<byte>, v: Visit): nat
    requires Fits(p, v.node, v.off)
  {
    v.off + Advance(p, v.node, v.off)
  }

  /** The walk described without a loop: it starts at the root at offset 0, every header fits, every step
      follows the dispatch and advance of the header before it, and it stops only when the step budget is
      spent, dispatch stops, or the next header does not fit. */
  ghost predicate IsWalk(p: seq<byte>, root: Node, budget: nat, vs: seq<Visit>) {
    && |vs| <= budget
    && (forall i :: 0 <= i < |vs| ==> Fits(p, vs[i].node, vs[i].off))
    && (vs == [] ==> budget == 0 || !Fits(p, root, 0))
    && (vs != [] ==> vs[0] == Visit(root, 0))
    && (forall i :: 0 < i < |vs| ==>
          Next(p, vs[i - 1].node, vs[i - 1].off) == Some(vs[i].node) && vs[i].off == After(p, vs[i - 1]))
    && (vs != [] && |vs| < budget ==> Stuck(p, vs[|vs| - 1]))
  }

  ghost predicate Stuck(p: seq<byte>, v: Visit)
    requires Fits(p, v.node, v.off)
  {
    match Next(p, v.node, v.off)
    case None => true
    case Some(m) => !Fits(p, m, After(p, v))
  }

  /** At most one visit sequence is the walk of a packet. */
  lemma {:induction false} WalkIsUnique(p: seq<byte>, root: Node, budget: nat, a: seq<Visit>, b: seq<Visit>)
    requires IsWalk(p, root, budget, a) && IsWalk(p, root, budget, b)
    ensures a == b
  {
    if |a| <= |b| {
      SameUpTo(p, root, budget, a, b, |a|);
    } else {
      SameUpTo(p, root, budget, b, a, |b|);
    }
  }

  lemma {:induction false} SameUpTo(p: seq<byte>, root: Node, budget: nat, a: seq<Visit>, b: seq<Visit>, k: nat)
    requires IsWalk(p, root, budget, a) && IsWalk(p, root, budget, b)
    requires k <= |a| <= |b|
    ensures a[..k] == b[..k]
    ensures k == |a| ==> |a| == |b|
  {
    if k > 0 {
      SameUpTo(p, root, budget, a, b, k - 1);
      assert a[k - 1] == b[k - 1] by {
        if k > 1 {
          assert a[k - 2] == a[..k - 1][k - 2] == b[..k - 1][k - 2] == b[k - 2];
        }
      }
    }
    assert k < |b| ==> Fits(p, b[k].node, b[k].off);
    assert 0 < k < |b| ==> Next(p, b[k - 1].node, b[k - 1].off) == Some(b[k].node);
  }

  /** The walk's visits from a node at an offset, with a step budget. */
  ghost function Trace(p: seq<byte>, n: Node, off: nat, budget: nat): (vs: seq<Visit>)
    ensures |vs| <= budget
    ensures forall i :: 0 <= i < |vs| ==> Fits(p, vs[i].node, vs[i].off)
    decreases budget
  {
    if budget == 0 || !Fits(p, n, off) then []
    else
      [Visit(n, off)] +
      match Next(p, n, off)
      case None => []
      case Some(m) => Trace(p, m, off + Advance(p, n, off), budget - 1)
  }

  lemma TraceStep(p: seq<byte>, n: Node, off: nat, budget: nat)
    requires budget > 0 && Fits(p, n, off)
    ensures Trace(p, n, off, budget) == [Visit(n, off)] +
      (match Next(p, n, off)
       case None => []
       case Some(m) => Trace(p, m, off + Advance(p, n, off), budget - 1))
  {
    hide Advance, Next;
  }

  ghost function Visits(p: seq<byte>, root: Node): seq<Visit> {
    Trace(p, root, 0, MAX_WALK_STEPS)
  }

  /** The offset of the first byte the walk did not parse. It can lie past the end of the packet: a header's
      own length field is not clamped. */
  ghost function Consumed(p: seq<byte>, vs: seq<Visit>): nat
    requires vs != [] ==> Fits(p, vs[|vs| - 1].node, vs[|vs| - 1].off)
  {
    if vs == [] then 0 else After(p, vs[|vs| - 1])
  }

  datatype WalkEnd = WalkEnd(consumed: nat, steps: nat)

  /** The walk loop; the visitor's calls are returned in order. */
  method Walk(p: seq<byte>, root: Node) returns (vs: seq<Visit>, r: WalkEnd)
    ensures vs == Visits(p, root)
    ensures r == WalkEnd(Consumed(p, vs), |vs|)
  {
    hide Advance, Next, Trace, Consumed;
    vs, r := [], WalkEnd(0, 0);
    var node := Some(root);
    var off := 0;
    ConsumedNone(p);
    while r.steps < MAX_WALK_STEPS && node.Some?
      invariant r.steps == |vs| <= MAX_WALK_STEPS
      invariant vs != [] ==> Fits(p, vs[|vs| - 1].node, vs[|vs| - 1].off)
      invariant off == r.consumed == Consumed(p, vs)
      invariant Visits(p, root) ==
        vs + (if node.Some? then Trace(p, node.value, off, MAX_WALK_STEPS - |vs|) else [])
      decreases MAX_WALK_STEPS - r.steps
    {
      var n := node.value;
      if off + HeaderLen(n) > |p| {
        TraceStops(p, n, off, MAX_WALK_STEPS - |vs|);
        break;
      }
      var adv := Advance(p, n, off);
      var next := Next(p, n, off);
      ghost var rest := if next.Some? then Trace(p, next.value, off + adv, MAX_WALK_STEPS - |vs| - 1) else [];
      TraceStep(p, n, off, MAX_WALK_STEPS - |vs|);
      assert vs + ([Visit(n, off)] + rest) == vs + [Visit(n, off)] + rest;
      vs := vs + [Visit(n, off)];
      off := off + adv;
      r := WalkEnd(off, r.steps + 1);
      node := next;
      ConsumedStep(p, vs[..|vs| - 1], Visit(n, r.consumed - adv));
    }
    if node.Some? && r.steps == MAX_WALK_STEPS {
      TraceStops(p, node.value, off, 0);
    }
  }

  lemma ConsumedStep(p: seq<byte>, vs: seq<Visit>, v: Visit)
    requires Fits(p, v.node, v.off)
    ensures Consumed(p, vs + [v]) == v.off + Advance(p, v.node, v.off)
  {
    hide Advance, Next;
  }

  lemma ConsumedNone(p: seq<byte>)
    ensures Consumed(p, []) == 0
  {
  }

  lemma TraceStops(p: seq<byte>, n: Node, off: nat, budget: nat)
    requires budget == 0 || !Fits(p, n, off)
    ensures Trace(p, n, off, budget) == []
  {
  }

  /** The loop computes exactly the walk described by IsWalk. */
  lemma VisitsAreTheWalk(p: seq<byte>, root: Node, vs: seq<Visit>)
    ensures vs == Visits(p, root) <==> IsWalk(p, root, MAX_WALK_STEPS, vs)
  {
    hide Trace, Next, Advance, Stuck;
    TraceIsWalkFrom(p, root, 0, MAX_WALK_STEPS);
    if IsWalk(p, root, MAX_WALK_STEPS, vs) {
      WalkIsUnique(p, root, MAX_WALK_STEPS, vs, Visits(p, root));
    }
  }

  lemma {:induction false} TraceIsWalkFrom(p: seq<byte>, n: Node, off: nat, budget: nat)
    ensures var vs := Trace(p, n, off, budget);
      && (vs == [] <==> budget == 0 || !Fits(p, n, off))
      && (vs != [] ==> vs[0] == Visit(n, off))
      && (forall i :: 0 < i < |vs| ==>
            Next(p, vs[i - 1].node, vs[i - 1].off) == Some(vs[i].node) && vs[i].off == After(p, vs[i - 1]))
      && (vs != [] && |vs| < budget ==> Stuck(p, vs[|vs| - 1]))
    decreases budget
  {
    hide Advance, Next;
    if budget > 0 && Fits(p, n, off) && Next(p, n, off).Some? {
      TraceIsWalkFrom(p, Next(p, n, off).value, off + Advance(p, n, off), budget - 1);
    }
  }
}
