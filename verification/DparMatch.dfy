/** The matcher: which rules fire on a packet, and the region each hands to its parser. */
module DparMatch {
  import opened Wire
  import opened WireSpec
  import opened Protocols
  import opened Dag
  import opened DparFields
  import opened DparRules
  import DparSound

  // ---- rules the matcher can run ----------------------------------------------------------------------

  /** The field lies inside its node's header. */
  predicate FieldOk(f: FieldRef) {
    f.Valid() && f.nodeId < GRAPH_SIZE && f.offset + f.byteWidth <= HeaderLen(GRAPH[f.nodeId])
  }

  function AnchorNode(k: RegionKind): Node {
    match k
    case EthPayload => Eth
    case VlanPayload => Vlan
    case UdpPayload => Udp
    case TcpPayload => Tcp
    case SomeipPayload => Someip
  }

  predicate SelOk(sel: RegionSel) { sel.anchor < GRAPH_SIZE && GRAPH[sel.anchor] == AnchorNode(sel.kind) }

  predicate Runnable(r: Rule) {
    (forall k :: 0 <= k < |r.conditions| ==> FieldOk(r.conditions[k].field)) && SelOk(r.region)
  }

  predicate AllRunnable(rules: seq<Rule>) { forall i :: 0 <= i < |rules| ==> Runnable(rules[i]) }

  lemma AnchorNames(k: RegionKind)
    ensures NODE_NAMES[NodeId(AnchorNode(k))] == AnchorName(k)
  {
  }

  /** Every region's anchor resolves, to the node the region needs. */
  lemma AnchorsAreTheRegions(k: RegionKind)
    ensures AnchorNodeId(L2L3Catalog(), AnchorName(k)) == Some(NodeId(AnchorNode(k)))
  {
    hide L2L3Catalog, NODE_NAMES, AnchorName, AnchorNode, AnchorNodeId;
    AnchorNames(k);
    AnchorsResolve(AnchorName(k));
    NamesCount();
    NamesAreDistinct();
  }

  /** Whatever text the rules were compiled from, the matcher can run them. */
  lemma CompiledRulesAreRunnable(text: string, env: Env)
    requires env.catalog == L2L3Catalog()
    ensures Compile(text, env).Some? ==> AllRunnable(Compile(text, env).value)
  {
    hide Compile, NODE_NAMES, EntryOk, L2L3Catalog;
    DparSound.CompiledRulesAreOk(text, env);
    if Compile(text, env).Some? {
      var rules := Compile(text, env).value;
      forall i | 0 <= i < |rules| ensures Runnable(rules[i]) {
        RuleIsRunnable(rules[i], i, env);
      }
    }
  }

  lemma RuleIsRunnable(r: Rule, i: nat, env: Env)
    requires DparSound.RuleOk(r, i, env)
    ensures Runnable(r)
  {
    hide NODE_NAMES, EntryOk, AnchorNode, AnchorName;
    forall k | 0 <= k < |r.conditions| ensures FieldOk(r.conditions[k].field) {
      assert DparSound.ConditionOk(r.conditions[k]);
      var e :| EntryOk(e) && e.ref == r.conditions[k].field;
      EntryIsFieldOk(e);
    }
    NamesAreDistinct();
    AnchorNames(r.region.kind);
    assert r.region.anchor == NodeId(AnchorNode(r.region.kind));
  }

  lemma EntryIsFieldOk(e: CatalogEntry)
    requires EntryOk(e)
    ensures FieldOk(e.ref)
  {
  }

  // ---- the walk's record ------------------------------------------------------------------------------

  ghost predicate AllFit(p: seq<byte>, vs: seq<Visit>) { forall i :: 0 <= i < |vs| ==> Fits(p, vs[i].node, vs[i].off) }

  /** Where the last visit of a node was. */
  function LastOffset(vs: seq<Visit>, id: nat): (r: Option<nat>)
    ensures r.None? ==> forall i :: 0 <= i < |vs| ==> NodeId(vs[i].node) != id
    ensures r.Some? ==> exists i :: 0 <= i < |vs| && NodeId(vs[i].node) == id && vs[i].off == r.value &&
                                    forall j :: i < j < |vs| ==> NodeId(vs[j].node) != id
  {
    if vs == [] then None
    else
      var last := vs[|vs| - 1];
      if NodeId(last.node) == id then Some(last.off) else LastOffset(vs[..|vs| - 1], id)
  }

  lemma LastFits(p: seq<byte>, vs: seq<Visit>, id: nat)
    requires AllFit(p, vs) && id < GRAPH_SIZE && LastOffset(vs, id).Some?
    ensures Fits(p, GRAPH[id], LastOffset(vs, id).value)
  {
    hide LastOffset;
  }

  /** Both arrays, indexed by node, say what the walk saw. */
  ghost predicate Recorded(vs: seq<Visit>, offByNode: array<nat>, present: array<bool>)
    reads offByNode, present
  {
    && offByNode.Length == present.Length == GRAPH_SIZE
    && forall id :: 0 <= id < GRAPH_SIZE ==>
         && (present[id] <==> LastOffset(vs, id).Some?)
         && (present[id] ==> offByNode[id] == LastOffset(vs, id).value)
  }

  /** Walk the packet; the visitor overwrites a node's offset, so the last visit stays. */
  method RecordWalk(p: seq<byte>) returns (offByNode: array<nat>, present: array<bool>)
    ensures fresh(offByNode) && fresh(present) && Recorded(Visits(p, Eth), offByNode, present)
  {
    offByNode := new nat[GRAPH_SIZE](_ => 0);
    present := new bool[GRAPH_SIZE](_ => false);
    var vs, _ := Walk(p, Eth);
    for k := 0 to |vs|
      invariant Recorded(vs[..k], offByNode, present)
    {
      var id := NodeId(vs[k].node);
      assert vs[..k + 1][..k] == vs[..k];
      offByNode[id] := vs[k].off;
      present[id] := true;
    }
    assert vs[..|vs|] == vs;
  }

  // ---- conditions -------------------------------------------------------------------------------------

  function CmpApply(v: nat, op: CmpOp, o: nat): bool {
    match op
    case Eq => v == o
    case Lt => v < o
    case Gt => v > o
    case Le => v <= o
    case Ge => v >= o
  }

  /** A condition holds when its node was visited and the field of the last visit compares. */
  ghost predicate Holds(p: seq<byte>, vs: seq<Visit>, c: Condition)
    requires AllFit(p, vs) && FieldOk(c.field)
  {
    match LastOffset(vs, c.field.nodeId)
    case None => false
    case Some(off) =>
      LastFits(p, vs, c.field.nodeId);
      CmpApply(ReadRuntime(p, off, c.field), c.op, c.operand)
  }

  ghost predicate AllHold(p: seq<byte>, vs: seq<Visit>, cs: seq<Condition>)
    requires AllFit(p, vs) && forall k :: 0 <= k < |cs| ==> FieldOk(cs[k].field)
  {
    forall k :: 0 <= k < |cs| ==> Holds(p, vs, cs[k])
  }

  /** The predicate loop: stop at the first that fails. No read leaves the packet. */
  method EvalConditions(p: seq<byte>, ghost vs: seq<Visit>, offByNode: array<nat>, present: array<bool>, r: Rule)
    returns (ok: bool)
    requires AllFit(p, vs) && Recorded(vs, offByNode, present) && Runnable(r)
    ensures ok <==> AllHold(p, vs, r.conditions)
  {
    hide LastOffset, ReadRuntime;
    for k := 0 to |r.conditions|
      invariant forall j :: 0 <= j < k ==> Holds(p, vs, r.conditions[j])
    {
      var c := r.conditions[k];
      var id := c.field.nodeId;
      assert FieldOk(c.field);
      if !present[id] {
        assert !Holds(p, vs, c);
        return false;
      }
      LastFits(p, vs, id);
      var v := ReadFieldRuntime(p, offByNode[id], c.field);
      if !CmpApply(v, c.op, c.operand) {
        assert !Holds(p, vs, c);
        return false;
      }
    }
    ok := true;
  }

  // ---- regions ----------------------------------------------------------------------------------------

  /** A region of a packet, as offsets of its first byte and of the byte after its last. */
  datatype Span = Span(begin: nat, end: nat)

  /** The region of a selector: the bytes behind the last visit of its anchor's header, up to the packet's end
      or, for SOME/IP, the message's end. */
  ghost function Region(p: seq<byte>, vs: seq<Visit>, sel: RegionSel): (r: Option<Span>)
    requires AllFit(p, vs) && SelOk(sel)
    ensures r.Some? ==> r.value.begin <= r.value.end <= |p|
  {
    match LastOffset(vs, sel.anchor)
    case None => None
    case Some(off) =>
      LastFits(p, vs, sel.anchor);
      var begin := off + Advance(p, AnchorNode(sel.kind), off);
      if begin > |p| then None
      else if sel.kind.SomeipPayload? then
        Some(Span(begin, Max(begin, Min(|p|, off + 8 + ReadUnsigned(SOMEIP_LENGTH, p, off)))))
      else Some(Span(begin, |p|))
  }

  /** A visited anchor's region can fail to resolve only when a TCP header says it is longer than the packet. */
  lemma RegionFailsOnlyPastTheEnd(p: seq<byte>, vs: seq<Visit>, sel: RegionSel)
    requires AllFit(p, vs) && SelOk(sel)
    ensures Region(p, vs, sel).None? <==>
      (match LastOffset(vs, sel.anchor)
       case None => true
       case Some(off) =>
         LastFits(p, vs, sel.anchor);
         sel.kind.TcpPayload? && off + 4 * ReadUnsigned(TCP_DATA_OFFSET, p, off) > |p|)
  {
    hide LastOffset, ReadUnsigned;
    if LastOffset(vs, sel.anchor).Some? {
      LastFits(p, vs, sel.anchor);
    }
  }

  method ResolveRegion(sel: RegionSel, ghost vs: seq<Visit>, offByNode: array<nat>, present: array<bool>, p: seq<byte>)
    returns (r: Option<Span>)
    requires AllFit(p, vs) && Recorded(vs, offByNode, present) && SelOk(sel)
    ensures r == Region(p, vs, sel)
  {
    hide LastOffset, ReadUnsigned;
    var a := sel.anchor;
    if !present[a] {
      return None;
    }
    LastFits(p, vs, a);
    var off := offByNode[a];
    var begin, end := |p|, |p|;
    match sel.kind {
      case EthPayload => begin := off + 14;
      case VlanPayload => begin := off + 4;
      case UdpPayload => begin := off + 8;
      case TcpPayload =>
        var hdr := ReadUnsigned(TCP_DATA_OFFSET, p, off) * 4;
        begin := off + (if hdr >= 20 then hdr else 20);
      case SomeipPayload =>
        begin := off + SOMEIP_HEADER_LEN;
        var total := off + 8 + ReadUnsigned(SOMEIP_LENGTH, p, off);
        if total < end {
          end := total;
        }
    }
    if begin > |p| {
      return None;
    }
    if end < begin {
      end := begin;
    }
    r := Some(Span(begin, end));
  }

  // ---- firings ----------------------------------------------------------------------------------------

  /** A rule, by its place in the list, and the region it hands over. */
  datatype Firing = Firing(rule: nat, span: Span)

  ghost predicate Fires(p: seq<byte>, r: Rule)
    requires Runnable(r)
  {
    AllHold(p, Visits(p, Eth), r.conditions) && Region(p, Visits(p, Eth), r.region).Some?
  }

  /** The firings of the first n rules, in rule order. */
  ghost function Firings(p: seq<byte>, rules: seq<Rule>, n: nat): seq<Firing>
    requires AllRunnable(rules) && n <= |rules|
  {
    if n == 0 then []
    else
      var r := rules[n - 1];
      Firings(p, rules, n - 1) +
      if Fires(p, r) then [Firing(n - 1, Region(p, Visits(p, Eth), r.region).value)] else []
  }

  lemma FiringsStep(p: seq<byte>, rules: seq<Rule>, i: nat)
    requires AllRunnable(rules) && i < |rules|
    ensures Firings(p, rules, i + 1) == Firings(p, rules, i) +
      if Fires(p, rules[i]) then [Firing(i, Region(p, Visits(p, Eth), rules[i].region).value)] else []
  {
    hide Fires, Region, Runnable;
  }

  /** The rule fires, and the region is its own, lies inside the packet and starts where the anchor's last header
      ends. */
  ghost predicate IsFiring(p: seq<byte>, rules: seq<Rule>, f: Firing)
    requires AllRunnable(rules)
  {
    && f.rule < |rules| && Fires(p, rules[f.rule])
    && Region(p, Visits(p, Eth), rules[f.rule].region) == Some(f.span) && f.span.begin <= f.span.end <= |p|
    && StartsBehindAnchor(p, rules[f.rule].region, f.span.begin)
  }

  /** Firings of exactly the rules that fire among the first n, each once and in rule order. */
  ghost predicate AreTheFirings(p: seq<byte>, rules: seq<Rule>, n: nat, fs: seq<Firing>)
    requires AllRunnable(rules) && n <= |rules|
  {
    && (forall i :: 0 <= i < |fs| ==> fs[i].rule < n && IsFiring(p, rules, fs[i]))
    && (forall i, j :: 0 <= i < j < |fs| ==> fs[i].rule < fs[j].rule)
    && (forall k :: 0 <= k < n && Fires(p, rules[k]) ==> exists i :: 0 <= i < |fs| && fs[i].rule == k)
  }

  lemma NoFiringsYet(p: seq<byte>, rules: seq<Rule>)
    requires AllRunnable(rules)
    ensures Firings(p, rules, 0) == []
  {
  }

  /** What fires is exactly the rules whose conditions all hold on the last visited instance of each node and
      whose region resolves, each once and in rule order; every region lies inside the packet and starts where
      the anchor's last header ends. */
  lemma {:induction false} FiringsAreExact(p: seq<byte>, rules: seq<Rule>, n: nat)
    requires AllRunnable(rules) && n <= |rules|
    ensures AreTheFirings(p, rules, n, Firings(p, rules, n))
  {
    hide Fires, Region, StartsBehindAnchor, Runnable, Firings;
    if n == 0 {
      assert Firings(p, rules, 0) == [] by { NoFiringsYet(p, rules); }
    } else {
      FiringsAreExact(p, rules, n - 1);
      FiringsStep(p, rules, n - 1);
      var before, fs, r := Firings(p, rules, n - 1), Firings(p, rules, n), rules[n - 1];
      if Fires(p, r) {
        RegionStarts(p, r);
        assert fs[|before|].rule == n - 1;
      }
      forall k | 0 <= k < n && Fires(p, rules[k]) ensures exists i :: 0 <= i < |fs| && fs[i].rule == k {
        if k < n - 1 {
          var i :| 0 <= i < |before| && before[i].rule == k;
          assert fs[i] == before[i];
        }
      }
    }
  }

  /** There is a last visit of the anchor node, and the region starts its advance behind it. */
  ghost predicate StartsBehindAnchor(p: seq<byte>, sel: RegionSel, begin: nat)
    requires SelOk(sel)
  {
    var vs := Visits(p, Eth);
    exists i :: 0 <= i < |vs| && vs[i].node == AnchorNode(sel.kind) && begin == After(p, vs[i]) &&
                forall j :: i < j < |vs| ==> vs[j].node != AnchorNode(sel.kind)
  }

  lemma RegionStarts(p: seq<byte>, r: Rule)
    requires Runnable(r) && Fires(p, r)
    ensures var s := Region(p, Visits(p, Eth), r.region);
      s.Some? && s.value.begin <= s.value.end <= |p| && StartsBehindAnchor(p, r.region, s.value.begin)
  {
    hide LastOffset, Advance, AllHold, Trace;
    var vs, id := Visits(p, Eth), r.region.anchor;
    var i :| 0 <= i < |vs| && NodeId(vs[i].node) == id && vs[i].off == LastOffset(vs, id).value &&
             forall j :: i < j < |vs| ==> NodeId(vs[j].node) != id;
    assert vs[i].node == AnchorNode(r.region.kind);
    assert Fits(p, vs[i].node, vs[i].off);
    assert NodeId(AnchorNode(r.region.kind)) == id by { SameNode(vs[i].node, AnchorNode(r.region.kind)); }
  }

  lemma SameNode(a: Node, b: Node)
    requires a == b
    ensures NodeId(a) == NodeId(b)
  {
  }
}
