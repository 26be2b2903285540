/** What a written rule means on the packet's bytes, told without the matcher's comparison and reader. */
module DparMeaning {
  import opened Wire
  import opened ByteWords
  import opened WireSpec
  import opened Protocols
  import opened Dag
  import opened DparFields
  import opened DparRules
  import opened DparSound
  import opened DparMatch
  import opened WalkBytes

  // ---- comparators ------------------------------------------------------------------------------------

  /** From lo on, up to but not including hi if there is one. */
  datatype Interval = Interval(lo: nat, hi: Option<nat>)
  {
    predicate Has(v: nat) { lo <= v && (hi.Some? ==> v < hi.value) }
  }

  /** The values a comparator, as written, admits. */
  function Admits(op: string, k: nat): Option<Interval> {
    if op == "==" then Some(Interval(k, Some(k + 1)))
    else if op == "<" then Some(Interval(0, Some(k)))
    else if op == ">" then Some(Interval(k + 1, None))
    else if op == "<=" then Some(Interval(0, Some(k + 1)))
    else if op == ">=" then Some(Interval(k, None))
    else None
  }

  /** The five comparators are all there are, and each compares as it is written. */
  lemma ComparesAsWritten(op: string, v: nat, k: nat)
    ensures match ParseOp(op)
            case None => Admits(op, k) == None
            case Some(c) => Admits(op, k).Some? && (CmpApply(v, c, k) <==> Admits(op, k).value.Has(v))
  {
  }

  /** Only its own text is read as a comparator. */
  lemma OneTextPerOp(op: CmpOp, s: string)
    ensures ParseOp(s) == Some(op) <==> s == OpText(op)
  {
  }

  // ---- conditions -------------------------------------------------------------------------------------

  /** The condition names field j of node id. */
  predicate NamesField(c: ConditionText, id: nat, j: nat) {
    id < GRAPH_SIZE && |NODE_NAMES| == GRAPH_SIZE && CString(c.node) == NODE_NAMES[id] &&
    var fs := Flatten(NodeSpec(GRAPH[id]));
    j < |fs| && !fs[j].Blob? && CString(c.field) == fs[j].tag
  }

  /** The spec reader's value of a field, and of a signed field its raw word. */
  function SpecValue(f: Field, p: seq<byte>, off: nat): nat
    requires f.Valid() && !f.Blob? && off + f.End() <= |p|
  {
    if f.Scalar? && f.signed then WordAt(p, off + f.offset, f.width, f.big) else ReadUnsigned(f, p, off)
  }

  /** The i-th visit is the last one of a node. */
  ghost predicate IsLast(vs: seq<Visit>, n: Node, i: nat) {
    i < |vs| && vs[i].node == n && forall j :: i < j < |vs| ==> vs[j].node != n
  }

  /** The node was visited, and the field of its last visit has a value the comparator admits. */
  ghost predicate SaysTrue(p: seq<byte>, op: string, k: nat, id: nat, j: nat)
    requires id < GRAPH_SIZE && j < |Flatten(NodeSpec(GRAPH[id]))| && !Flatten(NodeSpec(GRAPH[id]))[j].Blob?
    requires Admits(op, k).Some?
  {
    var vs, f := Visits(p, Eth), Flatten(NodeSpec(GRAPH[id]))[j];
    exists i: nat :: IsLast(vs, GRAPH[id], i) && f.Valid() && vs[i].off + f.End() <= |p| &&
                Admits(op, k).value.Has(SpecValue(f, p, vs[i].off))
  }

  /** A written condition is true of a packet. */
  ghost predicate ConditionTrue(p: seq<byte>, c: ConditionText, env: Env, id: nat, j: nat)
    requires NamesField(c, id, j) && GoodCondition(c, env)
  {
    var k := env.num(c.value).value;
    Admits(OpText(c.op), k).Some? && SaysTrue(p, OpText(c.op), k, id, j)
  }

  lemma FieldsFit(n: Node, j: nat)
    requires j < |Flatten(NodeSpec(n))|
    ensures var f := Flatten(NodeSpec(n))[j]; f.Valid() && f.End() <= HeaderLen(n) && f.offset < 0x1_0000
  {
    hide NodeSpec, Flatten;
    SpecSizes(n);
  }

  lemma LastIs(vs: seq<Visit>, id: nat)
    requires id < GRAPH_SIZE
    ensures match LastOffset(vs, id)
            case None => forall i: nat :: !IsLast(vs, GRAPH[id], i)
            case Some(off) => exists i: nat :: IsLast(vs, GRAPH[id], i) && vs[i].off == off
    ensures forall i: nat, j: nat :: IsLast(vs, GRAPH[id], i) && IsLast(vs, GRAPH[id], j) ==> i == j
  {
    hide LastOffset;
    assert forall n: Node :: NodeId(n) == id <==> n == GRAPH[id] by {
      forall n: Node ensures NodeId(n) == id <==> n == GRAPH[id] {
        IdOf(id);
      }
    }
    if LastOffset(vs, id).Some? {
      var i :| 0 <= i < |vs| && NodeId(vs[i].node) == id && vs[i].off == LastOffset(vs, id).value &&
               forall j :: i < j < |vs| ==> NodeId(vs[j].node) != id;
      assert IsLast(vs, GRAPH[id], i);
    }
  }

  lemma IdOf(id: nat)
    requires id < GRAPH_SIZE
    ensures NodeId(GRAPH[id]) == id
  {
  }

  /** The value a compiled condition reads is the spec reader's. */
  lemma ReadsTheField(id: nat, j: nat, p: seq<byte>, off: nat)
    requires id < GRAPH_SIZE && j < |Flatten(NodeSpec(GRAPH[id]))| && !Flatten(NodeSpec(GRAPH[id]))[j].Blob?
    requires off + HeaderLen(GRAPH[id]) <= |p|
    ensures var f := Flatten(NodeSpec(GRAPH[id]))[j];
      && f.Valid() && off + f.End() <= |p|
      && var r := FieldToRef(id, f).value;
         r.Valid() && off + r.offset + r.byteWidth <= |p| && ReadRuntime(p, off, r) == SpecValue(f, p, off)
  {
    hide NodeSpec, Flatten, WordAt, Pow2;
    FieldsFit(GRAPH[id], j);
    ReadersAgree(id, Flatten(NodeSpec(GRAPH[id]))[j], p, off);
  }

  /** A written condition holds exactly when it is true. */
  lemma WrittenConditionMeans(c: ConditionText, env: Env, p: seq<byte>, id: nat, j: nat)
    requires env.catalog == L2L3Catalog() && GoodCondition(c, env) && NamesField(c, id, j)
    ensures FieldOk(ConditionMeaning(c, env).field)
    ensures Holds(p, Visits(p, Eth), ConditionMeaning(c, env)) <==> ConditionTrue(p, c, env, id, j)
  {
    hide NodeSpec, Flatten, L2L3Catalog, FindField, NODE_NAMES, ReadRuntime, SpecValue, LastOffset, Trace, FieldToRef;
    hide IsLast, CmpApply, Admits, OpText, ParseOp, CString;
    var m, vs, k := ConditionMeaning(c, env), Visits(p, Eth), env.num(c.value).value;
    EveryFieldIsFound(id, j);
    MeaningIsOk(id, j);
    LastIs(vs, id);
    OpRoundTrip(c.op);
    ComparesAsWritten(OpText(c.op), 0, k);
    if LastOffset(vs, id).Some? {
      var off := LastOffset(vs, id).value;
      LastFits(p, vs, id);
      ReadsTheField(id, j, p, off);
      ComparesAsWritten(OpText(c.op), ReadRuntime(p, off, m.field), k);
      LastDecides(p, OpText(c.op), k, id, j, off);
    }
  }

  /** Since there is only one last visit, the truth is decided there. */
  lemma LastDecides(p: seq<byte>, op: string, k: nat, id: nat, j: nat, off: nat)
    requires id < GRAPH_SIZE && j < |Flatten(NodeSpec(GRAPH[id]))| && !Flatten(NodeSpec(GRAPH[id]))[j].Blob?
    requires Admits(op, k).Some? && LastOffset(Visits(p, Eth), id) == Some(off)
    requires var f := Flatten(NodeSpec(GRAPH[id]))[j]; f.Valid() && off + f.End() <= |p|
    ensures SaysTrue(p, op, k, id, j) <==> Admits(op, k).value.Has(SpecValue(Flatten(NodeSpec(GRAPH[id]))[j], p, off))
  {
    hide NodeSpec, Flatten, LastOffset, Trace, Admits, IsLast, SpecValue;
    LastIs(Visits(p, Eth), id);
  }

  lemma MeaningIsOk(id: nat, j: nat)
    requires id < GRAPH_SIZE && j < |Flatten(NodeSpec(GRAPH[id]))| && !Flatten(NodeSpec(GRAPH[id]))[j].Blob?
    ensures var e := EntryOf(id, Flatten(NodeSpec(GRAPH[id]))[j]); FieldOk(e.ref) && e.ref.nodeId == id
  {
    hide NodeSpec, Flatten, NODE_NAMES, HeaderLen;
    NamesCount();
    NewEntryOk(id, Flatten(NodeSpec(GRAPH[id]))[j]);
    EntryIsFieldOk(EntryOf(id, Flatten(NodeSpec(GRAPH[id]))[j]));
  }

  lemma {:induction false} MeaningsAt(cs: seq<ConditionText>, env: Env, k: nat)
    requires GoodConditions(cs, env) && k < |cs|
    ensures GoodCondition(cs[k], env) && ConditionMeanings(cs, env)[k] == ConditionMeaning(cs[k], env)
    decreases |cs|
  {
    hide GoodCondition, ConditionMeaning;
    if k > 0 {
      MeaningsAt(cs[1..], env, k - 1);
    }
  }

  // ---- regions ----------------------------------------------------------------------------------------

  /** The payload behind a header at off: up to the packet's end, for SOME/IP up to the end its length word says;
      none if the header ends past the packet. */
  function WireRegion(p: seq<byte>, kind: RegionKind, off: nat): Option<Span>
    requires off + HeaderLen(AnchorNode(kind)) <= |p|
  {
    var begin := match kind
      case EthPayload => off + 14
      case VlanPayload => off + 4
      case UdpPayload => off + 8
      case TcpPayload => if p[off + 12] < 80 then off + 20 else off + 4 * ((p[off + 12] / 16) as int)
      case SomeipPayload => off + 16;
    if begin > |p| then None
    else if kind.SomeipPayload? then
      var end := Min(|p|, off + 8 + B4(p, off + 4));
      Some(Span(begin, if end < begin then begin else end))
    else Some(Span(begin, |p|))
  }

  /** The region a rule hands over is the payload behind the last visit of its anchor, told on the bytes. */
  lemma RegionOnTheWire(p: seq<byte>, vs: seq<Visit>, sel: RegionSel)
    requires AllFit(p, vs) && SelOk(sel)
    ensures match LastOffset(vs, sel.anchor)
            case None => Region(p, vs, sel) == None
            case Some(off) =>
              off + HeaderLen(AnchorNode(sel.kind)) <= |p| && Region(p, vs, sel) == WireRegion(p, sel.kind, off)
  {
    hide LastOffset, Advance, ReadUnsigned;
    if LastOffset(vs, sel.anchor).Some? {
      var off := LastOffset(vs, sel.anchor).value;
      LastFits(p, vs, sel.anchor);
      LengthOnTheWire(p, AnchorNode(sel.kind), off);
      if sel.kind.SomeipPayload? {
        SomeipLength(p, off);
      }
    }
  }

  lemma SomeipLength(p: seq<byte>, off: nat)
    requires off + 16 <= |p|
    ensures ReadUnsigned(SOMEIP_LENGTH, p, off) == B4(p, off + 4)
  {
    WordIsBytes(p, off + 4, 4);
  }

  // ---- rules ------------------------------------------------------------------------------------------

  /** Condition k of a rule names field js[k] of node ids[k]. */
  predicate NamesFields(cs: seq<ConditionText>, ids: seq<nat>, js: seq<nat>) {
    |ids| == |js| == |cs| && forall k :: 0 <= k < |cs| ==> NamesField(cs[k], ids[k], js[k])
  }

  /** Every condition is true of the packet. */
  ghost predicate AllTrue(p: seq<byte>, cs: seq<ConditionText>, env: Env, ids: seq<nat>, js: seq<nat>)
    requires NamesFields(cs, ids, js) && forall k :: 0 <= k < |cs| ==> GoodCondition(cs[k], env)
  {
    forall k :: 0 <= k < |cs| ==> ConditionTrue(p, cs[k], env, ids[k], js[k])
  }

  lemma AllGood(cs: seq<ConditionText>, env: Env)
    requires GoodConditions(cs, env)
    ensures forall k :: 0 <= k < |cs| ==> GoodCondition(cs[k], env)
  {
    hide GoodCondition, ConditionMeanings, GoodConditions;
    forall k | 0 <= k < |cs| ensures GoodCondition(cs[k], env) {
      MeaningsAt(cs, env, k);
    }
  }

  /** A written rule fires on a packet exactly when each of its conditions is true of it, its region's anchor was
      visited, and the payload behind the last visit starts inside the packet; that payload is what it hands over. */
  lemma WrittenRuleFires(r: RuleText, ordinal: nat, env: Env, p: seq<byte>, ids: seq<nat>, js: seq<nat>)
    requires env.catalog == L2L3Catalog() && GoodRule(r, env) && NamesFields(r.conditions, ids, js)
    ensures forall k :: 0 <= k < |r.conditions| ==> GoodCondition(r.conditions[k], env)
    ensures Runnable(RuleMeaning(r, ordinal, env))
    ensures var m, off := RuleMeaning(r, ordinal, env), LastOffset(Visits(p, Eth), NodeId(AnchorNode(r.region)));
      && (off.Some? ==> off.value + HeaderLen(AnchorNode(r.region)) <= |p|)
      && (Fires(p, m) <==>
            AllTrue(p, r.conditions, env, ids, js) && off.Some? && WireRegion(p, r.region, off.value).Some?)
      && (Fires(p, m) ==> Region(p, Visits(p, Eth), m.region) == WireRegion(p, r.region, off.value))
  {
    hide L2L3Catalog, GoodCondition, ConditionMeaning, AnchorNodeId, AnchorNode, AnchorName, Trace, LastOffset, Holds;
    hide NamesField, ConditionTrue, Region, CString, GoodConditions, ConditionMeanings, FieldOk, OpText, HeaderLen;
    hide WireRegion;
    var m, cs := RuleMeaning(r, ordinal, env), r.conditions;
    AllGood(cs, env);
    AnchorsAreTheRegions(r.region);
    forall k | 0 <= k < |cs|
      ensures m.conditions[k] == ConditionMeaning(cs[k], env) && FieldOk(m.conditions[k].field)
    {
      MeaningsAt(cs, env, k);
      WrittenConditionMeans(cs[k], env, p, ids[k], js[k]);
    }
    forall k | 0 <= k < |cs|
      ensures Holds(p, Visits(p, Eth), m.conditions[k]) <==> ConditionTrue(p, cs[k], env, ids[k], js[k])
    {
      WrittenConditionMeans(cs[k], env, p, ids[k], js[k]);
    }
    RegionOnTheWire(p, Visits(p, Eth), m.region);
  }

  // ---- rule files -------------------------------------------------------------------------------------

  /** Fields named by the conditions of a rule: the node and the place among its fields, of each. */
  datatype Names = Names(ids: seq<nat>, js: seq<nat>)

  /** A written rule is true of a packet. */
  ghost predicate RuleTrue(p: seq<byte>, r: RuleText, env: Env, names: Names)
    requires GoodRule(r, env) && NamesFields(r.conditions, names.ids, names.js)
  {
    AllGood(r.conditions, env);
    AllTrue(p, r.conditions, env, names.ids, names.js) && HandsOver(p, r.region).Some?
  }

  /** The payload behind the last visit of a region's anchor. */
  ghost function HandsOver(p: seq<byte>, region: RegionKind): Option<Span> {
    match LastOffset(Visits(p, Eth), NodeId(AnchorNode(region)))
    case None => None
    case Some(off) =>
      LastFits(p, Visits(p, Eth), NodeId(AnchorNode(region)));
      SameNode(GRAPH[NodeId(AnchorNode(region))], AnchorNode(region));
      WireRegion(p, region, off)
  }

  /** A rule of the matcher fires on a packet exactly when the written one is true of it, and hands over the payload
      it names. */
  ghost predicate FiresAsWritten(p: seq<byte>, m: Rule, r: RuleText, env: Env, names: Names)
    requires GoodRule(r, env) && NamesFields(r.conditions, names.ids, names.js)
  {
    && Runnable(m)
    && (Fires(p, m) <==> RuleTrue(p, r, env, names))
    && (Fires(p, m) ==> Region(p, Visits(p, Eth), m.region) == HandsOver(p, r.region))
  }

  lemma EachFiresAsWritten(r: RuleText, ordinal: nat, env: Env, p: seq<byte>, names: Names)
    requires env.catalog == L2L3Catalog() && GoodRule(r, env) && NamesFields(r.conditions, names.ids, names.js)
    ensures FiresAsWritten(p, RuleMeaning(r, ordinal, env), r, env, names)
  {
    hide L2L3Catalog, GoodRule, NamesFields, Fires, Region, AllTrue, WireRegion, LastOffset, AnchorNode, Runnable,
         Trace, GoodConditions;
    WrittenRuleFires(r, ordinal, env, p, names.ids, names.js);
  }

  /** All rules of a file can be compiled, and their conditions name fields. */
  ghost predicate WellWritten(rs: seq<RuleText>, env: Env, names: seq<Names>) {
    && env.catalog == L2L3Catalog() && rs != [] && |names| == |rs|
    && (forall k :: 0 <= k < |rs| ==> Writable(rs[k], env))
    && (forall k :: 0 <= k < |rs| ==> NamesFields(rs[k].conditions, names[k].ids, names[k].js))
  }

  lemma CompiledFireAsWritten(rs: seq<RuleText>, env: Env, p: seq<byte>, names: seq<Names>)
    requires WellWritten(rs, env, names)
    ensures Compile(RuleFile(rs), env).Some?
    ensures var rules := Compile(RuleFile(rs), env).value;
      && |rules| == |rs| && AllRunnable(rules)
      && forall k :: 0 <= k < |rs| ==> FiresAsWritten(p, rules[k], rs[k], env, names[k])
  {
    hide L2L3Catalog, Compile, RuleFile, GoodRule, NamesFields, RuleMeaning, Runnable, FiresAsWritten;
    CompileUndoesWriting(rs, env);
    CompiledRulesAreRunnable(RuleFile(rs), env);
    var rules := Compile(RuleFile(rs), env).value;
    forall k | 0 <= k < |rs| ensures FiresAsWritten(p, rules[k], rs[k], env, names[k]) {
      assert rules[k] == RuleMeaning(rs[k], k, env);
      EachFiresAsWritten(rs[k], k, env, p, names[k]);
    }
  }

  /** Firings of exactly the written rules that are true of the packet, each once and in file order, and each with
      the payload its region names. */
  ghost predicate AreTheTrueRules(p: seq<byte>, rs: seq<RuleText>, env: Env, names: seq<Names>, fs: seq<Firing>)
    requires WellWritten(rs, env, names)
  {
    && (forall i, j :: 0 <= i < j < |fs| ==> fs[i].rule < fs[j].rule)
    && (forall i :: 0 <= i < |fs| ==>
          fs[i].rule < |rs| && RuleTrue(p, rs[fs[i].rule], env, names[fs[i].rule]) &&
          HandsOver(p, rs[fs[i].rule].region) == Some(fs[i].span))
    && (forall k :: 0 <= k < |rs| && RuleTrue(p, rs[k], env, names[k]) ==>
          exists i :: 0 <= i < |fs| && fs[i].rule == k)
  }

  /** Compile a file of rules and run it on a packet: what fires is what the file says. */
  lemma WrittenRulesFire(rs: seq<RuleText>, env: Env, p: seq<byte>, names: seq<Names>)
    requires WellWritten(rs, env, names)
    ensures match Compile(RuleFile(rs), env)
            case None => false
            case Some(rules) =>
              |rules| == |rs| && AllRunnable(rules) &&
              AreTheTrueRules(p, rs, env, names, Firings(p, rules, |rules|))
  {
    hide Compile, RuleFile, GoodRule, NamesFields, Fires, Firings, Region, RuleTrue, HandsOver, Runnable, Trace;
    hide StartsBehindAnchor, Writable, FiresAsWritten, AreTheTrueRules, AreTheFirings;
    CompiledFireAsWritten(rs, env, p, names);
    var rules := Compile(RuleFile(rs), env).value;
    FiringsAreExact(p, rules, |rules|);
    TrueRules(p, rs, env, names, rules, Firings(p, rules, |rules|));
  }

  lemma TrueRules(p: seq<byte>, rs: seq<RuleText>, env: Env, names: seq<Names>, rules: seq<Rule>, fs: seq<Firing>)
    requires WellWritten(rs, env, names) && |rules| == |rs| && AllRunnable(rules)
    requires forall k :: 0 <= k < |rs| ==> FiresAsWritten(p, rules[k], rs[k], env, names[k])
    requires AreTheFirings(p, rules, |rules|, fs)
    ensures AreTheTrueRules(p, rs, env, names, fs)
  {
    hide L2L3Catalog, GoodRule, NamesFields, Fires, Region, RuleTrue, HandsOver, Runnable, Trace, RuleTokens;
    hide StartsBehindAnchor;
    forall i | 0 <= i < |fs|
      ensures fs[i].rule < |rs| && RuleTrue(p, rs[fs[i].rule], env, names[fs[i].rule])
      ensures HandsOver(p, rs[fs[i].rule].region) == Some(fs[i].span)
    {
      assert IsFiring(p, rules, fs[i]);
      assert FiresAsWritten(p, rules[fs[i].rule], rs[fs[i].rule], env, names[fs[i].rule]);
    }
    forall k | 0 <= k < |rs| && RuleTrue(p, rs[k], env, names[k]) ensures exists i :: 0 <= i < |fs| && fs[i].rule == k {
      assert FiresAsWritten(p, rules[k], rs[k], env, names[k]);
    }
  }
}
