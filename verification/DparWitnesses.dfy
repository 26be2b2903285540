/** A rule written over the real graph, and runs on which the rule engine's counters are not what they are said to
    be. */
module DparWitnesses {
  import opened Wire
  import opened WireSpec
  import opened Protocols
  import opened Dag
  import opened WalksAgree
  import opened ByteWords
  import opened DparFields
  import opened DparRules
  import opened DparSound
  import opened DparMatch
  import opened DparMeaning
  import opened DparNumbers
  import opened WalkBytes
  import opened DparEngine
  import opened DparCounters
  import opened DparSessions
  import Tlv
  import Witnesses

  // ---- a rule from its text ---------------------------------------------------------------------------

  const ETHERTYPE_REF := FieldRef(0, 12, 2, true, false, 0, 0)

  lemma EthernetFields()
    ensures Flatten(NodeSpec(Eth)) == [Blob("dst", 0, 6), Blob("src", 6, 6), ETHERTYPE]
  {
    LeavesFlatten(ETHERNET_SPEC);
  }

  /** The catalog's entry for the EtherType of an Ethernet header. */
  lemma EthertypeIsFound()
    ensures var e := FindField(L2L3Catalog(), "eth", "ethertype"); e.Some? && e.value.ref == ETHERTYPE_REF
  {
    hide L2L3Catalog, FindField, NodeSpec, Flatten;
    EthernetFields();
    EveryFieldIsFound(0, 2);
  }

  /** Packets of one EtherType, their region to the record parser. */
  function RecordsOf(region: RegionKind): RuleText {
    RuleText([ConditionText("eth", "ethertype", Eq, "0x0806")], "raw_tlv", region, "arp")
  }

  function RecordsCondition(): Condition { Condition(ETHERTYPE_REF, Eq, 0x0806) }

  function RecordsRule(region: RegionKind): Rule {
    Rule([RecordsCondition()], 1, RegionSel(region, NodeId(AnchorNode(region))), 0, 0, "arp")
  }

  /** Over the real catalog and palette the text compiles, whatever region it asks for, to the rule it says. */
  lemma TextCompiles(region: RegionKind, num: string -> Option<nat>)
    requires num("0x0806") == Some(0x0806)
    ensures Compile(RuleFile([RecordsOf(region)]), Env(L2L3Catalog(), KIND_NAMES, num)) == Some([RecordsRule(region)])
  {
    hide L2L3Catalog, Compile, RuleFile, FindField, AnchorNodeId, AnchorNode, RuleTokens, CString, IsWord, HoldsRule,
         PositionOf, GoodConditions, ConditionMeanings, Pow2, NodeId;
    var env, r := Env(L2L3Catalog(), KIND_NAMES, num), RecordsOf(region);
    EthertypeIsFound();
    AnchorsAreTheRegions(region);
    Strings();
    assert GoodCondition(r.conditions[0], env) && ConditionMeaning(r.conditions[0], env) == RecordsCondition();
    GoodAlone(r.conditions, env);
    WordsAreWords(region);
    CompileUndoesWriting([r], env);
    var compiled := Compile(RuleFile([r]), env).value;
    assert compiled[0] == RuleMeaning([r][0], 0, env) == RecordsRule(region);
    assert compiled == [RecordsRule(region)];
  }

  lemma GoodAlone(cs: seq<ConditionText>, env: Env)
    requires |cs| == 1 && GoodCondition(cs[0], env)
    ensures GoodConditions(cs, env) && ConditionMeanings(cs, env) == [ConditionMeaning(cs[0], env)]
  {
    hide GoodCondition, ConditionMeaning;
  }

  lemma Strings()
    ensures CString("eth") == "eth" && CString("ethertype") == "ethertype" && CString("arp") == "arp"
    ensures PositionOf(KIND_NAMES, "raw_tlv") == Some(1) && Pow2(16) == 0x1_0000
  {
    WithoutNul("eth");
    WithoutNul("ethertype");
    WithoutNul("arp");
    Pow2Values();
    assert KIND_NAMES[1..] == ["raw_tlv"] && |KIND_NAMES[0]| == 10 && |"raw_tlv"| == 7;
  }

  lemma WordsJoin(a: string, b: string)
    requires IsWord(a) && IsWord(b)
    ensures IsWord(a + b)
  {
  }

  lemma RegionIsWord(region: RegionKind)
    ensures IsWord(RegionText(region))
  {
  }

  lemma WordsAreWords(region: RegionKind)
    ensures var toks := RuleTokens(RecordsOf(region));
      HoldsRule(toks) && forall i :: 0 <= i < |toks| ==> IsWord(toks[i])
  {
    hide IsWord, RegionText;
    assert IsWord("eth.") && IsWord("ethertype") && IsWord("==") && IsWord("0x0806") by { LiteralsAreWords(); }
    LiteralsAreWords();
    WordsJoin("eth.", "ethertype");
    RegionIsWord(region);
    var toks := RuleTokens(RecordsOf(region));
    assert "eth" + "." == "eth." && "\"" + "arp" + "\"" == "\"arp\"";
    assert toks == ["eth." + "ethertype", "==", "0x0806", "=>", "raw_tlv", RegionText(region), "\"arp\""];
  }

  lemma LiteralsAreWords()
    ensures IsWord("eth.") && IsWord("ethertype") && IsWord("==") && IsWord("0x0806") && IsWord("=>")
    ensures IsWord("raw_tlv") && IsWord("\"arp\"")
  {
  }

  /** One word is no rule. */
  lemma OneWordFails(env: Env)
    ensures Compile("rule", env) == None
  {
    hide Conditions, Tokens, IndexOf;
    assert "rule"[0] == 'r' && IsWord("rule");
    NewlineIsFirst("rule", "");
    assert "rule" + "" == "rule";
    TokensUndoJoin(["rule"]);
    OneLineOneRule(["rule"], env);
    TooShort(["rule"], env);
  }

  lemma TooShort(toks: seq<string>, env: Env)
    requires |toks| < 3
    ensures Conditions(toks, 0, 0, env) == None
  {
  }

  lemma OneLineOneRule(toks: seq<string>, env: Env)
    requires HoldsRule(toks) && IsWord(toks[0]) && |toks| == 1
    ensures RuleLines([JoinTokens(toks)]) == [toks]
  {
    hide Tokens, HoldsRule;
    TokensUndoJoin(toks);
    assert [JoinTokens(toks)][..0] == [];
  }

  /** Loading a rule and then one word leaves the engine with the rule. */
  lemma FailedLoadKeepsRules(region: RegionKind, num: string -> Option<nat>)
    requires num("0x0806") == Some(0x0806)
    ensures AfterAll([Load(RuleFile([RecordsOf(region)])), Load("rule")], num).rules == [RecordsRule(region)]
  {
    hide L2L3Catalog, Compile, RuleFile, Runnable;
    var events := [Load(RuleFile([RecordsOf(region)])), Load("rule")];
    TextCompiles(region, num);
    OneWordFails(Env(L2L3Catalog(), KIND_NAMES, num));
    assert events[..1] == [events[0]] && [events[0]][..0] == [];
    assert AfterAll([events[0]], num).rules == [RecordsRule(region)];
  }

  /** A palette of 65537 parsers, and a line that names the last of them: the rule selects the first. */
  lemma ParserIndexWraps(num: string -> Option<nat>)
    ensures var env := Env(L2L3Catalog(), seq(0x1_0000, _ => "a") + ["b"], num);
      var tail := RuleTail(["=>", "b", "eth_payload"], 0, env);
      tail.Some? && tail.value.0 == 0 && env.parsers[0] != "b"
  {
    hide L2L3Catalog, AnchorNodeId, AnchorNode, PositionOf;
    var env := Env(L2L3Catalog(), seq(0x1_0000, _ => "a") + ["b"], num);
    assert env.parsers[0x1_0000] == "b" && "a"[0] == 'a' && "b"[0] == 'b';
    AnchorsAreTheRegions(EthPayload);
    RegionRoundTrip(EthPayload);
    assert PositionOf(env.parsers, "b").value == 0x1_0000;
  }

  // ---- a rule on a port -------------------------------------------------------------------------------

  /** Ethernet, IPv4 and UDP to a port, without payload. */
  function PortFrame(port: nat): (p: seq<byte>)
    requires port < 0x1_0000
  {
    Witnesses.Zeros(42)[12 := 8][14 := 0x45][23 := 17][36 := port / 0x100][37 := port % 0x100]
  }

  lemma PortFrameWalk(port: nat)
    requires port < 0x1_0000
    ensures Visits(PortFrame(port), Eth) == [Visit(Eth, 0), Visit(Ipv4, 14), Visit(Udp, 34)]
    ensures B2(PortFrame(port), 36) == port
  {
    hide Trace;
    var p, vs := PortFrame(port), [Visit(Eth, 0), Visit(Ipv4, 14), Visit(Udp, 34)];
    assert FollowsOnTheWire(p, vs[0], vs[1]) && FollowsOnTheWire(p, vs[1], vs[2]) && EndsOnTheWire(p, vs[2]);
    VisitsOnTheWire(p, vs);
  }

  function PortRule(op: CmpOp, value: string): RuleText {
    RuleText([ConditionText("udp", "dst_port", op, value)], "raw_tlv", UdpPayload, "port")
  }

  const UDP_NAMES := Names([5], [1])

  lemma UdpFields()
    ensures var fs := Flatten(NodeSpec(Udp));
      |fs| == 4 && fs[1] == Scalar("dst_port", 2, 2, false, true)
  {
    LeavesFlatten(UDP_SPEC);
  }

  lemma PortIsNamed(op: CmpOp, value: string)
    ensures NamesFields(PortRule(op, value).conditions, UDP_NAMES.ids, UDP_NAMES.js)
  {
    hide Flatten, CString;
    UdpFields();
    WithoutNul("udp");
    WithoutNul("dst_port");
    assert |NODE_NAMES| == GRAPH_SIZE && NODE_NAMES[5] == "udp" && GRAPH[5] == Udp;
  }

  lemma PortIsRead(port: nat)
    requires port < 0x1_0000
    ensures |Flatten(NodeSpec(GRAPH[5]))| == 4
    ensures var f := Flatten(NodeSpec(GRAPH[5]))[1];
      !f.Blob? && f.Valid() && 34 + f.End() <= 42 && SpecValue(f, PortFrame(port), 34) == port
    ensures LastOffset(Visits(PortFrame(port), Eth), 5) == Some(34)
  {
    hide Flatten, Trace, PortFrame, WordAt;
    UdpFields();
    PortFrameWalk(port);
    var p, vs := PortFrame(port), Visits(PortFrame(port), Eth);
    assert |p| == 42 by { FrameLength(port); }
    WordIsBytes(p, 36, 2);
    assert vs[..2] + [vs[2]] == vs;
  }

  lemma FrameLength(port: nat)
    requires port < 0x1_0000
    ensures |PortFrame(port)| == 42
  {
  }

  lemma OpsAdmit(op: CmpOp, k: nat)
    ensures Admits(OpText(op), k).Some?
  {
  }

  /** Whichever of the five comparators a rule on the port is written with, and whatever port a frame goes to: the
      rule is true of the frame exactly when the port is among those the comparator admits. */
  lemma PortRuleTrue(op: CmpOp, value: string, k: nat, port: nat, env: Env)
    requires port < 0x1_0000 && env.catalog == L2L3Catalog() && env.num(value) == Some(k)
    requires GoodRule(PortRule(op, value), env)
    ensures NamesFields(PortRule(op, value).conditions, UDP_NAMES.ids, UDP_NAMES.js) && Admits(OpText(op), k).Some?
    ensures RuleTrue(PortFrame(port), PortRule(op, value), env, UDP_NAMES) <==> Admits(OpText(op), k).value.Has(port)
    ensures HandsOver(PortFrame(port), UdpPayload) == Some(Span(42, 42))
  {
    hide Flatten, NodeSpec, Trace, PortFrame, L2L3Catalog, CString, LastOffset, SpecValue, Admits, OpText, FindField;
    hide SaysTrue, NODE_NAMES;
    var p, cs := PortFrame(port), PortRule(op, value).conditions;
    PortIsNamed(op, value);
    PortIsRead(port);
    FrameLength(port);
    OpsAdmit(op, k);
    AllGood(cs, env);
    assert GoodCondition(cs[0], env);
    LastDecides(p, OpText(op), k, 5, 1, 34);
    assert ConditionTrue(p, cs[0], env, 5, 1) <==> SaysTrue(p, OpText(op), k, 5, 1);
    assert HandsOver(p, UdpPayload) == Some(Span(42, 42));
  }

  /** The rule can be written: its field takes 16 bits. */
  lemma PortRuleIsGood(op: CmpOp, value: string, k: nat, env: Env)
    requires env.catalog == L2L3Catalog() && env.parsers == KIND_NAMES && env.num(value) == Some(k) && IsWord(value)
    ensures GoodRule(PortRule(op, value), env) && Writable(PortRule(op, value), env) <==> k < 0x1_0000
  {
    hide L2L3Catalog, FindField, CString, AnchorNodeId, AnchorName, NODE_NAMES, Flatten, NodeSpec, IsWord, HoldsRule;
    var r := PortRule(op, value);
    UdpFields();
    PortIsNamed(op, value);
    EveryFieldIsFound(5, 1);
    AnchorsAreTheRegions(UdpPayload);
    Pow2Values();
    PortWords(op, value);
    if k < 0x1_0000 {
      GoodAlone(r.conditions, env);
    }
  }

  lemma PortWords(op: CmpOp, value: string)
    requires IsWord(value)
    ensures var toks := RuleTokens(PortRule(op, value));
      HoldsRule(toks) && forall i :: 0 <= i < |toks| ==> IsWord(toks[i])
  {
    hide IsWord, OpText, RegionText;
    var toks := RuleTokens(PortRule(op, value));
    assert "udp" + "." + "dst_port" == "udp.dst_port" && "\"" + "port" + "\"" == "\"port\"";
    assert toks == ["udp.dst_port", OpText(op), value, "=>", "raw_tlv", RegionText(UdpPayload), "\"port\""];
    RegionIsWord(UdpPayload);
    PortLiterals(op);
  }

  lemma PortLiterals(op: CmpOp)
    ensures IsWord("udp.dst_port") && IsWord(OpText(op)) && IsWord("=>") && IsWord("raw_tlv") && IsWord("\"port\"")
  {
  }

  lemma {:induction false} RulesClimb(fs: seq<Firing>, i: nat)
    requires i < |fs| && forall j, k :: 0 <= j < k < |fs| ==> fs[j].rule < fs[k].rule
    ensures fs[i].rule >= i
  {
    if i > 0 {
      RulesClimb(fs, i - 1);
    }
  }

  /** Compiled from its text and run on the frame, the rule fires exactly when the port compares as written. */
  lemma PortRuleFires(op: CmpOp, value: string, k: nat, port: nat, num: string -> Option<nat>)
    requires port < 0x1_0000 && k < 0x1_0000 && num(value) == Some(k) && IsWord(value)
    ensures Admits(OpText(op), k).Some?
    ensures match Compile(RuleFile([PortRule(op, value)]), Env(L2L3Catalog(), KIND_NAMES, num))
            case None => false
            case Some(rules) =>
              AllRunnable(rules) && Firings(PortFrame(port), rules, |rules|) ==
              if Admits(OpText(op), k).value.Has(port) then [Firing(0, Span(42, 42))] else []
  {
    hide L2L3Catalog, Compile, RuleFile, Writable, GoodRule, RuleTrue, HandsOver, Firings, NamesFields, Admits, OpText,
         PortFrame, IsWord, Runnable;
    var env, r, p := Env(L2L3Catalog(), KIND_NAMES, num), PortRule(op, value), PortFrame(port);
    PortRuleIsGood(op, value, k, env);
    PortIsNamed(op, value);
    assert WellWritten([r], env, [UDP_NAMES]);
    WrittenRulesFire([r], env, p, [UDP_NAMES]);
    PortRuleTrue(op, value, k, port, env);
    var rules := Compile(RuleFile([r]), env).value;
    var fs := Firings(p, rules, |rules|);
    if Admits(OpText(op), k).value.Has(port) {
      assert RuleTrue(p, [r][0], env, [UDP_NAMES][0]);
      var i :| 0 <= i < |fs| && fs[i].rule == 0;
    }
    assert forall i :: 0 <= i < |fs| ==> fs[i].rule == 0 && fs[i].span == Span(42, 42);
    if fs != [] {
      RulesClimb(fs, |fs| - 1);
    }
    assert fs == if |fs| == 0 then [] else [Firing(0, Span(42, 42))];
  }

  /** With the operand written in decimal and read by the compiler's own number parser: for every comparator, number
      and port. */
  lemma DecimalPortRule(op: CmpOp, k: nat, port: nat)
    requires port < 0x1_0000 && k < 0x1_0000
    ensures Admits(OpText(op), k).Some?
    ensures match Compile(RuleFile([PortRule(op, NumberText(k, 10))]), Env(L2L3Catalog(), KIND_NAMES, ParseU64))
            case None => false
            case Some(rules) =>
              AllRunnable(rules) && Firings(PortFrame(port), rules, |rules|) ==
              if Admits(OpText(op), k).value.Has(port) then [Firing(0, Span(42, 42))] else []
  {
    hide L2L3Catalog, Compile, RuleFile, Firings, PortFrame, Runnable, NumberText, ParseU64, Admits, OpText, ValueOf;
    DecimalRoundTrip(k);
    DecimalIsWord(NumberText(k, 10));
    PortRuleFires(op, NumberText(k, 10), k, port, ParseU64);
  }

  lemma DecimalIsWord(s: string)
    requires IsDecimal(s)
    ensures IsWord(s)
  {
  }

  /** Above 1023: on either side of it. */
  lemma AboveSystemPorts()
    ensures match Compile(RuleFile([PortRule(Gt, "1023")]), Env(L2L3Catalog(), KIND_NAMES, ParseU64))
            case None => false
            case Some(rules) =>
              && AllRunnable(rules)
              && Firings(PortFrame(5353), rules, |rules|) == Firings(PortFrame(1024), rules, |rules|) ==
                 [Firing(0, Span(42, 42))]
              && Firings(PortFrame(53), rules, |rules|) == Firings(PortFrame(1023), rules, |rules|) == []
  {
    hide L2L3Catalog, Compile, RuleFile, Firings, PortFrame, Runnable, NumberText, ParseU64;
    Text1023();
    DecimalPortRule(Gt, 1023, 5353);
    DecimalPortRule(Gt, 1023, 1024);
    DecimalPortRule(Gt, 1023, 53);
    DecimalPortRule(Gt, 1023, 1023);
  }

  lemma Text1023()
    ensures NumberText(1023, 10) == "1023"
  {
    assert NumberText(10, 10) == "10";
    assert NumberText(102, 10) == "102";
  }

  /** Digits behind a zero are octal: ten is read as eight, and 08 is no number. A minus sign is taken. */
  lemma ZeroMakesOctal()
    ensures ParseU64("010") == Some(8) && ParseU64("08") == None && ParseU64("-1") == Some(0xFFFF_FFFF_FFFF_FFFF)
  {
    hide ParseU64;
    OctalText("010");
    OctalText("08");
    assert "010"[..2] == "01" && "01"[..1] == "0" && "0"[..0] == "";
    DigitsLengthIs("010", 8, 3);
    DigitsLengthIs("08", 8, 1);
    MinusOne();
  }

  lemma OctalText(s: string)
    requires IsDecimal(s) && s[0] == '0'
    ensures ParseU64(s) ==
      if DigitsLength(s, 8) < |s| then None else Some(Min(ValueOf(s, 8), TWO_TO_THE_64 - 1))
  {
    hide ParseU64, DigitsLength, ValueOf;
    DecimalStarts(s);
    NumberOf(s, 8, 0);
  }

  lemma MinusOne()
    ensures ParseU64("-1") == Some(0xFFFF_FFFF_FFFF_FFFF)
  {
    hide SpaceLength, BaseOf, ValueOf, DigitsLength, CString;
    WithoutNul("-1");
    DigitsLengthIs("1", 10, 1);
    OneParts();
    assert "-1"[1..] == "1" && "1"[0..] == "1" && "1"[..1] == "1";
  }

  lemma OneParts()
    ensures SpaceLength("-1") == 0 && BaseOf("1") == (10, 0) && ValueOf("1", 10) == 1
  {
    assert "1"[..0] == "";
  }

  // ---- counters ---------------------------------------------------------------------------------------

  /** An ARP frame, and one whose payload is one record. */
  function ArpFrame(): seq<byte> { Witnesses.Zeros(14)[12 := 8][13 := 6] }

  function RecordFrame(): seq<byte> { Witnesses.Zeros(16)[12 := 8][13 := 6] }

  lemma EthLast()
    ensures LastOffset([Visit(Eth, 0)], 0) == Some(0) && LastOffset([Visit(Eth, 0)], 5) == None
  {
    assert [Visit(Eth, 0)][..0] == [];
  }

  /** The walk of either frame is its Ethernet header. */
  lemma OnlyEthernet(p: seq<byte>)
    requires |p| >= 14 && p[12] == 8 && p[13] == 6
    ensures Visits(p, Eth) == [Visit(Eth, 0)]
    ensures LastOffset(Visits(p, Eth), 0) == Some(0) && LastOffset(Visits(p, Eth), 5) == None
    ensures FieldOk(ETHERTYPE_REF) && ReadRuntime(p, 0, ETHERTYPE_REF) == 0x0806
  {
    hide MatchEdges, Trace, LastOffset;
    Witnesses.Host16At(p, 12);
    EthStep(p, MAX_WALK_STEPS);
    EthertypeDispatch(0x0806);
    EthLast();
  }

  /** The rule's condition holds on the ARP frame, which has no UDP header: the rule is not counted as matched. */
  lemma MatchedMissesPasses()
    ensures var r, pkts := RecordsRule(UdpPayload), [Packet(0, ArpFrame())];
      && AllRunnable([r]) && IdsInRange([r]) && PassCount(r, pkts) == 1
      && var stats := AfterPackets(Loaded([r]), [r], pkts).output.perRule;
         |stats| == 1 && stats[0].matched == 0
  {
    hide Trace, ReadRuntime, LastOffset, Region, AfterPackets;
    var p, r := ArpFrame(), RecordsRule(UdpPayload);
    var pkts := [Packet(0, p)];
    OnlyEthernet(p);
    assert Passes(pkts[0].bytes, r) && !RegionOpens(pkts[0].bytes, r.region);
    assert pkts[..0] == [];
    CountersAreExact([r], pkts);
    FireCountIsPassCount(r, pkts);
  }

  lemma OneRecord()
    ensures var p := RecordFrame(); Tlv.Records(p, 14, |p|, Tlv.RawRecords) == [Tlv.Record(0, 0, Some(16))]
  {
    var p := RecordFrame();
    assert Tlv.Records(p, 16, |p|, Tlv.RawRecords) == [];
  }

  lemma RecordsRuleFires()
    ensures var p, r := RecordFrame(), RecordsRule(EthPayload);
      Runnable(r) && Fires(p, r) && Region(p, Visits(p, Eth), r.region) == Some(Span(14, 16))
  {
    hide Trace, ReadRuntime, LastOffset;
    OnlyEthernet(RecordFrame());
  }

  lemma OneFiring(r: Rule, pkt: Packet, span: Span)
    requires Runnable(r) && r.ruleId == 0 && Fires(pkt.bytes, r)
    requires Region(pkt.bytes, Visits(pkt.bytes, Eth), r.region) == Some(span)
    ensures AllRunnable([r]) && IdsInRange([r]) && span.begin <= span.end <= |pkt.bytes|
    ensures AfterPackets(Loaded([r]), [r], [pkt]).output ==
            AfterFiring(Loaded([r]).output, r, pkt, span)
  {
    hide Fires, Region, Trace, Runnable, AfterFiring, AfterFirings, Firings;
    var s, fs := Loaded([r]), [Firing(0, span)];
    NoFirings(pkt.bytes, [r], s.output, pkt);
    FiringsStep(pkt.bytes, [r], 0);
    assert [] + fs == fs && [pkt][..0] == [];
    AfterFiringsStep(s.output, [r], pkt, [], fs[0]);
    assert s.output.(perRule := Grown(s.output.perRule, 1)) == s.output;
  }

  /** The rule fires on the second frame and emits one row. */
  lemma OneRow()
    ensures var r, pkts := RecordsRule(EthPayload), [Packet(0, RecordFrame())];
      AllRunnable([r]) && IdsInRange([r]) && AfterPackets(Loaded([r]), [r], pkts).output.rowsEmitted == 1
  {
    hide Fires, Region, Tlv.Records, AfterPackets, Runnable, Trace;
    RecordsRuleFires();
    OneRecord();
    OneFiring(RecordsRule(EthPayload), Packet(0, RecordFrame()), Span(14, 16));
  }

  /** After loading again the rows are no longer the sum of the per-rule counters. */
  lemma ReloadLosesRows(next: seq<Rule>)
    ensures var r, pkts := RecordsRule(EthPayload), [Packet(0, RecordFrame())];
      && AllRunnable([r]) && IdsInRange([r])
      && !RowsBalance(AfterPackets(Loaded([r]), [r], pkts).output.(perRule := Zeroed(|next|)))
  {
    hide AfterPackets, RowsBalance, Runnable;
    var r, pkts := RecordsRule(EthPayload), [Packet(0, RecordFrame())];
    OneRow();
    RowsAreConserved([r], pkts);
    ReloadKeepsBalance(AfterPackets(Loaded([r]), [r], pkts), [r], next);
  }
}
