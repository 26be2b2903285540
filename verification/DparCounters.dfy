/** The engine's counters, over every run: what they conserve and what they count. */
module DparCounters {
  import opened Wire
  import opened WireSpec
  import opened Protocols
  import opened Dag
  import opened DparFields
  import opened DparRules
  import opened DparMatch
  import opened DparEngine
  import Tlv
  import SomeipTlv

  // ---- counting ---------------------------------------------------------------------------------------

  function SumRows(stats: seq<RuleStat>): nat {
    if stats == [] then 0 else stats[|stats| - 1].rowsEmitted + SumRows(stats[..|stats| - 1])
  }

  function SumMatched(stats: seq<RuleStat>): nat {
    if stats == [] then 0 else stats[|stats| - 1].matched + SumMatched(stats[..|stats| - 1])
  }

  /** Rows of the SOME/IP table that carry a rule id. */
  function SomeipOf(rows: seq<SomeipTlvRow>, id: nat): nat {
    if rows == [] then 0 else (if rows[|rows| - 1].ruleId == id then 1 else 0) + SomeipOf(rows[..|rows| - 1], id)
  }

  function RawOf(rows: seq<RawTlvRow>, id: nat): nat {
    if rows == [] then 0 else (if rows[|rows| - 1].ruleId == id then 1 else 0) + RawOf(rows[..|rows| - 1], id)
  }

  lemma {:induction false} AddedRows(a: seq<SomeipTlvRow>, b: seq<SomeipTlvRow>, ruleId: nat, id: nat)
    requires forall i :: 0 <= i < |b| ==> b[i].ruleId == ruleId
    ensures SomeipOf(a + b, id) == SomeipOf(a, id) + if id == ruleId then |b| else 0
  {
    if b == [] {
      assert a + b == a;
    } else {
      var n := |b| - 1;
      AddedRows(a, b[..n], ruleId, id);
      assert (a + b)[..|a| + n] == a + b[..n];
    }
  }

  lemma {:induction false} AddedRawRows(a: seq<RawTlvRow>, b: seq<RawTlvRow>, ruleId: nat, id: nat)
    requires forall i :: 0 <= i < |b| ==> b[i].ruleId == ruleId
    ensures RawOf(a + b, id) == RawOf(a, id) + if id == ruleId then |b| else 0
  {
    if b == [] {
      assert a + b == a;
    } else {
      var n := |b| - 1;
      AddedRawRows(a, b[..n], ruleId, id);
      assert (a + b)[..|a| + n] == a + b[..n];
    }
  }

  lemma {:induction false} SumsAfterUpdate(stats: seq<RuleStat>, id: nat, n: nat)
    requires id < |stats|
    ensures var t := stats[id := RuleStat(stats[id].matched + 1, stats[id].rowsEmitted + n)];
      SumRows(t) == SumRows(stats) + n && SumMatched(t) == SumMatched(stats) + 1
  {
    var last := |stats| - 1;
    var t := stats[id := RuleStat(stats[id].matched + 1, stats[id].rowsEmitted + n)];
    if id == last {
      assert t[..last] == stats[..last];
    } else {
      SumsAfterUpdate(stats[..last], id, n);
      assert t[..last] == stats[..last][id := t[id]];
    }
  }

  lemma {:induction false} ZeroSums(n: nat)
    ensures SumRows(Zeroed(n)) == SumMatched(Zeroed(n)) == 0
  {
    if n > 0 {
      ZeroSums(n - 1);
      assert Zeroed(n)[..n - 1] == Zeroed(n - 1);
    }
  }

  // ---- conservation -----------------------------------------------------------------------------------

  /** Rows in the tables are the rows counted, in all and rule by rule. */
  ghost predicate RowsBalance(o: Output) {
    && |o.someip| + |o.raw| == o.rowsEmitted == SumRows(o.perRule)
    && forall id :: 0 <= id < |o.perRule| ==> RowsOf(o, id) == o.perRule[id].rowsEmitted
  }

  function RowsOf(o: Output, id: nat): nat { SomeipOf(o.someip, id) + RawOf(o.raw, id) }

  /** Rows in the tables are the rows counted; those the per-rule counters say, in all and rule by rule, are the rows
      added since an earlier output. */
  ghost predicate RowsSince(o: Output, at: Output) {
    && |o.someip| + |o.raw| == o.rowsEmitted == at.rowsEmitted + SumRows(o.perRule)
    && forall id :: 0 <= id < |o.perRule| ==> RowsOf(o, id) == RowsOf(at, id) + o.perRule[id].rowsEmitted
  }

  lemma BalanceIsSinceStart(o: Output)
    ensures RowsBalance(o) <==> RowsSince(o, FRESH.output)
  {
    hide SumRows;
    NoRowsOf(FRESH.output);
  }

  ghost predicate Balanced(s: State, rules: seq<Rule>) {
    && |s.output.perRule| == |rules|
    && RowsBalance(s.output)
    && s.rulesEvaluated == s.packetsSeen * |rules|
    && s.packetsMatchedAny <= s.packetsSeen
    && s.packetsMatchedAny <= SumMatched(s.output.perRule)
  }

  lemma EmittedCarriesRule(kind: nat, pid: nat, ruleId: nat, p: seq<byte>, s: Span)
    requires s.begin <= s.end <= |p|
    ensures var e := Emitted(kind, pid, ruleId, p, s);
      && (forall i :: 0 <= i < |e.someip| ==> e.someip[i].ruleId == ruleId)
      && (forall i :: 0 <= i < |e.raw| ==> e.raw[i].ruleId == ruleId)
  {
    hide SomeipTlv.Members, Tlv.Records;
  }

  lemma FiringKeepsRows(o: Output, at: Output, r: Rule, pkt: Packet, span: Span)
    requires RowsSince(o, at) && r.ruleId < |o.perRule| && span.begin <= span.end <= |pkt.bytes|
    ensures var o' := AfterFiring(o, r, pkt, span);
      RowsSince(o', at) && SumMatched(o'.perRule) == SumMatched(o.perRule) + 1
  {
    hide Emitted, SumRows, SumMatched, SomeipOf, RawOf;
    var e := Emitted(r.parserKind, pkt.id, r.ruleId, pkt.bytes, span);
    EmittedCarriesRule(r.parserKind, pkt.id, r.ruleId, pkt.bytes, span);
    SumsAfterUpdate(o.perRule, r.ruleId, e.Rows());
    var o' := AfterFiring(o, r, pkt, span);
    forall id | 0 <= id < |o'.perRule| ensures RowsOf(o', id) == RowsOf(at, id) + o'.perRule[id].rowsEmitted {
      assert RowsOf(o, id) == RowsOf(at, id) + o.perRule[id].rowsEmitted;
      AddedRows(o.someip, e.someip, r.ruleId, id);
      AddedRawRows(o.raw, e.raw, r.ruleId, id);
    }
  }

  lemma {:induction false} FiringsKeepRows(o: Output, at: Output, rules: seq<Rule>, pkt: Packet, fs: seq<Firing>)
    requires RowsSince(o, at) && IdsInRange(rules) && |rules| <= |o.perRule| && FiringsFit(fs, rules, pkt.bytes)
    ensures var o' := AfterFirings(o, rules, pkt, fs);
      RowsSince(o', at) && SumMatched(o'.perRule) == SumMatched(o.perRule) + |fs|
  {
    hide AfterFiring, RowsSince, SumMatched;
    if fs != [] {
      var n := |fs| - 1;
      FiringsKeepRows(o, at, rules, pkt, fs[..n]);
      FiringKeepsRows(AfterFirings(o, rules, pkt, fs[..n]), at, rules[fs[n].rule], pkt, fs[n].span);
    }
  }

  lemma PacketKeepsBalance(s: State, rules: seq<Rule>, pkt: Packet)
    requires AllRunnable(rules) && IdsInRange(rules) && Balanced(s, rules)
    ensures Balanced(AfterPacket(s, rules, pkt), rules)
  {
    hide Runnable, RowsBalance, SumMatched, Firings, AfterFirings;
    if rules != [] {
      FiringsAreFit(pkt.bytes, rules, |rules|);
      BalanceIsSinceStart(s.output);
      FiringsKeepRows(s.output, FRESH.output, rules, pkt, Firings(pkt.bytes, rules, |rules|));
      BalanceIsSinceStart(AfterPacket(s, rules, pkt).output);
      assert (s.packetsSeen + 1) * |rules| == s.packetsSeen * |rules| + |rules|;
    }
  }

  /** The state of a fresh engine after one successful load. */
  function Loaded(rules: seq<Rule>): State { FRESH.(output := FRESH.output.(perRule := Zeroed(|rules|))) }

  /** Whatever packets a freshly loaded engine is given, rows are conserved: the tables hold as many rows as were
      counted, in all and for every rule; each packet evaluates every rule once; and no more packets matched than
      were seen, nor than rules fired. */
  lemma {:induction false} RowsAreConserved(rules: seq<Rule>, pkts: seq<Packet>)
    requires AllRunnable(rules) && IdsInRange(rules)
    ensures Balanced(AfterPackets(Loaded(rules), rules, pkts), rules)
  {
    hide Runnable, AfterPacket;
    if pkts == [] {
      ZeroSums(|rules|);
    } else {
      RowsAreConserved(rules, pkts[..|pkts| - 1]);
      PacketKeepsBalance(AfterPackets(Loaded(rules), rules, pkts[..|pkts| - 1]), rules, pkts[|pkts| - 1]);
    }
  }

  /** Loading again zeroes the per-rule counters but neither the total nor the tables, so conservation survives a
      second load exactly when no row had been emitted. */
  lemma ReloadKeepsBalance(s: State, rules: seq<Rule>, next: seq<Rule>)
    requires Balanced(s, rules)
    ensures RowsBalance(s.output.(perRule := Zeroed(|next|))) <==> s.output.rowsEmitted == 0
  {
    hide SomeipOf, RawOf;
    ZeroSums(|next|);
    assert s.output.rowsEmitted == 0 ==> s.output.someip == [] && s.output.raw == [];
    NoRowsOf(s.output.(perRule := Zeroed(|next|)));
  }

  lemma NoRowsOf(o: Output)
    ensures o.someip == [] && o.raw == [] ==> forall id :: RowsOf(o, id) == 0
  {
  }

  // ---- what is counted --------------------------------------------------------------------------------

  ghost predicate AnyFires(p: seq<byte>, rules: seq<Rule>)
    requires AllRunnable(rules)
  {
    exists i :: 0 <= i < |rules| && Fires(p, rules[i])
  }

  /** Packets on which a rule fires. */
  ghost function FireCount(r: Rule, pkts: seq<Packet>): nat
    requires Runnable(r)
  {
    if pkts == [] then 0
    else FireCount(r, pkts[..|pkts| - 1]) + if Fires(pkts[|pkts| - 1].bytes, r) then 1 else 0
  }

  /** Packets on which some rule fires. */
  ghost function AnyCount(rules: seq<Rule>, pkts: seq<Packet>): nat
    requires AllRunnable(rules)
  {
    if pkts == [] then 0
    else AnyCount(rules, pkts[..|pkts| - 1]) + if AnyFires(pkts[|pkts| - 1].bytes, rules) then 1 else 0
  }

  /** The first n rules of one packet: each fired rule's counter moved by one, no other. */
  lemma {:induction false} MatchedMoves(o: Output, rules: seq<Rule>, pkt: Packet, n: nat, k: nat)
    requires AllRunnable(rules) && IdsInRange(rules) && |rules| <= |o.perRule| && n <= |rules| && k < |rules|
    requires forall i :: 0 <= i < |rules| ==> rules[i].ruleId == i
    ensures FiringsFit(Firings(pkt.bytes, rules, n), rules, pkt.bytes)
    ensures AfterFirings(o, rules, pkt, Firings(pkt.bytes, rules, n)).perRule[k].matched ==
            o.perRule[k].matched + if k < n && Fires(pkt.bytes, rules[k]) then 1 else 0
  {
    hide FieldOk, AllHold, Trace, Region, Emitted, AfterFirings, Firings;
    FiringsAreFit(pkt.bytes, rules, n);
    if n == 0 {
      NoFirings(pkt.bytes, rules, o, pkt);
    } else {
      MatchedMoves(o, rules, pkt, n - 1, k);
      FiringsAreFit(pkt.bytes, rules, n - 1);
      FiringsStep(pkt.bytes, rules, n - 1);
      if Fires(pkt.bytes, rules[n - 1]) {
        RegionStarts(pkt.bytes, rules[n - 1]);
        var f := Firing(n - 1, Region(pkt.bytes, Visits(pkt.bytes, Eth), rules[n - 1].region).value);
        AfterFiringsStep(o, rules, pkt, Firings(pkt.bytes, rules, n - 1), f);
      } else {
        assert Firings(pkt.bytes, rules, n) == Firings(pkt.bytes, rules, n - 1);
      }
    }
  }

  lemma FiringFires(p: seq<byte>, rules: seq<Rule>, f: Firing)
    requires AllRunnable(rules) && IsFiring(p, rules, f)
    ensures f.rule < |rules| && Fires(p, rules[f.rule])
  {
  }

  lemma FiringsIffAny(p: seq<byte>, rules: seq<Rule>)
    requires AllRunnable(rules)
    ensures Firings(p, rules, |rules|) != [] <==> AnyFires(p, rules)
  {
    hide Fires, IsFiring, Runnable, Firings;
    FiringsAreExact(p, rules, |rules|);
    var fs := Firings(p, rules, |rules|);
    if fs != [] {
      assert IsFiring(p, rules, fs[0]);
      FiringFires(p, rules, fs[0]);
    }
  }

  /** After any run, each rule's counter is the number of packets it fired on, the matched tally the number of
      packets on which some rule fired, and the seen tally the number of packets. An engine without rules counts
      nothing. */
  lemma {:induction false} CountersAreExact(rules: seq<Rule>, pkts: seq<Packet>)
    requires AllRunnable(rules) && forall i :: 0 <= i < |rules| ==> rules[i].ruleId == i
    ensures var s := AfterPackets(Loaded(rules), rules, pkts);
      && s.packetsSeen == (if rules == [] then 0 else |pkts|)
      && s.packetsMatchedAny == AnyCount(rules, pkts)
      && |s.output.perRule| == |rules|
      && forall k :: 0 <= k < |rules| ==> s.output.perRule[k].matched == FireCount(rules[k], pkts)
  {
    hide Runnable, Fires, Firings, AfterFirings;
    if pkts != [] {
      var n := |pkts| - 1;
      CountersAreExact(rules, pkts[..n]);
      var before, pkt := AfterPackets(Loaded(rules), rules, pkts[..n]), pkts[n];
      if rules != [] {
        FiringsAreFit(pkt.bytes, rules, |rules|);
        FiringsIffAny(pkt.bytes, rules);
        forall k | 0 <= k < |rules|
          ensures AfterPackets(Loaded(rules), rules, pkts).output.perRule[k].matched == FireCount(rules[k], pkts)
        {
          MatchedMoves(before.output, rules, pkt, |rules|, k);
        }
      }
    }
  }

  // ---- what matched is said to count ------------------------------------------------------------------

  /** All conditions of the rule hold on the packet. */
  ghost predicate Passes(p: seq<byte>, r: Rule)
    requires Runnable(r)
  {
    AllHold(p, Visits(p, Eth), r.conditions)
  }

  /** Packets on which all conditions of a rule hold. */
  ghost function PassCount(r: Rule, pkts: seq<Packet>): nat
    requires Runnable(r)
  {
    if pkts == [] then 0
    else PassCount(r, pkts[..|pkts| - 1]) + if Passes(pkts[|pkts| - 1].bytes, r) then 1 else 0
  }

  /** The anchor was visited, and no TCP header there says it ends past the packet. */
  ghost predicate RegionOpens(p: seq<byte>, sel: RegionSel)
    requires SelOk(sel)
  {
    match LastOffset(Visits(p, Eth), sel.anchor)
    case None => false
    case Some(off) =>
      LastFits(p, Visits(p, Eth), sel.anchor);
      sel.kind.TcpPayload? ==> off + 4 * ReadUnsigned(TCP_DATA_OFFSET, p, off) <= |p|
  }

  lemma FiresIffPassesAndOpens(p: seq<byte>, r: Rule)
    requires Runnable(r)
    ensures Fires(p, r) <==> Passes(p, r) && RegionOpens(p, r.region)
  {
    hide AllHold, Trace, LastOffset, ReadUnsigned, Region;
    RegionFailsOnlyPastTheEnd(p, Visits(p, Eth), r.region);
  }

  lemma {:induction false} FireCountIsPassCount(r: Rule, pkts: seq<Packet>)
    requires Runnable(r)
    ensures FireCount(r, pkts) <= PassCount(r, pkts)
    ensures FireCount(r, pkts) == PassCount(r, pkts) <==>
            forall i :: 0 <= i < |pkts| && Passes(pkts[i].bytes, r) ==> RegionOpens(pkts[i].bytes, r.region)
  {
    hide Fires, Passes, RegionOpens, Runnable;
    if pkts != [] {
      var n := |pkts| - 1;
      FireCountIsPassCount(r, pkts[..n]);
      FiresIffPassesAndOpens(pkts[n].bytes, r);
      assert forall i :: 0 <= i < n ==> pkts[..n][i] == pkts[i];
    }
  }

  /** After any run a rule's matched counter is the number of packets whose conditions all held, as its comment
      says, exactly when on each of those packets the region's anchor was visited and no TCP header there declared
      an end past the packet. */
  lemma MatchedCountsPassesExactly(rules: seq<Rule>, pkts: seq<Packet>, k: nat)
    requires AllRunnable(rules) && k < |rules| && forall i :: 0 <= i < |rules| ==> rules[i].ruleId == i
    ensures |AfterPackets(Loaded(rules), rules, pkts).output.perRule| == |rules|
    ensures AfterPackets(Loaded(rules), rules, pkts).output.perRule[k].matched == PassCount(rules[k], pkts) <==>
            forall i :: 0 <= i < |pkts| && Passes(pkts[i].bytes, rules[k]) ==>
              RegionOpens(pkts[i].bytes, rules[k].region)
  {
    hide Passes, RegionOpens, AfterPackets, FireCount, PassCount, FieldOk;
    CountersAreExact(rules, pkts);
    FireCountIsPassCount(rules[k], pkts);
  }

  lemma {:induction false} RuleIds(text: string, env: Env)
    ensures match Compile(text, env)
            case None => true
            case Some(rules) => forall i :: 0 <= i < |rules| ==> rules[i].ruleId == i % TWO_TO_THE_32
  {
    hide Conditions, RuleTail, RuleLines, Lines;
    var lines := RuleLines(Lines(text));
    RulesAreByLine(lines, env);
    if Compile(text, env).Some? {
      var rules := Compile(text, env).value;
      forall i | 0 <= i < |rules| ensures rules[i].ruleId == i % TWO_TO_THE_32 {
        assert RuleOf(lines[i], i, env) == Some(rules[i]);
      }
    }
  }

  /** From text to counters: whatever text compiles, its rules conserve rows on every run, and numbered below 2^32
      they count exactly. */
  lemma CompiledRulesCount(text: string, env: Env, rules: seq<Rule>, pkts: seq<Packet>)
    requires env.catalog == L2L3Catalog()
    requires Compile(text, env) == Some(rules)
    ensures AllRunnable(rules) && IdsInRange(rules)
    ensures Balanced(AfterPackets(Loaded(rules), rules, pkts), rules)
    ensures |rules| <= TWO_TO_THE_32 ==>
      forall k :: 0 <= k < |rules| ==>
        AfterPackets(Loaded(rules), rules, pkts).output.perRule[k].matched == FireCount(rules[k], pkts)
  {
    hide Compile, Runnable, L2L3Catalog, Balanced, AfterPackets, Loaded, FireCount;
    CompiledRulesAreRunnable(text, env);
    CompiledIdsInRange(text, env);
    RowsAreConserved(rules, pkts);
    RuleIds(text, env);
    if |rules| <= TWO_TO_THE_32 {
      CountersAreExact(rules, pkts);
    }
  }
}
