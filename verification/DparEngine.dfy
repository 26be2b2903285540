/** The parser palette and the engine: rules loaded from text, run one packet at a time, with its counters. */
module DparEngine {
  import opened Wire
  import opened Dag
  import opened DparFields
  import opened DparRules
  import opened DparMatch
  import Tlv
  import SomeipTlv

  // ---- the palette ------------------------------------------------------------------------------------

  datatype SomeipTlvRow = SomeipTlvRow(packetId: nat, ruleId: nat, memberIndex: nat, dataId: nat, wireType: nat,
                                       length: nat, valueOffset: nat)

  datatype RawTlvRow = RawTlvRow(packetId: nat, ruleId: nat, index: nat, kind: nat, length: nat)

  const KIND_NAMES: seq<string> := ["someip_tlv", "raw_tlv"]

  function SomeipRow(pid: nat, ruleId: nat, begin: nat, i: nat, m: SomeipTlv.Member): SomeipTlvRow {
    SomeipTlvRow(pid, ruleId, i % TWO_TO_THE_32, m.dataId, m.wireType, m.length,
                 if m.value.Some? && m.value.value >= begin then (m.value.value - begin) % TWO_TO_THE_32 else 0)
  }

  /** One row per member of the region, numbered in order. */
  function SomeipRows(pid: nat, ruleId: nat, begin: nat, ms: seq<SomeipTlv.Member>): seq<SomeipTlvRow> {
    seq(|ms|, i requires 0 <= i < |ms| => SomeipRow(pid, ruleId, begin, i, ms[i]))
  }

  function RawRow(pid: nat, ruleId: nat, i: nat, r: Tlv.Record): RawTlvRow {
    RawTlvRow(pid, ruleId, i % TWO_TO_THE_32, r.kind, r.length)
  }

  function RawRows(pid: nat, ruleId: nat, rs: seq<Tlv.Record>): seq<RawTlvRow> {
    seq(|rs|, i requires 0 <= i < |rs| => RawRow(pid, ruleId, i, rs[i]))
  }

  /** What one emit adds to the two tables. */
  datatype Emission = Emission(someip: seq<SomeipTlvRow>, raw: seq<RawTlvRow>) {
    function Rows(): nat { |someip| + |raw| }
  }

  /** The rows a parser makes of a region; a kind outside the palette makes none. */
  function Emitted(kind: nat, pid: nat, ruleId: nat, p: seq<byte>, s: Span): Emission
    requires s.begin <= s.end <= |p|
  {
    if kind == 0 then Emission(SomeipRows(pid, ruleId, s.begin, SomeipTlv.Members(p, s.begin, s.end)), [])
    else if kind == 1 then Emission([], RawRows(pid, ruleId, Tlv.Records(p, s.begin, s.end, Tlv.RawRecords)))
    else Emission([], [])
  }

  class Palette {
    var someip: seq<SomeipTlvRow>
    var raw: seq<RawTlvRow>

    constructor ()
      ensures someip == [] && raw == []
    {
      someip, raw := [], [];
    }

    method EmitSomeip(pid: nat, ruleId: nat, p: seq<byte>, s: Span) returns (n: nat)
      requires s.begin <= s.end <= |p|
      modifies this`someip
      ensures someip == old(someip) + SomeipRows(pid, ruleId, s.begin, SomeipTlv.Members(p, s.begin, s.end))
      ensures n == |SomeipTlv.Members(p, s.begin, s.end)|
    {
      hide SomeipTlv.NextMember, SomeipRows;
      n := 0;
      var idx := 0;
      var c := new SomeipTlv.SomeipTlvCursor(s.begin, s.end);
      ghost var done: seq<SomeipTlv.Member> := [];
      NoRows(pid, ruleId, s.begin);
      var m := c.Next(p);
      while m.Some?
        invariant c.end == s.end && (m.Some? ==> s.begin <= c.p <= s.end)
        invariant idx == n % TWO_TO_THE_32 && n == |done|
        invariant m.Some? && m.value.value.Some? ==> m.value.value.value >= s.begin
        invariant SomeipTlv.Members(p, s.begin, s.end) ==
                  done + (if m.Some? then [m.value] + SomeipTlv.Members(p, c.p, s.end) else [])
        invariant someip == old(someip) + SomeipRows(pid, ruleId, s.begin, done)
        decreases m.Some?, s.end - c.p
      {
        var offset := if m.value.value.Some? then (m.value.value.value - s.begin) % TWO_TO_THE_32 else 0;
        var row := SomeipTlvRow(pid, ruleId, idx, m.value.dataId, m.value.wireType, m.value.length, offset);
        SomeipRowsStep(pid, ruleId, s.begin, done, m.value);
        assert old(someip) + (SomeipRows(pid, ruleId, s.begin, done) + [row]) == someip + [row];
        someip := someip + [row];
        ghost var rest := SomeipTlv.Members(p, c.p, s.end);
        assert done + ([m.value] + rest) == done + [m.value] + rest;
        done := done + [m.value];
        idx := (idx + 1) % TWO_TO_THE_32;
        n := n + 1;
        m := c.Next(p);
      }
      assert done == SomeipTlv.Members(p, s.begin, s.end);
    }

    method EmitRaw(pid: nat, ruleId: nat, p: seq<byte>, s: Span) returns (n: nat)
      requires s.begin <= s.end <= |p|
      modifies this`raw
      ensures raw == old(raw) + RawRows(pid, ruleId, Tlv.Records(p, s.begin, s.end, Tlv.RawRecords))
      ensures n == |Tlv.Records(p, s.begin, s.end, Tlv.RawRecords)|
    {
      hide Tlv.NextRecord, RawRows;
      n := 0;
      var idx := 0;
      var c := new Tlv.TlvCursor(s.begin, s.end, Tlv.RawRecords);
      ghost var done: seq<Tlv.Record> := [];
      NoRows(pid, ruleId, s.begin);
      var r := c.Next(p);
      while r.Some?
        invariant c.end == s.end && c.pad == Tlv.RawRecords && (r.Some? ==> c.p <= s.end)
        invariant idx == n % TWO_TO_THE_32 && n == |done|
        invariant Tlv.Records(p, s.begin, s.end, Tlv.RawRecords) ==
                  done + (if r.Some? then [r.value] + Tlv.Records(p, c.p, s.end, Tlv.RawRecords) else [])
        invariant raw == old(raw) + RawRows(pid, ruleId, done)
        decreases r.Some?, s.end - c.p
      {
        var row := RawTlvRow(pid, ruleId, idx, r.value.kind, r.value.length);
        RawRowsStep(pid, ruleId, done, r.value);
        assert old(raw) + (RawRows(pid, ruleId, done) + [row]) == raw + [row];
        raw := raw + [row];
        ghost var rest := Tlv.Records(p, c.p, s.end, Tlv.RawRecords);
        assert done + ([r.value] + rest) == done + [r.value] + rest;
        done := done + [r.value];
        idx := (idx + 1) % TWO_TO_THE_32;
        n := n + 1;
        r := c.Next(p);
      }
      assert done == Tlv.Records(p, s.begin, s.end, Tlv.RawRecords);
    }

    /** Run the parser of a kind over a region. */
    method Emit(kind: nat, pid: nat, ruleId: nat, p: seq<byte>, s: Span) returns (n: nat)
      requires s.begin <= s.end <= |p|
      modifies this
      ensures var e := Emitted(kind, pid, ruleId, p, s);
        someip == old(someip) + e.someip && raw == old(raw) + e.raw && n == e.Rows()
    {
      hide SomeipTlv.Members, Tlv.Records;
      if kind == 0 {
        n := EmitSomeip(pid, ruleId, p, s);
      } else if kind == 1 {
        n := EmitRaw(pid, ruleId, p, s);
      } else {
        n := 0;
      }
    }
  }

  lemma NoRows(pid: nat, ruleId: nat, begin: nat)
    ensures SomeipRows(pid, ruleId, begin, []) == [] && RawRows(pid, ruleId, []) == []
  {
  }

  lemma SomeipRowsStep(pid: nat, ruleId: nat, begin: nat, ms: seq<SomeipTlv.Member>, m: SomeipTlv.Member)
    ensures SomeipRows(pid, ruleId, begin, ms + [m]) ==
            SomeipRows(pid, ruleId, begin, ms) + [SomeipRow(pid, ruleId, begin, |ms|, m)]
  {
    hide SomeipRow;
  }

  lemma RawRowsStep(pid: nat, ruleId: nat, rs: seq<Tlv.Record>, r: Tlv.Record)
    ensures RawRows(pid, ruleId, rs + [r]) == RawRows(pid, ruleId, rs) + [RawRow(pid, ruleId, |rs|, r)]
  {
    hide RawRow;
  }

  // ---- what the engine does to its state --------------------------------------------------------------

  datatype RuleStat = RuleStat(matched: nat, rowsEmitted: nat)

  /** What firings change: the emission counters and the tables. */
  datatype Output = Output(rowsEmitted: nat, perRule: seq<RuleStat>, someip: seq<SomeipTlvRow>, raw: seq<RawTlvRow>)

  datatype State = State(packetsSeen: nat, packetsMatchedAny: nat, rulesEvaluated: nat, output: Output)

  const FRESH := State(0, 0, 0, Output(0, [], [], []))

  datatype Packet = Packet(id: nat, bytes: seq<byte>)

  function Zeroed(n: nat): (z: seq<RuleStat>)
    ensures |z| == n
  {
    seq(n, _ => RuleStat(0, 0))
  }

  /** Grown to at least n entries, as vector resize does. */
  function Grown(stats: seq<RuleStat>, n: nat): (g: seq<RuleStat>)
    ensures |g| >= n && |g| >= |stats|
  {
    if |stats| < n then stats + Zeroed(n - |stats|) else stats
  }

  /** Every rule's id is a place in the per-rule counters. */
  predicate IdsInRange(rules: seq<Rule>) { forall i :: 0 <= i < |rules| ==> rules[i].ruleId < |rules| }

  ghost predicate FiringsFit(fs: seq<Firing>, rules: seq<Rule>, p: seq<byte>) {
    forall i :: 0 <= i < |fs| ==> fs[i].rule < |rules| && fs[i].span.begin <= fs[i].span.end <= |p|
  }

  function AfterFiring(o: Output, r: Rule, pkt: Packet, span: Span): (o': Output)
    requires r.ruleId < |o.perRule| && span.begin <= span.end <= |pkt.bytes|
    ensures |o'.perRule| == |o.perRule|
  {
    var e, id := Emitted(r.parserKind, pkt.id, r.ruleId, pkt.bytes, span), r.ruleId;
    var stat := o.perRule[id];
    Output(o.rowsEmitted + e.Rows(), o.perRule[id := RuleStat(stat.matched + 1, stat.rowsEmitted + e.Rows())],
           o.someip + e.someip, o.raw + e.raw)
  }

  /** After a list of firings, in order. */
  ghost function AfterFirings(o: Output, rules: seq<Rule>, pkt: Packet, fs: seq<Firing>): (o': Output)
    requires IdsInRange(rules) && |rules| <= |o.perRule| && FiringsFit(fs, rules, pkt.bytes)
    ensures |o'.perRule| == |o.perRule|
  {
    if fs == [] then o
    else
      var last := fs[|fs| - 1];
      AfterFiring(AfterFirings(o, rules, pkt, fs[..|fs| - 1]), rules[last.rule], pkt, last.span)
  }

  lemma FiringsAreFit(p: seq<byte>, rules: seq<Rule>, n: nat)
    requires AllRunnable(rules) && n <= |rules|
    ensures FiringsFit(Firings(p, rules, n), rules, p)
  {
    hide Firings, Runnable;
    FiringsAreExact(p, rules, n);
  }

  /** After one packet. */
  ghost function AfterPacket(s: State, rules: seq<Rule>, pkt: Packet): (s': State)
    requires AllRunnable(rules) && IdsInRange(rules)
  {
    if rules == [] then s
    else
      FiringsAreFit(pkt.bytes, rules, |rules|);
      var fs := Firings(pkt.bytes, rules, |rules|);
      State(s.packetsSeen + 1, s.packetsMatchedAny + (if fs != [] then 1 else 0), s.rulesEvaluated + |rules|,
            AfterFirings(s.output.(perRule := Grown(s.output.perRule, |rules|)), rules, pkt, fs))
  }

  /** After a run of packets. */
  ghost function AfterPackets(s: State, rules: seq<Rule>, pkts: seq<Packet>): State
    requires AllRunnable(rules) && IdsInRange(rules)
  {
    if pkts == [] then s else AfterPacket(AfterPackets(s, rules, pkts[..|pkts| - 1]), rules, pkts[|pkts| - 1])
  }

  // ---- the engine -------------------------------------------------------------------------------------

  lemma AfterFiringsStep(o: Output, rules: seq<Rule>, pkt: Packet, fs: seq<Firing>, f: Firing)
    requires IdsInRange(rules) && |rules| <= |o.perRule| && FiringsFit(fs, rules, pkt.bytes)
    requires f.rule < |rules| && f.span.begin <= f.span.end <= |pkt.bytes|
    ensures FiringsFit(fs + [f], rules, pkt.bytes)
    ensures AfterFirings(o, rules, pkt, fs + [f]) ==
            AfterFiring(AfterFirings(o, rules, pkt, fs), rules[f.rule], pkt, f.span)
  {
    hide AfterFiring;
    var all := fs + [f];
    assert all[..|all| - 1] == fs && all[|all| - 1] == f;
  }

  lemma CompiledIdsInRange(text: string, env: Env)
    ensures Compile(text, env).Some? ==> IdsInRange(Compile(text, env).value)
  {
    hide Conditions, RuleTail, RuleLines, Lines;
    var lines := RuleLines(Lines(text));
    RulesAreByLine(lines, env);
    if Compile(text, env).Some? {
      var rules := Compile(text, env).value;
      forall i | 0 <= i < |rules| ensures rules[i].ruleId < |rules| {
        assert RuleOf(lines[i], i, env) == Some(rules[i]);
      }
    }
  }

  /** The region a rule hands over, if it fires. */
  method Match(p: seq<byte>, offByNode: array<nat>, present: array<bool>, r: Rule) returns (span: Option<Span>)
    requires Recorded(Visits(p, Eth), offByNode, present) && Runnable(r)
    ensures span.Some? <==> Fires(p, r)
    ensures span.Some? ==> span == Region(p, Visits(p, Eth), r.region) && span.value.begin <= span.value.end <= |p|
  {
    hide Trace, Region, AllHold;
    ghost var vs := Visits(p, Eth);
    var ok := EvalConditions(p, vs, offByNode, present, r);
    if !ok {
      return None;
    }
    span := ResolveRegion(r.region, vs, offByNode, present, p);
  }

  class Engine {
    const palette: Palette
    const catalog: seq<CatalogEntry>
    const num: string -> Option<nat>
    var rules: seq<Rule>
    var packetsSeen: nat
    var packetsMatchedAny: nat
    var rulesEvaluated: nat
    var rowsEmitted: nat
    var perRule: seq<RuleStat>

    ghost predicate Valid()
      reads this
    {
      catalog == L2L3Catalog() && AllRunnable(rules) && IdsInRange(rules)
    }

    ghost function Outputs(): Output
      reads this, palette
    {
      Output(rowsEmitted, perRule, palette.someip, palette.raw)
    }

    ghost function Now(): State
      reads this, palette
    {
      State(packetsSeen, packetsMatchedAny, rulesEvaluated, Outputs())
    }

    constructor (num: string -> Option<nat>)
      ensures Valid() && fresh(palette) && Now() == FRESH && rules == [] && this.num == num
    {
      this.num := num;
      palette := new Palette();
      var cat := BuildCatalog();
      catalog := cat;
      rules, packetsSeen, packetsMatchedAny, rulesEvaluated, rowsEmitted, perRule := [], 0, 0, 0, 0, [];
    }

    /** Compile against the catalog and the palette's names. Success replaces the rules and zeroes the per-rule
        counters alone; failure changes nothing, the rules loaded before included. */
    method LoadRules(text: string) returns (ok: bool, errors: seq<RuleError>)
      requires Valid()
      modifies this`rules, this`perRule
      ensures Valid()
      ensures var compiled := Compile(text, Env(catalog, KIND_NAMES, num));
        && (ok <==> compiled.Some?) && (ok <==> errors == [])
        && (ok ==> rules == compiled.value && perRule == Zeroed(|rules|))
        && (!ok ==> rules == old(rules) && perRule == old(perRule))
    {
      hide Compile, L2L3Catalog, Runnable;
      var env := Env(catalog, KIND_NAMES, num);
      var compiled;
      ok, compiled, errors := CompileRules(text, env);
      if ok {
        CompiledRulesAreRunnable(text, env);
        CompiledIdsInRange(text, env);
        rules := compiled;
        perRule := Zeroed(|compiled|);
      }
    }

    /** Run a fired rule's parser and count. */
    method Fire(r: Rule, p: seq<byte>, pid: nat, span: Span)
      requires r.ruleId < |perRule| && span.begin <= span.end <= |p|
      modifies this`rowsEmitted, this`perRule, palette
      ensures Outputs() == AfterFiring(old(Outputs()), r, Packet(pid, p), span)
    {
      hide Emitted;
      var rows := palette.Emit(r.parserKind, pid, r.ruleId, p, span);
      var stat := perRule[r.ruleId];
      perRule := perRule[r.ruleId := RuleStat(stat.matched + 1, stat.rowsEmitted + rows)];
      rowsEmitted := rowsEmitted + rows;
    }

    /** Match one packet against every rule, and run the parser of each that fires. */
    method Run(p: seq<byte>, pid: nat)
      requires Valid()
      modifies this`packetsSeen, this`packetsMatchedAny, this`rulesEvaluated, this`rowsEmitted, this`perRule, palette
      ensures Valid()
      ensures Now() == AfterPacket(old(Now()), rules, Packet(pid, p))
    {
      hide Runnable, Firings, AfterFirings, AfterFiring, L2L3Catalog, Fires, Region, Trace, Recorded;
      if rules == [] {
        return;
      }
      if |perRule| < |rules| {
        perRule := perRule + Zeroed(|rules| - |perRule|);
      }
      var offByNode, present := RecordWalk(p);
      packetsSeen := packetsSeen + 1;
      ghost var pkt, start, fs := Packet(pid, p), Outputs(), [];
      assert start == old(Outputs()).(perRule := Grown(old(perRule), |rules|));
      var any := false;
      NoFirings(p, rules, start, pkt);
      for i := 0 to |rules|
        invariant Recorded(Visits(p, Eth), offByNode, present)
        invariant fs == Firings(p, rules, i) && (any <==> fs != [])
        invariant FiringsFit(fs, rules, p) && |perRule| == |start.perRule|
        invariant Outputs() == AfterFirings(start, rules, pkt, fs)
        invariant rulesEvaluated == old(rulesEvaluated) + i && packetsSeen == old(packetsSeen) + 1
        invariant packetsMatchedAny == old(packetsMatchedAny)
      {
        rulesEvaluated := rulesEvaluated + 1;
        var span := Match(p, offByNode, present, rules[i]);
        FiringsStep(p, rules, i);
        if span.Some? {
          AfterFiringsStep(start, rules, pkt, fs, Firing(i, span.value));
          Fire(rules[i], p, pid, span.value);
          fs := fs + [Firing(i, span.value)];
          any := true;
        }
      }
      if any {
        packetsMatchedAny := packetsMatchedAny + 1;
      }
    }
  }

  lemma NoFirings(p: seq<byte>, rules: seq<Rule>, o: Output, pkt: Packet)
    requires AllRunnable(rules) && IdsInRange(rules) && |rules| <= |o.perRule|
    ensures Firings(p, rules, 0) == [] && AfterFirings(o, rules, pkt, []) == o
  {
  }
}
