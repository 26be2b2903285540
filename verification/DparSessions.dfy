/** A whole session of an engine: rule texts loaded and packets run, in any order. What survives every load. */
module DparSessions {
  import opened Wire
  import opened Dag
  import opened DparFields
  import opened DparRules
  import opened DparMatch
  import opened DparEngine
  import opened DparCounters

  /** What a caller does to an engine. */
  datatype Event = Load(text: string) | Feed(pkt: Packet)

  /** The rules in force and the counters and tables; then the output when these rules were loaded, and the packets
      run since. */
  datatype Session = Session(rules: seq<Rule>, state: State, atLoad: Output, since: seq<Packet>)
  {
    ghost predicate Valid() { AllRunnable(rules) && IdsInRange(rules) }
  }

  const NEW := Session([], FRESH, FRESH.output, [])

  /** One call. A text that does not compile changes nothing. */
  ghost function After(s: Session, e: Event, num: string -> Option<nat>): (s': Session)
    requires s.Valid()
    ensures s'.Valid()
  {
    match e
    case Feed(pkt) => s.(state := AfterPacket(s.state, s.rules, pkt), since := s.since + [pkt])
    case Load(text) =>
      var env := Env(L2L3Catalog(), KIND_NAMES, num);
      CompiledRulesAreRunnable(text, env);
      CompiledIdsInRange(text, env);
      match Compile(text, env)
      case None => s
      case Some(rules) =>
        var o := s.state.output.(perRule := Zeroed(|rules|));
        Session(rules, s.state.(output := o), o, [])
  }

  ghost function AfterAll(events: seq<Event>, num: string -> Option<nat>): (s: Session)
    ensures s.Valid()
  {
    if events == [] then NEW else After(AfterAll(events[..|events| - 1], num), events[|events| - 1], num)
  }

  /** The engine's methods are these events. */
  method Play(events: seq<Event>, num: string -> Option<nat>) returns (e: Engine)
    ensures e.Valid() && e.num == num
    ensures e.rules == AfterAll(events, num).rules && e.Now() == AfterAll(events, num).state
  {
    hide Compile, L2L3Catalog, AfterPacket, Runnable;
    e := new Engine(num);
    for i := 0 to |events|
      invariant e.Valid() && e.num == num && fresh(e) && fresh(e.palette)
      invariant e.rules == AfterAll(events[..i], num).rules && e.Now() == AfterAll(events[..i], num).state
    {
      assert events[..i + 1][..i] == events[..i];
      match events[i] {
        case Feed(pkt) => e.Run(pkt.bytes, pkt.id);
        case Load(text) => var _, _ := e.LoadRules(text);
      }
    }
    assert events[..|events|] == events;
  }

  /** A failed load leaves an engine without rules exactly when it had none. */
  lemma FailedLoadLeavesNoneExactly(s: Session, text: string, num: string -> Option<nat>)
    requires s.Valid() && Compile(text, Env(L2L3Catalog(), KIND_NAMES, num)) == None
    ensures After(s, Load(text), num) == s
    ensures After(s, Load(text), num).rules == [] <==> s.rules == []
  {
  }

  /** Packets fed while there were rules, and how many rules each met. */
  ghost function Seen(events: seq<Event>, num: string -> Option<nat>): (n: (nat, nat))
  {
    if events == [] then (0, 0)
    else
      var front := events[..|events| - 1];
      var (seen, evaluated) := Seen(front, num);
      var rules := AfterAll(front, num).rules;
      if events[|events| - 1].Feed? && rules != [] then (seen + 1, evaluated + |rules|) else (seen, evaluated)
  }

  /** Conservation over any number of loads: the tables hold the rows counted; the per-rule counters are the rows
      added, rule by rule, since these rules were loaded. */
  ghost predicate Conserved(s: Session) {
    && |s.state.output.perRule| == |s.rules|
    && RowsSince(s.state.output, s.atLoad)
    && s.state.packetsMatchedAny <= s.state.packetsSeen
  }

  lemma FeedConserves(s: Session, pkt: Packet, num: string -> Option<nat>)
    requires s.Valid() && Conserved(s)
    ensures Conserved(After(s, Feed(pkt), num))
  {
    hide RowsSince, Runnable, Firings, AfterFirings, SumMatched;
    if s.rules != [] {
      FiringsAreFit(pkt.bytes, s.rules, |s.rules|);
      FiringsKeepRows(s.state.output, s.atLoad, s.rules, pkt, Firings(pkt.bytes, s.rules, |s.rules|));
    }
  }

  lemma LoadConserves(s: Session, text: string, num: string -> Option<nat>)
    requires s.Valid() && Conserved(s)
    ensures Conserved(After(s, Load(text), num))
  {
    hide Compile, L2L3Catalog, Runnable, SomeipOf, RawOf, SumRows;
    var env := Env(L2L3Catalog(), KIND_NAMES, num);
    if Compile(text, env).Some? {
      ZeroSums(|Compile(text, env).value|);
    }
  }

  /** Whatever texts are loaded and whatever packets are run, in whatever order: the tables hold as many rows as were
      counted, the per-rule counters say what was added since the last load, and every packet run under rules was
      seen once and met every rule once. */
  lemma {:induction false} SessionsConserve(events: seq<Event>, num: string -> Option<nat>)
    ensures Conserved(AfterAll(events, num))
    ensures var s := AfterAll(events, num).state; (s.packetsSeen, s.rulesEvaluated) == Seen(events, num)
  {
    hide Conserved, Compile, L2L3Catalog, Runnable, AfterFirings, Firings;
    if events == [] {
      NewIsConserved();
    } else {
      var front := AfterAll(events[..|events| - 1], num);
      SessionsConserve(events[..|events| - 1], num);
      match events[|events| - 1]
      case Feed(pkt) => FeedConserves(front, pkt, num);
      case Load(text) => LoadConserves(front, text, num);
    }
  }

  lemma NewIsConserved()
    ensures Conserved(NEW)
  {
    BalanceIsSinceStart(FRESH.output);
  }

  /** A rule's matched counter is the number of packets it fired on since its rules were loaded. */
  lemma {:induction false} SessionsCount(events: seq<Event>, num: string -> Option<nat>)
    ensures var s := AfterAll(events, num);
      && |s.state.output.perRule| == |s.rules|
      && (|s.rules| <= TWO_TO_THE_32 ==>
            forall k :: 0 <= k < |s.rules| ==> s.state.output.perRule[k].matched == FireCount(s.rules[k], s.since))
  {
    hide Compile, L2L3Catalog, Runnable, AfterPacket, FireCount;
    if events != [] {
      var front := AfterAll(events[..|events| - 1], num);
      SessionsCount(events[..|events| - 1], num);
      SessionsConserve(events, num);
      match events[|events| - 1]
      case Feed(pkt) =>
        if |front.rules| <= TWO_TO_THE_32 {
          FeedCounts(events[..|events| - 1], pkt, num);
        }
      case Load(text) => LoadCounts(front, text, num);
    }
  }

  lemma {:induction false} SessionRuleIds(events: seq<Event>, num: string -> Option<nat>)
    ensures var rules := AfterAll(events, num).rules;
      |rules| <= TWO_TO_THE_32 ==> forall i :: 0 <= i < |rules| ==> rules[i].ruleId == i
  {
    hide Compile, L2L3Catalog, Runnable, AfterPacket;
    if events != [] {
      SessionRuleIds(events[..|events| - 1], num);
      match events[|events| - 1]
      case Feed(_) =>
      case Load(text) => RuleIds(text, Env(L2L3Catalog(), KIND_NAMES, num));
    }
  }

  lemma FeedCounts(events: seq<Event>, pkt: Packet, num: string -> Option<nat>)
    requires var s := AfterAll(events, num);
      && |s.state.output.perRule| == |s.rules| <= TWO_TO_THE_32
      && forall k :: 0 <= k < |s.rules| ==> s.state.output.perRule[k].matched == FireCount(s.rules[k], s.since)
    ensures var s, s' := AfterAll(events, num), After(AfterAll(events, num), Feed(pkt), num);
      && |s'.state.output.perRule| == |s.rules|
      && forall k :: 0 <= k < |s.rules| ==>
           s'.state.output.perRule[k].matched == FireCount(s.rules[k], s.since + [pkt])
  {
    hide Runnable, Firings, AfterFirings, Fires, AfterAll;
    var s := AfterAll(events, num);
    SessionRuleIds(events, num);
    if s.rules != [] {
      FiringsAreFit(pkt.bytes, s.rules, |s.rules|);
      forall k | 0 <= k < |s.rules|
        ensures After(s, Feed(pkt), num).state.output.perRule[k].matched == FireCount(s.rules[k], s.since + [pkt])
      {
        MatchedMoves(s.state.output, s.rules, pkt, |s.rules|, k);
        assert (s.since + [pkt])[..|s.since|] == s.since;
      }
    }
  }

  lemma LoadCounts(s: Session, text: string, num: string -> Option<nat>)
    requires s.Valid()
    ensures var s' := After(s, Load(text), num);
      s' == s || (|s'.state.output.perRule| == |s'.rules| && s'.since == [] &&
        forall k :: 0 <= k < |s'.rules| ==>
          s'.state.output.perRule[k].matched == FireCount(s'.rules[k], s'.since) == 0)
  {
    hide Compile, L2L3Catalog, Runnable;
  }
}
