/** The rule compiler: text to validated rules, all or nothing. */
module DparRules {
  import opened Wire
  import opened DparFields

  datatype CmpOp = Eq | Lt | Gt | Le | Ge

  datatype RegionKind = EthPayload | VlanPayload | UdpPayload | TcpPayload | SomeipPayload

  datatype Condition = Condition(field: FieldRef, op: CmpOp, operand: nat)

  datatype RegionSel = RegionSel(kind: RegionKind, anchor: nat)

  datatype Rule = Rule(conditions: seq<Condition>, parserKind: nat, region: RegionSel, ruleId: nat, priority: nat,
                       name: string)

  const MAX_CONDITIONS: nat := 6
  const NAME_LEN: nat := 32

  /** What the compiler is given beside the text: the catalog, the parser names, and the number parser (strtoull
      with base 0, a partial function to 64-bit values). */
  datatype Env = Env(catalog: seq<CatalogEntry>, parsers: seq<string>, num: string -> Option<nat>)

  // ---- lines and tokens -------------------------------------------------------------------------------

  /** Position of the first c, or the length. */
  function IndexOf(s: string, c: char): (i: nat)
    ensures i <= |s| && (i < |s| ==> s[i] == c)
    ensures forall k :: 0 <= k < i ==> s[k] != c
  {
    if s == "" || s[0] == c then 0 else 1 + IndexOf(s[1..], c)
  }

  function Lines(text: string): seq<string> {
    var nl := IndexOf(text, '\n');
    if nl == |text| then [text] else [text[..nl]] + Lines(text[nl + 1..])
  }

  predicate IsBlank(c: char) { c == ' ' || c == '\t' || c == '\r' }

  function WordLength(s: string): (n: nat)
    ensures n <= |s| && (n < |s| ==> IsBlank(s[n]))
    ensures forall k :: 0 <= k < n ==> !IsBlank(s[k])
  {
    if s == "" || IsBlank(s[0]) then 0 else 1 + WordLength(s[1..])
  }

  function Tokens(s: string): seq<string> {
    if s == "" then []
    else if IsBlank(s[0]) then Tokens(s[1..])
    else [s[..WordLength(s)]] + Tokens(s[WordLength(s)..])
  }

  lemma {:induction false} WordLengthIs(s: string, n: nat)
    requires n <= |s| && (forall k :: 0 <= k < n ==> !IsBlank(s[k])) && (n == |s| || IsBlank(s[n]))
    ensures WordLength(s) == n
    decreases n
  {
    if n > 0 {
      WordLengthIs(s[1..], n - 1);
    }
  }

  method SkipBlanks(line: string, start: nat) returns (i: nat)
    requires start <= |line|
    ensures start <= i <= |line| && (i < |line| ==> !IsBlank(line[i]))
    ensures Tokens(line[start..]) == Tokens(line[i..])
  {
    i := start;
    while i < |line| && IsBlank(line[i])
      invariant start <= i <= |line| && Tokens(line[start..]) == Tokens(line[i..])
      decreases |line| - i
    {
      assert line[i..][1..] == line[i + 1..];
      i := i + 1;
    }
  }

  method WordEnd(line: string, start: nat) returns (j: nat)
    requires start <= |line|
    ensures start <= j <= |line| && j - start == WordLength(line[start..])
  {
    j := start;
    while j < |line| && !IsBlank(line[j])
      invariant start <= j <= |line|
      invariant forall k :: start <= k < j ==> !IsBlank(line[k])
      decreases |line| - j
    {
      j := j + 1;
    }
    WordLengthIs(line[start..], j - start);
  }

  lemma TokenStep(line: string, i: nat, j: nat)
    requires i < j <= |line| && j - i == WordLength(line[i..])
    ensures Tokens(line[i..]) == [line[i..j]] + Tokens(line[j..])
  {
    var rest := line[i..];
    assert rest[..j - i] == line[i..j] && rest[j - i..] == line[j..];
    assert !IsBlank(rest[0]);
  }

  method Tokenize(line: string) returns (t: seq<string>)
    ensures t == Tokens(line)
  {
    hide Tokens, WordLength;
    t := [];
    var i := 0;
    assert line[0..] == line;
    ghost var goal := Tokens(line);
    while i < |line|
      invariant i <= |line| && goal == t + Tokens(line[i..])
      decreases |line| - i
    {
      i := SkipBlanks(line, i);
      var j := WordEnd(line, i);
      if j > i {
        TokenStep(line, i, j);
        assert t + ([line[i..j]] + Tokens(line[j..])) == t + [line[i..j]] + Tokens(line[j..]);
        t := t + [line[i..j]];
      } else {
        AtWord(line, i);
      }
      i := j;
    }
    NoTokens(line, i);
  }

  lemma AtWord(line: string, i: nat)
    requires i <= |line| && (i < |line| ==> !IsBlank(line[i])) && WordLength(line[i..]) == 0
    ensures i == |line|
  {
  }

  lemma NoTokens(line: string, i: nat)
    requires i == |line|
    ensures Tokens(line[i..]) == []
  {
  }

  /** The token lists of the lines that hold a rule: neither blank nor a comment. */
  function RuleLines(lines: seq<string>): seq<seq<string>> {
    if lines == [] then []
    else
      var last := Tokens(lines[|lines| - 1]);
      RuleLines(lines[..|lines| - 1]) + if HoldsRule(last) then [last] else []
  }

  /** Tokens are never empty, so a first token has a first character. */
  predicate HoldsRule(toks: seq<string>) { toks != [] && toks[0] != "" && toks[0][0] != '#' }

  lemma {:induction false} TokensAreWords(s: string)
    ensures forall i :: 0 <= i < |Tokens(s)| ==>
      Tokens(s)[i] != "" && forall k :: 0 <= k < |Tokens(s)[i]| ==> !IsBlank(Tokens(s)[i][k])
  {
    if s != "" {
      if IsBlank(s[0]) {
        TokensAreWords(s[1..]);
      } else {
        var n := WordLength(s);
        assert n > 0;
        TokensAreWords(s[n..]);
      }
    }
  }

  // ---- one rule ---------------------------------------------------------------------------------------

  function ParseOp(s: string): Option<CmpOp> {
    if s == "==" then Some(Eq)
    else if s == "<" then Some(Lt)
    else if s == ">" then Some(Gt)
    else if s == "<=" then Some(Le)
    else if s == ">=" then Some(Ge)
    else None
  }

  function ParseRegion(s: string): Option<RegionKind> {
    if s == "eth_payload" then Some(EthPayload)
    else if s == "vlan_payload" then Some(VlanPayload)
    else if s == "udp_payload" then Some(UdpPayload)
    else if s == "tcp_payload" then Some(TcpPayload)
    else if s == "someip_payload" then Some(SomeipPayload)
    else None
  }

  function AnchorName(k: RegionKind): string {
    match k
    case EthPayload => "eth"
    case VlanPayload => "vlan"
    case UdpPayload => "udp"
    case TcpPayload => "tcp"
    case SomeipPayload => "someip"
  }

  /** An operand must fit the field's width; a 64-bit field takes any. */
  predicate OperandFits(operand: nat, bits: nat) { bits < 64 ==> operand < Pow2(bits) }

  /** The condition written in tokens i, i+1 and i+2, if all three are right. */
  function ConditionAt(toks: seq<string>, i: nat, env: Env): Option<Condition>
    requires i + 2 < |toks|
  {
    var lhs := toks[i];
    var dot := IndexOf(lhs, '.');
    var op, operand := ParseOp(toks[i + 1]), env.num(toks[i + 2]);
    if dot == |lhs| || op.None? || operand.None? then None
    else
      var entry := FindField(env.catalog, CString(lhs[..dot]), CString(lhs[dot + 1..]));
      if entry.None? || !OperandFits(operand.value, entry.value.ref.WidthInBits()) then None
      else Some(Condition(entry.value.ref, op.value, operand.value))
  }

  /** The conditions from token i on, when n have been read already, and the token after them. */
  function Conditions(toks: seq<string>, i: nat, n: nat, env: Env): Option<(seq<Condition>, nat)>
    decreases |toks| - i
  {
    if i + 2 >= |toks| || n >= MAX_CONDITIONS then None
    else
      match ConditionAt(toks, i, env)
      case None => None
      case Some(c) =>
        if i + 3 < |toks| && toks[i + 3] == "&&" then
          match Conditions(toks, i + 4, n + 1, env)
          case None => None
          case Some((cs, j)) => Some(([c] + cs, j))
        else Some(([c], i + 3))
  }

  /** First position of a name, if any. */
  function PositionOf(names: seq<string>, name: string): (r: Option<nat>)
    ensures r.Some? ==> r.value < |names| && names[r.value] == name && name !in names[..r.value]
    ensures r.None? ==> name !in names
  {
    if names == [] then None
    else if names[0] == name then Some(0)
    else
      match PositionOf(names[1..], name)
      case None => None
      case Some(k) =>
        assert names[..k + 1] == [names[0]] + names[1..][..k];
        Some(k + 1)
  }

  function StripQuotes(s: string): string {
    if |s| >= 2 && s[0] == '"' && s[|s| - 1] == '"' then s[1..|s| - 1] else s
  }

  function Label(toks: seq<string>, i: nat): string {
    if i < |toks| then
      var l := CString(StripQuotes(toks[i]));
      l[..Min(|l|, NAME_LEN - 1)]
    else ""
  }

  /** Arrow, parser, region and label from token i on. */
  function RuleTail(toks: seq<string>, i: nat, env: Env): Option<(nat, RegionSel, string)> {
    if i + 2 >= |toks| || toks[i] != "=>" then None
    else
      var kind, region := PositionOf(env.parsers, toks[i + 1]), ParseRegion(toks[i + 2]);
      if kind.None? || region.None? then None
      else
        var anchor := AnchorNodeId(env.catalog, AnchorName(region.value));
        if anchor.None? then None
        else Some((kind.value % 0x1_0000, RegionSel(region.value, anchor.value % 0x1_0000), Label(toks, i + 3)))
  }

  /** The rule a line's tokens denote; none if anything in it is wrong. */
  function RuleOf(toks: seq<string>, ordinal: nat, env: Env): Option<Rule> {
    match Conditions(toks, 0, 0, env)
    case None => None
    case Some((cs, i)) =>
      match RuleTail(toks, i, env)
      case None => None
      case Some((kind, region, name)) =>
        Some(Rule(cs, kind, region, ordinal % TWO_TO_THE_32, ordinal % 0x1_0000, name))
  }

  /** All rules of a list of rule lines, numbered from 0, or none if one of them is wrong. */
  function RulesOf(lines: seq<seq<string>>, env: Env): (r: Option<seq<Rule>>)
    ensures r.Some? ==> |r.value| == |lines|
  {
    if lines == [] then Some([])
    else
      var n := |lines| - 1;
      var front, last := RulesOf(lines[..n], env), RuleOf(lines[n], n, env);
      if front.None? || last.None? then None else Some(front.value + [last.value])
  }

  /** There are rules exactly when every line is right, and then each is its own line's. */
  ghost predicate RulesByLine(lines: seq<seq<string>>, env: Env, r: Option<seq<Rule>>) {
    && (r.Some? <==> forall k :: 0 <= k < |lines| ==> RuleOf(lines[k], k, env).Some?)
    && (r.Some? ==>
          |r.value| == |lines| && forall k :: 0 <= k < |lines| ==> RuleOf(lines[k], k, env) == Some(r.value[k]))
  }

  lemma {:induction false} RulesAreByLine(lines: seq<seq<string>>, env: Env)
    ensures RulesByLine(lines, env, RulesOf(lines, env))
  {
    hide RuleOf;
    if lines != [] {
      var n := |lines| - 1;
      RulesAreByLine(lines[..n], env);
      assert forall k :: 0 <= k < n ==> lines[..n][k] == lines[k];
      assert RulesOf(lines[..n], env).None? ==> exists k :: 0 <= k < n && RuleOf(lines[..n][k], k, env).None?;
    }
  }

  function Compile(text: string, env: Env): Option<seq<Rule>> {
    RulesOf(RuleLines(Lines(text)), env)
  }

  // ---- the compiler -----------------------------------------------------------------------------------

  datatype Problem =
    | ExpectedCondition | NotNodeDotField | UnknownComparator | NotAnInteger | UnknownField | OperandOverflow
    | TooManyConditions | ExpectedArrow | ExpectedParser | UnknownParser | ExpectedRegion | UnknownRegion
    | AnchorNotInGraph

  datatype RuleError = RuleError(line: nat, problem: Problem)

  predicate AllOnLine(errors: seq<RuleError>, line: nat) {
    forall i :: 0 <= i < |errors| ==> errors[i].line == line
  }

  /** One condition, collecting every problem in it. */
  method ParseCondition(toks: seq<string>, i: nat, env: Env, line: nat)
    returns (c: Option<Condition>, errors: seq<RuleError>)
    requires i + 2 < |toks|
    ensures c == ConditionAt(toks, i, env) && (errors == [] <==> c.Some?) && AllOnLine(errors, line)
  {
    hide FindField, CString, IndexOf;
    c, errors := None, [];
    var lhs := toks[i];
    var dot := IndexOf(lhs, '.');
    if dot == |lhs| {
      errors := errors + [RuleError(line, NotNodeDotField)];
    }
    var op := ParseOp(toks[i + 1]);
    if op.None? {
      errors := errors + [RuleError(line, UnknownComparator)];
    }
    var operand := env.num(toks[i + 2]);
    if operand.None? {
      errors := errors + [RuleError(line, NotAnInteger)];
    }
    if dot != |lhs| {
      var entry := FindField(env.catalog, CString(lhs[..dot]), CString(lhs[dot + 1..]));
      if entry.None? {
        errors := errors + [RuleError(line, UnknownField)];
      } else if operand.Some? && !OperandFits(operand.value, entry.value.ref.WidthInBits()) {
        errors := errors + [RuleError(line, OperandOverflow)];
      } else if op.Some? && operand.Some? {
        c := Some(Condition(entry.value.ref, op.value, operand.value));
      }
    }
  }

  /** The condition loop: it goes on after a wrong condition, to collect every problem. When all conditions are
      right, i is the token after them. */
  method ParseConditions(toks: seq<string>, env: Env, line: nat)
    returns (cs: seq<Condition>, i: nat, errors: seq<RuleError>)
    ensures errors == [] <==> Conditions(toks, 0, 0, env).Some?
    ensures errors == [] ==> Conditions(toks, 0, 0, env) == Some((cs, i))
    ensures AllOnLine(errors, line)
  {
    hide ConditionAt;
    cs, i, errors := [], 0, [];
    ghost var goal := Conditions(toks, 0, 0, env);
    assert goal.Some? ==> [] + goal.value.0 == goal.value.0;
    while true
      invariant errors != [] ==> goal.None?
      invariant AllOnLine(errors, line)
      invariant errors == [] ==> goal == Prefixed(cs, Conditions(toks, i, |cs|, env))
      decreases |toks| - i
    {
      if i + 2 >= |toks| {
        errors := errors + [RuleError(line, ExpectedCondition)];
        break;
      }
      var c, found := ParseCondition(toks, i, env, line);
      errors := errors + found;
      if c.Some? {
        if |cs| >= MAX_CONDITIONS {
          errors := errors + [RuleError(line, TooManyConditions)];
        } else {
          PrefixStep(cs, c.value, toks, i, env);
          cs := cs + [c.value];
        }
      }
      i := i + 3;
      if i < |toks| && toks[i] == "&&" {
        i := i + 1;
      } else {
        break;
      }
    }
  }

  ghost function Prefixed(cs: seq<Condition>, rest: Option<(seq<Condition>, nat)>): Option<(seq<Condition>, nat)> {
    match rest
    case None => None
    case Some((more, j)) => Some((cs + more, j))
  }

  lemma PrefixStep(cs: seq<Condition>, c: Condition, toks: seq<string>, i: nat, env: Env)
    requires i + 2 < |toks| && ConditionAt(toks, i, env) == Some(c) && |cs| < MAX_CONDITIONS
    ensures Prefixed(cs, Conditions(toks, i, |cs|, env)) ==
      if i + 3 < |toks| && toks[i + 3] == "&&" then Prefixed(cs + [c], Conditions(toks, i + 4, |cs| + 1, env))
      else Some((cs + [c], i + 3))
  {
    hide ConditionAt;
    var rest := Conditions(toks, i + 4, |cs| + 1, env);
    if rest.Some? {
      assert cs + ([c] + rest.value.0) == cs + [c] + rest.value.0;
    }
  }

  method ParseTail(toks: seq<string>, start: nat, env: Env, line: nat)
    returns (tail: Option<(nat, RegionSel, string)>, errors: seq<RuleError>)
    ensures tail == RuleTail(toks, start, env) && (errors == [] <==> tail.Some?) && AllOnLine(errors, line)
  {
    hide AnchorNodeId, PositionOf, Label;
    tail, errors := None, [];
    if start >= |toks| || toks[start] != "=>" {
      errors := [RuleError(line, ExpectedArrow)];
      return;
    }
    var i := start + 1;
    var kind := None;
    if i >= |toks| {
      errors := errors + [RuleError(line, ExpectedParser)];
    } else {
      kind := PositionOf(env.parsers, toks[i]);
      i := i + 1;
      if kind.None? {
        errors := errors + [RuleError(line, UnknownParser)];
      }
    }
    if i >= |toks| {
      errors := errors + [RuleError(line, ExpectedRegion)];
      return;
    }
    var region := ParseRegion(toks[i]);
    if region.None? {
      errors := errors + [RuleError(line, UnknownRegion)];
      return;
    }
    var anchor := AnchorNodeId(env.catalog, AnchorName(region.value));
    if anchor.None? {
      errors := errors + [RuleError(line, AnchorNotInGraph)];
      return;
    }
    if kind.Some? {
      tail := Some((kind.value % 0x1_0000, RegionSel(region.value, anchor.value % 0x1_0000), Label(toks, i + 1)));
    }
  }

  method ParseRule(toks: seq<string>, ordinal: nat, env: Env, line: nat)
    returns (rule: Option<Rule>, errors: seq<RuleError>)
    ensures rule == RuleOf(toks, ordinal, env) && (errors == [] <==> rule.Some?) && AllOnLine(errors, line)
  {
    hide Conditions, RuleTail;
    rule := None;
    var cs, i, found := ParseConditions(toks, env, line);
    var tail, more := ParseTail(toks, i, env, line);
    errors := found + more;
    if found == [] && tail.Some? {
      var (kind, region, name) := tail.value;
      rule := Some(Rule(cs, kind, region, ordinal % TWO_TO_THE_32, ordinal % 0x1_0000, name));
    }
  }

  /** Line k, counted from 1, holds a rule, and it is wrong. */
  predicate IsWrongLine(lines: seq<string>, k: nat, env: Env) {
    1 <= k <= |lines| && HoldsRule(Tokens(lines[k - 1])) && RuleOf(Tokens(lines[k - 1]), 0, env).None?
  }

  predicate Reports(errors: seq<RuleError>, k: nat) { exists i :: 0 <= i < |errors| && errors[i].line == k }

  /** The errors are about exactly the wrong lines. */
  ghost predicate ReportsWrongLines(errors: seq<RuleError>, lines: seq<string>, env: Env) {
    forall k: nat :: Reports(errors, k) <==> IsWrongLine(lines, k, env)
  }

  lemma ReportsStep(errors: seq<RuleError>, found: seq<RuleError>, lines: seq<string>, line: string, env: Env)
    requires ReportsWrongLines(errors, lines, env) && AllOnLine(found, |lines| + 1)
    requires found == [] <==> !(HoldsRule(Tokens(line)) && RuleOf(Tokens(line), 0, env).None?)
    ensures ReportsWrongLines(errors + found, lines + [line], env)
  {
    hide Tokens, HoldsRule, RuleOf;
    forall k: nat ensures Reports(errors + found, k) <==> IsWrongLine(lines + [line], k, env) {
      assert Reports(errors + found, k) <==> Reports(errors, k) || (found != [] && k == |lines| + 1) by {
        ReportsJoin(errors, found, |lines| + 1, k);
      }
      assert 1 <= k <= |lines| ==> (lines + [line])[k - 1] == lines[k - 1];
      assert IsWrongLine(lines, k, env) ==> k <= |lines|;
    }
  }

  lemma ReportsJoin(errors: seq<RuleError>, found: seq<RuleError>, line: nat, k: nat)
    requires AllOnLine(found, line)
    ensures Reports(errors + found, k) <==> Reports(errors, k) || (found != [] && k == line)
  {
    var all := errors + found;
    if Reports(errors, k) {
      var i :| 0 <= i < |errors| && errors[i].line == k;
      assert all[i].line == k;
    }
    if found != [] && k == line {
      assert all[|errors|].line == k;
    }
  }

  /** Whether a line is wrong does not depend on its number. */
  lemma WrongUnderAnyNumber(toks: seq<string>, ordinal: nat, env: Env)
    ensures RuleOf(toks, ordinal, env).None? <==> RuleOf(toks, 0, env).None?
  {
    hide Conditions, RuleTail;
  }

  /** Every line is compiled and every problem collected; with any problem there are no rules at all. The problems
      are reported under the numbers of exactly the lines that are wrong. */
  method CompileRules(text: string, env: Env) returns (ok: bool, rules: seq<Rule>, errors: seq<RuleError>)
    ensures ok <==> Compile(text, env).Some?
    ensures ok <==> errors == []
    ensures rules == if ok then Compile(text, env).value else []
    ensures ReportsWrongLines(errors, Lines(text), env)
  {
    hide RuleOf, Tokens, IndexOf, ReportsWrongLines, HoldsRule;
    rules, errors := [], [];
    var pos, lineNo, ordinal := 0, 0, 0;
    ghost var done: seq<string>, seen: seq<seq<string>> := [], [];
    assert text[0..] == text;
    NothingReported(env);
    while pos <= |text|
      invariant pos <= |text| + 1
      invariant Lines(text) == done + (if pos <= |text| then Lines(text[pos..]) else [])
      invariant seen == RuleLines(done) && ordinal == |seen| && lineNo == |done|
      invariant ReportsWrongLines(errors, done, env)
      invariant errors == [] <==> RulesOf(seen, env).Some?
      invariant errors == [] ==> rules == RulesOf(seen, env).value
      decreases |text| + 1 - pos
    {
      var rest := text[pos..];
      var nl := IndexOf(rest, '\n');
      var line := rest[..nl];
      LinesStep(done, rest, nl);
      pos := if nl == |rest| then |text| + 1 else pos + nl + 1;
      assert pos <= |text| ==> text[pos..] == rest[nl + 1..];
      lineNo := lineNo + 1;
      RuleLinesStep(done, line);
      var tok := Tokenize(line);
      TokensAreWords(line);
      HoldsRuleIs(tok);
      if tok == [] || tok[0][0] == '#' {
        ReportsStep(errors, [], done, line, env);
        assert errors + [] == errors;
        done := done + [line];
        continue;
      }
      var rule, found := ParseRule(tok, ordinal, env, lineNo);
      WrongUnderAnyNumber(tok, ordinal, env);
      ReportsStep(errors, found, done, line, env);
      done := done + [line];
      RulesOfStep(seen, tok, env);
      seen := seen + [tok];
      errors := errors + found;
      ordinal := ordinal + 1;
      if rule.Some? {
        rules := rules + [rule.value];
      }
    }
    ok := errors == [];
    assert Lines(text) == done;
    if !ok {
      rules := [];
    }
  }

  lemma NothingReported(env: Env)
    ensures ReportsWrongLines([], [], env)
  {
  }

  lemma HoldsRuleIs(toks: seq<string>)
    requires toks != [] ==> toks[0] != ""
    ensures HoldsRule(toks) <==> !(toks == [] || toks[0][0] == '#')
  {
  }

  lemma LinesUnfold(rest: string)
    ensures var nl := IndexOf(rest, '\n');
      Lines(rest) == if nl == |rest| then [rest] else [rest[..nl]] + Lines(rest[nl + 1..])
  {
    hide IndexOf;
  }

  lemma LinesStep(done: seq<string>, rest: string, nl: nat)
    requires nl == IndexOf(rest, '\n')
    ensures done + Lines(rest) == done + [rest[..nl]] + (if nl == |rest| then [] else Lines(rest[nl + 1..]))
  {
    hide IndexOf, Lines;
    LinesUnfold(rest);
    if nl == |rest| {
      assert rest[..nl] == rest;
      assert done + [rest] == done + [rest] + [];
    } else {
      assert done + ([rest[..nl]] + Lines(rest[nl + 1..])) == done + [rest[..nl]] + Lines(rest[nl + 1..]);
    }
  }

  lemma RuleLinesStep(done: seq<string>, line: string)
    ensures RuleLines(done + [line]) == RuleLines(done) + if HoldsRule(Tokens(line)) then [Tokens(line)] else []
  {
    hide Tokens;
    assert (done + [line])[..|done|] == done;
  }

  lemma RulesOfStep(seen: seq<seq<string>>, toks: seq<string>, env: Env)
    ensures var next, r := RulesOf(seen + [toks], env), RuleOf(toks, |seen|, env);
      next == if RulesOf(seen, env).Some? && r.Some? then Some(RulesOf(seen, env).value + [r.value]) else None
  {
    hide RuleOf;
    assert (seen + [toks])[..|seen|] == seen;
  }
}
