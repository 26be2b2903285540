/** What compiled rules guarantee, and that compiling undoes writing rules down. */
module DparSound {
  import opened Wire
  import opened Dag
  import opened DparFields
  import opened DparRules

  // ---- soundness --------------------------------------------------------------------------------------

  ghost predicate ConditionOk(c: Condition) {
    && (exists e :: EntryOk(e) && e.ref == c.field)
    && OperandFits(c.operand, c.field.WidthInBits())
  }

  ghost predicate RuleOk(r: Rule, i: nat, env: Env) {
    && r.ruleId == i % TWO_TO_THE_32
    && 1 <= |r.conditions| <= MAX_CONDITIONS
    && (forall k :: 0 <= k < |r.conditions| ==> ConditionOk(r.conditions[k]))
    && r.parserKind < |env.parsers|
    && r.region.anchor < GRAPH_SIZE && NODE_NAMES[r.region.anchor] == AnchorName(r.region.kind)
    && |r.name| < NAME_LEN
  }

  lemma ConditionIsOk(toks: seq<string>, i: nat, env: Env)
    requires i + 2 < |toks| && env.catalog == L2L3Catalog() && ConditionAt(toks, i, env).Some?
    ensures ConditionOk(ConditionAt(toks, i, env).value)
  {
    hide CString, IndexOf, CatalogUpTo, EntryOk;
    CatalogOk(GRAPH_SIZE);
    var lhs := toks[i];
    var dot := IndexOf(lhs, '.');
    var e := FindField(env.catalog, CString(lhs[..dot]), CString(lhs[dot + 1..])).value;
    var k :| 0 <= k < |env.catalog| && env.catalog[k] == e;
    assert EntryOk(env.catalog[k]);
  }

  lemma {:induction false} ConditionsAreOk(toks: seq<string>, i: nat, n: nat, env: Env)
    requires env.catalog == L2L3Catalog() && n <= MAX_CONDITIONS
    ensures match Conditions(toks, i, n, env)
            case None => true
            case Some((cs, _)) =>
              1 <= |cs| <= MAX_CONDITIONS - n && forall k :: 0 <= k < |cs| ==> ConditionOk(cs[k])
    decreases |toks| - i
  {
    hide ConditionAt, ConditionOk, L2L3Catalog;
    if i + 2 < |toks| && n < MAX_CONDITIONS && ConditionAt(toks, i, env).Some? {
      ConditionIsOk(toks, i, env);
      if i + 3 < |toks| && toks[i + 3] == "&&" {
        ConditionsAreOk(toks, i + 4, n + 1, env);
      }
    }
  }

  lemma TailIsOk(toks: seq<string>, i: nat, env: Env)
    requires env.catalog == L2L3Catalog()
    ensures match RuleTail(toks, i, env)
            case None => true
            case Some((kind, region, name)) =>
              && kind < |env.parsers| && region.anchor < GRAPH_SIZE
              && NODE_NAMES[region.anchor] == AnchorName(region.kind) && |name| < NAME_LEN
  {
    hide CString, CatalogUpTo, ParseRegion, NODE_NAMES, AnchorName, AnchorNodeId;
    if RuleTail(toks, i, env).Some? {
      AnchorsResolve(AnchorName(ParseRegion(toks[i + 2]).value));
    }
  }

  /** A rule stores its parser's index in 16 bits: it is the parser the line names exactly when that parser is
      among the first 65536. */
  lemma ParserIsTheNamedOneExactly(toks: seq<string>, i: nat, env: Env)
    requires RuleTail(toks, i, env).Some?
    ensures i + 2 < |toks| && PositionOf(env.parsers, toks[i + 1]).Some?
    ensures var kind := RuleTail(toks, i, env).value.0;
      && kind < |env.parsers|
      && (env.parsers[kind] == toks[i + 1] <==> PositionOf(env.parsers, toks[i + 1]).value < 0x1_0000)
  {
    hide PositionOf, AnchorNodeId, Label, ParseRegion, AnchorName;
    var pos := PositionOf(env.parsers, toks[i + 1]).value;
    if pos >= 0x1_0000 {
      assert env.parsers[pos % 0x1_0000] == env.parsers[..pos][pos % 0x1_0000];
    }
  }

  /** When compilation succeeds on any text, rule i carries id i, has one to six conditions on fields of the
      catalog with operands that fit them, an existing parser, and the region's own anchor node. */
  lemma CompiledRulesAreOk(text: string, env: Env)
    requires env.catalog == L2L3Catalog()
    ensures match Compile(text, env)
            case None => true
            case Some(rules) => forall i :: 0 <= i < |rules| ==> RuleOk(rules[i], i, env)
  {
    hide Conditions, RuleTail, L2L3Catalog, RuleLines, Lines, ConditionOk, NODE_NAMES;
    var lines := RuleLines(Lines(text));
    RulesAreByLine(lines, env);
    match Compile(text, env)
    case None =>
    case Some(rules) =>
      forall i | 0 <= i < |rules| ensures RuleOk(rules[i], i, env) {
        assert RuleOf(lines[i], i, env) == Some(rules[i]);
        ConditionsAreOk(lines[i], 0, 0, env);
        TailIsOk(lines[i], Conditions(lines[i], 0, 0, env).value.1, env);
      }
  }

  // ---- writing rules down -----------------------------------------------------------------------------

  datatype ConditionText = ConditionText(node: string, field: string, op: CmpOp, value: string)

  datatype RuleText = RuleText(conditions: seq<ConditionText>, parser: string, region: RegionKind, title: string)

  function OpText(op: CmpOp): string {
    match op
    case Eq => "=="
    case Lt => "<"
    case Gt => ">"
    case Le => "<="
    case Ge => ">="
  }

  function RegionText(k: RegionKind): string {
    match k
    case EthPayload => "eth_payload"
    case VlanPayload => "vlan_payload"
    case UdpPayload => "udp_payload"
    case TcpPayload => "tcp_payload"
    case SomeipPayload => "someip_payload"
  }

  lemma OpRoundTrip(op: CmpOp)
    ensures ParseOp(OpText(op)) == Some(op)
  {
  }

  lemma RegionRoundTrip(k: RegionKind)
    ensures ParseRegion(RegionText(k)) == Some(k)
  {
    assert |"eth_payload"| == 11 && |"vlan_payload"| == 12 && |"someip_payload"| == 14;
    assert "eth_payload"[0] == 'e' && "udp_payload"[0] == 'u' && "tcp_payload"[0] == 't';
  }

  function ConditionTokens(c: ConditionText): seq<string> { [c.node + "." + c.field, OpText(c.op), c.value] }

  function ConditionsTokens(cs: seq<ConditionText>): seq<string> {
    if cs == [] then []
    else if |cs| == 1 then ConditionTokens(cs[0])
    else ConditionTokens(cs[0]) + ["&&"] + ConditionsTokens(cs[1..])
  }

  function TailTokens(r: RuleText): seq<string> {
    ["=>", r.parser, RegionText(r.region), "\"" + r.title + "\""]
  }

  function RuleTokens(r: RuleText): seq<string> { ConditionsTokens(r.conditions) + TailTokens(r) }

  /** A condition that means something: its field is in the catalog, its value a number that fits it. */
  predicate GoodCondition(c: ConditionText, env: Env) {
    && '.' !in c.node
    && FindField(env.catalog, CString(c.node), CString(c.field)).Some?
    && env.num(c.value).Some?
    && OperandFits(env.num(c.value).value,
                   FindField(env.catalog, CString(c.node), CString(c.field)).value.ref.WidthInBits())
  }

  function ConditionMeaning(c: ConditionText, env: Env): Condition
    requires GoodCondition(c, env)
  {
    Condition(FindField(env.catalog, CString(c.node), CString(c.field)).value.ref, c.op, env.num(c.value).value)
  }

  predicate GoodConditions(cs: seq<ConditionText>, env: Env) {
    cs != [] ==> GoodCondition(cs[0], env) && GoodConditions(cs[1..], env)
  }

  function ConditionMeanings(cs: seq<ConditionText>, env: Env): (ms: seq<Condition>)
    requires GoodConditions(cs, env)
    ensures |ms| == |cs|
  {
    if cs == [] then [] else [ConditionMeaning(cs[0], env)] + ConditionMeanings(cs[1..], env)
  }

  predicate GoodRule(r: RuleText, env: Env) {
    && 1 <= |r.conditions| <= MAX_CONDITIONS
    && GoodConditions(r.conditions, env)
    && r.parser in env.parsers
    && AnchorNodeId(env.catalog, AnchorName(r.region)).Some?
  }

  function RuleMeaning(r: RuleText, ordinal: nat, env: Env): Rule
    requires GoodRule(r, env)
  {
    var name := CString(r.title);
    Rule(ConditionMeanings(r.conditions, env),
         PositionOf(env.parsers, r.parser).value % 0x1_0000,
         RegionSel(r.region, AnchorNodeId(env.catalog, AnchorName(r.region)).value % 0x1_0000),
         ordinal % TWO_TO_THE_32, ordinal % 0x1_0000, name[..Min(|name|, NAME_LEN - 1)])
  }

  lemma {:induction false} DotIsFirst(node: string, rest: string)
    requires '.' !in node
    ensures IndexOf(node + "." + rest, '.') == |node|
  {
    var s := node + "." + rest;
    if node != "" {
      assert s[0] == node[0] && node[0] in node;
      assert s[1..] == node[1..] + "." + rest;
      DotIsFirst(node[1..], rest);
    }
  }

  lemma ConditionParses(c: ConditionText, toks: seq<string>, i: nat, env: Env)
    requires GoodCondition(c, env) && i + 3 <= |toks| && toks[i..i + 3] == ConditionTokens(c)
    ensures ConditionAt(toks, i, env) == Some(ConditionMeaning(c, env))
  {
    hide FindField, CString, IndexOf, OpText, ParseOp;
    var t := toks[i..i + 3];
    assert toks[i] == t[0] && toks[i + 1] == t[1] && toks[i + 2] == t[2];
    DotIsFirst(c.node, c.field);
    OpRoundTrip(c.op);
    assert toks[i][..|c.node|] == c.node && toks[i][|c.node| + 1..] == c.field;
  }

  lemma {:induction false} ConditionsParse(cs: seq<ConditionText>, toks: seq<string>, i: nat, n: nat, env: Env)
    requires cs != [] && n + |cs| <= MAX_CONDITIONS
    requires GoodConditions(cs, env)
    requires i + |ConditionsTokens(cs)| <= |toks| && ConditionsTokens(cs) <= toks[i..]
    requires var e := i + |ConditionsTokens(cs)|; e < |toks| && toks[e] == "=>"
    ensures Conditions(toks, i, n, env) ==
      Some((ConditionMeanings(cs, env), i + |ConditionsTokens(cs)|))
    decreases |cs|
  {
    hide ConditionAt, GoodCondition, ConditionMeaning, ConditionTokens;
    var ct, rest := ConditionTokens(cs[0]), toks[i..];
    ConditionTokensShape(cs[0]);
    assert toks[i..i + 3] == rest[..3] == ct;
    ConditionParses(cs[0], toks, i, env);
    if |cs| > 1 {
      var tail := ConditionsTokens(cs[1..]);
      assert toks[i + 3] == rest[3] == "&&";
      assert toks[i + 4..] == rest[4..] && tail <= rest[4..];
      ConditionsParse(cs[1..], toks, i + 4, n + 1, env);
    } else {
      assert "=>"[0] == '=' && "&&"[0] == '&';
      assert ConditionMeanings(cs, env) == [ConditionMeaning(cs[0], env)];
      assert |ConditionsTokens(cs)| == 3;
      assert toks[i + 3] == "=>";
    }
  }

  lemma ConditionTokensShape(c: ConditionText)
    ensures |ConditionTokens(c)| == 3
  {
  }

  /** The tokens of a good rule denote the rule. */
  lemma RuleParses(r: RuleText, ordinal: nat, env: Env)
    requires GoodRule(r, env)
    ensures RuleOf(RuleTokens(r), ordinal, env) == Some(RuleMeaning(r, ordinal, env))
  {
    hide ConditionsTokens, Conditions, ConditionMeaning, GoodCondition, AnchorNodeId, PositionOf, CString, RegionText,
         ParseRegion;
    var toks, head := RuleTokens(r), ConditionsTokens(r.conditions);
    var e := |head|;
    assert toks[0..] == toks && toks[e] == "=>" && toks[e + 1] == r.parser;
    assert toks[e + 2] == RegionText(r.region) && toks[e + 3] == "\"" + r.title + "\"";
    ConditionsParse(r.conditions, toks, 0, 0, env);
    RegionRoundTrip(r.region);
    assert ("\"" + r.title + "\"")[1..|r.title| + 1] == r.title;
  }

  // ---- text -------------------------------------------------------------------------------------------

  predicate IsWord(s: string) { s != "" && forall k :: 0 <= k < |s| ==> !IsBlank(s[k]) && s[k] != '\n' }

  function JoinTokens(toks: seq<string>): string {
    if toks == [] then "" else if |toks| == 1 then toks[0] else toks[0] + " " + JoinTokens(toks[1..])
  }

  function JoinLines(lines: seq<string>): string
    requires lines != []
  {
    if |lines| == 1 then lines[0] else lines[0] + "\n" + JoinLines(lines[1..])
  }

  lemma FirstWord(w: string, rest: string)
    requires IsWord(w) && (rest == "" || IsBlank(rest[0]))
    ensures Tokens(w + rest) == [w] + Tokens(rest)
  {
    var s := w + rest;
    WordLengthIs(s, |w|);
    assert s[..|w|] == w && s[|w|..] == rest;
    assert s[0] == w[0];
  }

  /** Joining words with spaces and tokenizing gives the words back. */
  lemma {:induction false} TokensUndoJoin(toks: seq<string>)
    requires forall i :: 0 <= i < |toks| ==> IsWord(toks[i])
    ensures Tokens(JoinTokens(toks)) == toks
  {
    hide IsWord, WordLength;
    if |toks| == 1 {
      FirstWord(toks[0], "");
      assert toks[0] + "" == toks[0];
    } else if |toks| > 1 {
      TokensUndoJoin(toks[1..]);
      var rest := " " + JoinTokens(toks[1..]);
      FirstWord(toks[0], rest);
      assert toks[0] + rest == JoinTokens(toks);
      assert rest[1..] == JoinTokens(toks[1..]);
    }
  }

  lemma {:induction false} NewlineIsFirst(line: string, rest: string)
    requires '\n' !in line
    ensures IndexOf(line + rest, '\n') == |line| + IndexOf(rest, '\n')
  {
    var s := line + rest;
    if line == "" {
      assert s == rest;
    } else {
      assert s[0] == line[0] && line[0] in line;
      assert s[1..] == line[1..] + rest;
      NewlineIsFirst(line[1..], rest);
    }
  }

  lemma {:induction false} LinesUndoJoin(lines: seq<string>)
    requires lines != [] && forall i :: 0 <= i < |lines| ==> '\n' !in lines[i]
    ensures Lines(JoinLines(lines)) == lines
  {
    var text := JoinLines(lines);
    if |lines| == 1 {
      NewlineIsFirst(text, "");
      assert text + "" == text;
      assert lines == [text];
    } else {
      var rest := "\n" + JoinLines(lines[1..]);
      NewlineIsFirst(lines[0], rest);
      assert lines[0] + rest == text;
      assert text[..|lines[0]|] == lines[0] && text[|lines[0]| + 1..] == JoinLines(lines[1..]);
      LinesUndoJoin(lines[1..]);
    }
  }

  lemma {:induction false} JoinHasNoNewline(toks: seq<string>)
    requires forall i :: 0 <= i < |toks| ==> IsWord(toks[i])
    ensures '\n' !in JoinTokens(toks)
  {
    if |toks| > 1 {
      JoinHasNoNewline(toks[1..]);
    }
  }

  /** A rule that can be written on a line: good, its tokens free of blanks, and not starting with the comment
      mark. */
  predicate Writable(r: RuleText, env: Env) {
    && GoodRule(r, env)
    && (forall i :: 0 <= i < |RuleTokens(r)| ==> IsWord(RuleTokens(r)[i]))
    && HoldsRule(RuleTokens(r))
  }

  function RuleLine(r: RuleText): string { JoinTokens(RuleTokens(r)) }

  function RuleFile(rs: seq<RuleText>): string
    requires rs != []
  {
    JoinLines(seq(|rs|, i requires 0 <= i < |rs| => RuleLine(rs[i])))
  }

  lemma {:induction false} AllLinesHoldRules(lines: seq<string>, toks: seq<seq<string>>)
    requires |lines| == |toks| && forall i :: 0 <= i < |lines| ==> Tokens(lines[i]) == toks[i] && HoldsRule(toks[i])
    ensures RuleLines(lines) == toks
  {
    hide Tokens, HoldsRule;
    if lines != [] {
      var n := |lines| - 1;
      AllLinesHoldRules(lines[..n], toks[..n]);
      assert Tokens(lines[n]) == toks[n];
      assert toks == toks[..n] + [toks[n]];
    }
  }

  /** Compiling a file of written rules succeeds and gives exactly the rules that were written, numbered in file
      order. */
  lemma CompileUndoesWriting(rs: seq<RuleText>, env: Env)
    requires rs != [] && forall i :: 0 <= i < |rs| ==> Writable(rs[i], env)
    ensures match Compile(RuleFile(rs), env)
            case None => false
            case Some(rules) =>
              && |rules| == |rs|
              && forall i :: 0 <= i < |rs| ==> GoodRule(rs[i], env) && rules[i] == RuleMeaning(rs[i], i, env)
  {
    hide RuleTokens, GoodRule, JoinTokens, JoinLines, RuleOf, RuleMeaning, Lines, IsWord;
    var lines := seq(|rs|, i requires 0 <= i < |rs| => RuleLine(rs[i]));
    forall i | 0 <= i < |lines| ensures '\n' !in lines[i] {
      assert Writable(rs[i], env);
      JoinHasNoNewline(RuleTokens(rs[i]));
    }
    LinesUndoJoin(lines);
    var toks := seq(|rs|, i requires 0 <= i < |rs| => RuleTokens(rs[i]));
    forall i | 0 <= i < |lines| ensures Tokens(lines[i]) == toks[i] && HoldsRule(toks[i]) {
      assert Writable(rs[i], env);
      TokensUndoJoin(RuleTokens(rs[i]));
    }
    AllLinesHoldRules(lines, toks);
    RulesAreByLine(toks, env);
    forall i | 0 <= i < |rs|
      ensures GoodRule(rs[i], env) && RuleOf(toks[i], i, env) == Some(RuleMeaning(rs[i], i, env))
    {
      assert Writable(rs[i], env);
      RuleParses(rs[i], i, env);
    }
  }
}
