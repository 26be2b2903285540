/** What the rule compiler takes from its text, on literal characters and numbers. */
module DparText {
  import opened Wire
  import opened Arith
  import opened WireSpec
  import opened Dag
  import opened DparFields
  import opened DparRules
  import opened DparSound

  // ---- spacing ----------------------------------------------------------------------------------------

  const BLANKS := {' ', '\t', '\r'}

  predicate AllBlank(s: string) { forall i :: 0 <= i < |s| ==> s[i] in BLANKS }

  /** Not empty, and without a blank. */
  predicate IsToken(s: string) { s != "" && forall i :: 0 <= i < |s| ==> s[i] !in BLANKS }

  /** Tokens with a gap before each and one behind. */
  function Spaced(toks: seq<string>, gaps: seq<string>): string
    requires |gaps| == |toks| + 1
  {
    if toks == [] then gaps[0] else gaps[0] + toks[0] + Spaced(toks[1..], gaps[1..])
  }

  lemma {:induction false} BlanksVanish(gap: string, s: string)
    requires AllBlank(gap)
    ensures Tokens(gap + s) == Tokens(s)
  {
    if gap == "" {
      assert gap + s == s;
    } else {
      BlanksVanish(gap[1..], s);
      assert (gap + s)[1..] == gap[1..] + s;
    }
  }

  lemma TokenThenBlank(t: string, rest: string)
    requires IsToken(t) && (rest == "" || rest[0] in BLANKS)
    ensures Tokens(t + rest) == [t] + Tokens(rest)
  {
    var s := t + rest;
    WordLengthIs(s, |t|);
    assert s[..|t|] == t && s[|t|..] == rest;
    assert s[0] == t[0];
  }

  /** However words are spaced with blanks, tabs and carriage returns, they are the tokens. */
  lemma {:induction false} TokensUndoSpacing(toks: seq<string>, gaps: seq<string>)
    requires |gaps| == |toks| + 1 && (forall i :: 0 <= i < |toks| ==> IsToken(toks[i]))
    requires forall i :: 0 <= i < |gaps| ==> AllBlank(gaps[i]) && (0 < i < |toks| ==> gaps[i] != "")
    ensures Tokens(Spaced(toks, gaps)) == toks
  {
    hide IsToken, Tokens;
    if toks == [] {
      BlanksVanish(gaps[0], "");
      assert gaps[0] + "" == gaps[0];
      NoTokens("", 0);
    } else {
      var rest := Spaced(toks[1..], gaps[1..]);
      TokensUndoSpacing(toks[1..], gaps[1..]);
      assert rest == "" || rest[0] in BLANKS by {
        StartsBlank(toks[1..], gaps[1..]);
      }
      BlanksVanish(gaps[0], toks[0] + rest);
      TokenThenBlank(toks[0], rest);
      assert gaps[0] + (toks[0] + rest) == Spaced(toks, gaps);
    }
  }

  lemma StartsBlank(toks: seq<string>, gaps: seq<string>)
    requires |gaps| == |toks| + 1 && AllBlank(gaps[0]) && (toks != [] ==> gaps[0] != "")
    ensures Spaced(toks, gaps) == "" || Spaced(toks, gaps)[0] in BLANKS
  {
  }

  // ---- comments ---------------------------------------------------------------------------------------

  /** Blank, or with a # first. */
  predicate IsComment(line: string) {
    AllBlank(line) || exists i :: 0 <= i < |line| && AllBlank(line[..i]) && line[i] == '#'
  }

  lemma CommentHoldsNoRule(line: string)
    requires IsComment(line)
    ensures !HoldsRule(Tokens(line))
  {
    if AllBlank(line) {
      BlanksVanish(line, "");
      assert line + "" == line;
    } else {
      var i :| 0 <= i < |line| && AllBlank(line[..i]) && line[i] == '#';
      assert line[..i] + line[i..] == line;
      BlanksVanish(line[..i], line[i..]);
    }
  }

  lemma {:induction false} LinesConcat(a: seq<string>, b: seq<string>)
    ensures RuleLines(a + b) == RuleLines(a) + RuleLines(b)
    decreases |b|
  {
    hide Tokens, HoldsRule;
    if b == [] {
      assert a + b == a;
    } else {
      var n := |b| - 1;
      LinesConcat(a, b[..n]);
      assert (a + b)[..|a + b| - 1] == a + b[..n];
    }
  }

  /** A blank line or a comment between the lines of a rule file changes nothing, not even the numbering. */
  lemma CommentsChangeNothing(a: seq<string>, line: string, b: seq<string>, env: Env)
    requires a + b != [] && IsComment(line) && '\n' !in line
    requires forall i :: 0 <= i < |a + b| ==> '\n' !in (a + b)[i]
    ensures Compile(JoinLines(a + [line] + b), env) == Compile(JoinLines(a + b), env)
  {
    hide Tokens, HoldsRule, RuleLines, RulesOf, IsComment, JoinLines, Lines;
    var lines := a + [line] + b;
    forall i | 0 <= i < |lines| ensures '\n' !in lines[i] {
      assert i < |a| ==> lines[i] == (a + b)[i];
      assert i > |a| ==> lines[i] == (a + b)[i - 1];
    }
    LinesUndoJoin(lines);
    LinesUndoJoin(a + b);
    CommentHoldsNoRule(line);
    LinesConcat(a + [line], b);
    LinesConcat(a, [line]);
    LinesConcat(a, b);
    OneLine(line);
    assert RuleLines(a) + [] == RuleLines(a);
  }

  lemma OneLine(line: string)
    requires !HoldsRule(Tokens(line))
    ensures RuleLines([line]) == []
  {
    hide Tokens, HoldsRule;
    assert [line][..0] == [];
  }

  // ---- limits -----------------------------------------------------------------------------------------

  lemma {:induction false} TooManyFail(cs: seq<ConditionText>, toks: seq<string>, i: nat, n: nat, env: Env)
    requires n <= 6 < n + |cs| && GoodConditions(cs, env)
    requires i + |ConditionsTokens(cs)| <= |toks| && ConditionsTokens(cs) <= toks[i..]
    ensures Conditions(toks, i, n, env) == None
    decreases |cs|
  {
    hide ConditionAt, GoodCondition, ConditionTokens;
    if n < 6 {
      var ct, rest := ConditionTokens(cs[0]), toks[i..];
      ConditionTokensShape(cs[0]);
      assert toks[i..i + 3] == rest[..3] == ct;
      ConditionParses(cs[0], toks, i, env);
      assert toks[i + 3] == rest[3] == "&&";
      assert toks[i + 4..] == rest[4..] && ConditionsTokens(cs[1..]) <= rest[4..];
      TooManyFail(cs[1..], toks, i + 4, n + 1, env);
    }
  }

  /** A rule whose parts are right compiles exactly when it has no more than six conditions. */
  lemma SixConditionsAtMost(r: RuleText, ordinal: nat, env: Env)
    requires r.conditions != [] && GoodConditions(r.conditions, env) && r.parser in env.parsers
    requires AnchorNodeId(env.catalog, AnchorName(r.region)).Some?
    ensures RuleOf(RuleTokens(r), ordinal, env).Some? <==> |r.conditions| <= 6
  {
    hide GoodConditions, AnchorNodeId, Conditions, RuleMeaning, RuleTail;
    if |r.conditions| <= 6 {
      RuleParses(r, ordinal, env);
    } else {
      assert RuleTokens(r)[0..] == RuleTokens(r);
      TooManyFail(r.conditions, RuleTokens(r), 0, 0, env);
    }
  }

  /** A rule keeps the first 31 characters of its label, and its place in the file as its id. */
  lemma LabelAndNumber(r: RuleText, ordinal: nat, env: Env)
    requires GoodRule(r, env) && '\0' !in r.title && ordinal < 0x1_0000_0000
    ensures var m := RuleMeaning(r, ordinal, env);
      m.ruleId == ordinal && m.priority == ordinal % 0x1_0000 &&
      m.name == if |r.title| <= 31 then r.title else r.title[..31]
  {
    hide GoodRule, ConditionMeanings, PositionOf, AnchorNodeId, CString;
    WithoutNul(r.title);
    assert r.title[..|r.title|] == r.title;
  }

  // ---- names ------------------------------------------------------------------------------------------

  function NameOf(n: Node): string {
    match n
    case Eth => "eth"
    case Vlan => "vlan"
    case Ipv4 => "ipv4"
    case Ipv6 => "ipv6"
    case Tcp => "tcp"
    case Udp => "udp"
    case Gptp => "gptp"
    case PtpTimestampBody => "ptp_timestamp"
    case PtpTsPortBody => "ptp_ts_port"
    case PtpAnnounceBody => "ptp_announce"
    case PtpSignalingBody => "ptp_signaling"
    case HopByHop => "ipv6_hbh"
    case Routing => "ipv6_routing"
    case Fragment => "ipv6_fragment"
    case DestOpt => "ipv6_destopt"
    case Ah => "ipv6_ah"
    case Someip => "someip"
  }

  /** A name resolves to the node it names, and only a node's own name does. */
  lemma NamesResolve(n: Node, name: string)
    ensures AnchorNodeId(L2L3Catalog(), name) == Some(NodeId(n)) <==> name == NameOf(n)
  {
    hide L2L3Catalog, AnchorNodeId;
    assert |NODE_NAMES| == GRAPH_SIZE && NODE_NAMES[NodeId(n)] == NameOf(n) by {
      NamesCount();
    }
    AnchorsResolve(name);
    NamesAreDistinct();
    AnchorsResolve(NameOf(n));
  }

  lemma RegionsByName(k: RegionKind, s: string)
    ensures ParseRegion(s) == Some(k) <==> s == RegionText(k)
  {
    RegionRoundTrip(k);
  }

  // ---- operands ---------------------------------------------------------------------------------------

  /** A header in which the field has this value. */
  ghost predicate Reads(p: seq<byte>, f: FieldRef, v: nat)
    requires f.Valid()
  {
    |p| == f.offset + f.byteWidth && ReadRuntime(p, 0, f) == v
  }

  /** An operand of 64 bits is accepted for a field exactly when some header gives the field that value. */
  lemma OperandFitsExactly(f: FieldRef, v: nat)
    requires f.Valid() && v < TWO_TO_THE_64
    ensures OperandFits(v, f.WidthInBits()) <==> exists p :: Reads(p, f, v)
  {
    hide ReadRuntime, Pow2;
    Pow2Values();
    if OperandFits(v, f.WidthInBits()) {
      Written(f, v);
    }
    if p :| Reads(p, f, v) {
      ValueFits(f, p);
    }
  }

  lemma ValueFits(f: FieldRef, p: seq<byte>)
    requires f.Valid() && f.offset + f.byteWidth <= |p|
    ensures ReadRuntime(p, 0, f) < Pow2(f.WidthInBits())
  {
    hide Pow2;
    Pow2Values();
    WordBound(p[f.offset..f.offset + f.byteWidth], f.bigEndian);
  }

  lemma Written(f: FieldRef, v: nat)
    requires f.Valid() && v < Pow2(f.WidthInBits())
    ensures exists p :: Reads(p, f, v)
  {
    hide Pow2, Encode, WordAt, BitShift, ReadRuntime;
    var shift := if f.isBitfield then BitShift(f.byteWidth, f.bitOffset, f.bitWidth, f.bigEndian) else 0;
    ShiftWithin(f);
    ShiftedFits(v, f.WidthInBits(), shift, 8 * f.byteWidth);
    var w := v * Pow2(shift);
    var p := seq(f.offset, _ => 0 as byte) + Encode(w, f.byteWidth, f.bigEndian);
    assert p[f.offset..f.offset + f.byteWidth] == Encode(w, f.byteWidth, f.bigEndian);
    DecodeEncode(w, f.byteWidth, f.bigEndian);
    assert WordAt(p, f.offset, f.byteWidth, f.bigEndian) == w by {
      WordThere(p, f, w);
    }
    ReadsBack(p, f, v);
    assert Reads(p, f, v);
  }

  lemma ShiftWithin(f: FieldRef)
    requires f.Valid()
    ensures var shift := if f.isBitfield then BitShift(f.byteWidth, f.bitOffset, f.bitWidth, f.bigEndian) else 0;
      shift + f.WidthInBits() <= 8 * f.byteWidth
  {
  }

  lemma WordThere(p: seq<byte>, f: FieldRef, w: nat)
    requires |p| == f.offset + f.byteWidth && Word(p[f.offset..f.offset + f.byteWidth], f.bigEndian) == w
    ensures WordAt(p, f.offset, f.byteWidth, f.bigEndian) == w
  {
  }

  lemma ReadsBack(p: seq<byte>, f: FieldRef, v: nat)
    requires f.Valid() && |p| == f.offset + f.byteWidth && v < Pow2(f.WidthInBits())
    requires var shift := if f.isBitfield then BitShift(f.byteWidth, f.bitOffset, f.bitWidth, f.bigEndian) else 0;
      WordAt(p, f.offset, f.byteWidth, f.bigEndian) == v * Pow2(shift) && v * Pow2(shift) / Pow2(shift) == v
    ensures ReadRuntime(p, 0, f) == v
  {
    hide WordAt, BitShift, Pow2;
    Pow2Values();
  }

  lemma ShiftedFits(v: nat, bits: nat, shift: nat, width: nat)
    requires v < Pow2(bits) && shift + bits <= width
    ensures v * Pow2(shift) < Pow2(width) && v * Pow2(shift) / Pow2(shift) == v
  {
    hide Pow2;
    Pow2Adds(bits, shift);
    Pow2Adds(bits + shift, width - bits - shift);
    ProductsFit(v, Pow2(bits), Pow2(shift), Pow2(bits + shift), Pow2(width - bits - shift), Pow2(width));
  }

  lemma ProductsFit(v: nat, a: nat, b: nat, ab: nat, c: nat, abc: nat)
    requires v < a && b > 0 && c > 0 && ab == a * b && abc == ab * c
    ensures v * b < abc && v * b / b == v
  {
    FitsStep(v, a, b, 0);
    Monotone(1, c, ab);
    QuotientIs(v * b, b, v, 0);
  }
}
