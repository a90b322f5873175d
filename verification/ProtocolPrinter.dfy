/** The token lists that stand for parsed objects, and the proof that the parser reads them back. */
module ProtocolPrinter {
  import opened Options
  import opened ProtocolTokens
  import opened ProtocolParser

  // ---------------------------------------------------------------- rules and tokens

  /** A place that does not fit refutes the rule, however few tokens follow. */
  lemma {:induction false} Mismatch(tokens: seq<Token>, syntax: seq<Pattern>, j: nat)
    requires WellFormed(syntax) && j < |tokens| && j < |syntax|
    requires forall i | 0 <= i <= j :: !syntax[i].Run?
    requires !Accepts(syntax[j], tokens[j].kind)
    ensures !Matches(tokens, syntax)
    decreases j
  {
    if j > 0 {
      assert forall i | 0 <= i <= j - 1 :: syntax[1..][i] == syntax[i + 1];
      Mismatch(tokens[1..], syntax[1..], j - 1);
    }
  }

  /** Places that fit can be dropped on both sides. */
  lemma {:induction false} MatchesAfter(tokens: seq<Token>, syntax: seq<Pattern>, n: nat)
    requires WellFormed(syntax) && n <= |tokens| && n <= |syntax|
    requires forall i | 0 <= i < n :: Accepts(syntax[i], tokens[i].kind)
    ensures WellFormed(syntax[n..])
    ensures Matches(tokens, syntax) <==> Matches(tokens[n..], syntax[n..])
    decreases n
  {
    if n == 0 {
      assert tokens[0..] == tokens && syntax[0..] == syntax;
    } else {
      assert forall i | 0 <= i < n - 1 :: syntax[1..][i] == syntax[i + 1] && tokens[1..][i] == tokens[i + 1];
      MatchesAfter(tokens[1..], syntax[1..], n - 1);
      assert tokens[1..][n - 1..] == tokens[n..] && syntax[1..][n - 1..] == syntax[n..];
    }
  }

  lemma {:induction false} FirstIs(rules: seq<Rule>, n: nat, tokens: seq<Token>)
    requires n < |rules|
    requires forall m | 0 <= m < n :: !MatchesRule(tokens, rules[m])
    requires MatchesRule(tokens, rules[n])
    ensures FirstMatch(rules, tokens) == Some(rules[n])
  {
    FirstMatchFrom(rules, tokens, n);
  }

  /** The rule is refuted at place `j`. */
  lemma {:induction false} NotRule(tokens: seq<Token>, rule: Rule, j: nat)
    requires j < |tokens| && j < |Syntax(rule)|
    requires forall i | 0 <= i <= j :: !Syntax(rule)[i].Run?
    requires !Accepts(Syntax(rule)[j], tokens[j].kind)
    ensures !MatchesRule(tokens, rule)
  {
    SyntaxWellFormed(rule);
    Mismatch(tokens, Syntax(rule), j);
  }

  /** The rule fits place by place. */
  lemma {:induction false} IsRule(tokens: seq<Token>, rule: Rule)
    requires |Syntax(rule)| <= |tokens|
    requires forall i | 0 <= i < |Syntax(rule)| :: Accepts(Syntax(rule)[i], tokens[i].kind)
    ensures MatchesRule(tokens, rule)
  {
    SyntaxWellFormed(rule);
    MatchesAfter(tokens, Syntax(rule), |Syntax(rule)|);
  }

  function Symbol(k: Kind): (t: Token)
  {
    Token(k, NoValue)
  }

  function Name(v: Value): (t: Token)
  {
    Token(Identifier, v)
  }

  // ---------------------------------------------------------------- structs

  function PrintEntries(es: seq<Entry>): (tokens: seq<Token>)
  {
    if es == [] then []
    else [Name(es[0].typename), Name(es[0].name), Symbol(Semicolon)] + PrintEntries(es[1..])
  }

  function PrintMember(m: Member): (tokens: seq<Token>)
  {
    match m
    case Variable(t, n, isVariable) =>
      if isVariable then [Name(t), Symbol(LIndex), Symbol(RIndex), Name(n), Symbol(Semicolon)]
      else if n == Str("") then [Name(t), Symbol(Semicolon)]
      else [Name(t), Name(n), Symbol(Semicolon)]
    case VariantMember(n, es) =>
      [Symbol(Variant), Name(n), Symbol(LBracket)] + PrintEntries(es) + [Symbol(RBracket)]
  }

  function PrintMembers(ms: seq<Member>): (tokens: seq<Token>)
  {
    if ms == [] then [] else PrintMember(ms[0]) + PrintMembers(ms[1..])
  }

  lemma {:induction false} EntriesRead(es: seq<Entry>, tail: seq<Token>)
    ensures VariantEntries(PrintEntries(es) + [Symbol(RBracket)] + tail) == ParsedEntries(es, tail)
    decreases |es|
  {
    var tokens := PrintEntries(es) + [Symbol(RBracket)] + tail;
    if es == [] {
      assert tokens == [Symbol(RBracket)] + tail;
    } else {
      assert tokens[3..] == PrintEntries(es[1..]) + [Symbol(RBracket)] + tail;
      EntriesRead(es[1..], tail);
      assert es == [es[0]] + es[1..];
    }
  }

  // Which rule of a scope is the first to match, by the kinds of the leading tokens.

  lemma {:induction false} FindsExtension(tokens: seq<Token>)
    requires |tokens| >= 2 && tokens[0].kind == Identifier && tokens[1].kind == Semicolon
    ensures FirstRule(StructScope, tokens) == Some(ExtensionRule)
  {
    IsRule(tokens, ExtensionRule);
    FirstIs(Rules(StructScope), 0, tokens);
  }

  lemma {:induction false} FindsVariant(tokens: seq<Token>)
    requires |tokens| >= 3
    requires tokens[0].kind == Variant && tokens[1].kind == Identifier && tokens[2].kind == LBracket
    ensures FirstRule(StructScope, tokens) == Some(VariantRule)
  {
    NotRule(tokens, ExtensionRule, 0);
    IsRule(tokens, VariantRule);
    FirstIs(Rules(StructScope), 1, tokens);
  }

  lemma {:induction false} FindsMember(tokens: seq<Token>)
    requires |tokens| >= 3
    requires tokens[0].kind == Identifier && tokens[1].kind == Identifier && tokens[2].kind == Semicolon
    ensures FirstRule(StructScope, tokens) == Some(MemberRule)
  {
    NotRule(tokens, ExtensionRule, 1);
    NotRule(tokens, VariantRule, 0);
    IsRule(tokens, MemberRule);
    FirstIs(Rules(StructScope), 2, tokens);
  }

  lemma {:induction false} FindsArrayMember(tokens: seq<Token>)
    requires |tokens| >= 5
    requires tokens[0].kind == Identifier && tokens[1].kind == LIndex && tokens[2].kind == RIndex
    requires tokens[3].kind == Identifier && tokens[4].kind == Semicolon
    ensures FirstRule(StructScope, tokens) == Some(ArrayMemberRule)
  {
    NotRule(tokens, ExtensionRule, 1);
    NotRule(tokens, VariantRule, 0);
    NotRule(tokens, MemberRule, 1);
    IsRule(tokens, ArrayMemberRule);
    FirstIs(Rules(StructScope), 3, tokens);
  }

  /** One round of a scope loop. */
  lemma {:induction false} LeafRound(scope: Scope, rule: Rule, c: Context, tokens: seq<Token>,
                                     c': Context, rest: seq<Token>)
    requires IsLeaf(scope) && tokens != [] && FirstRule(scope, tokens) == Some(rule)
    requires HandleLeaf(rule, c, tokens) == Parsed(c', rest)
    ensures ParseLeaf(scope, c, tokens) == ParseLeaf(scope, c', rest)
  {
  }

  lemma {:induction false} ExtensionParsed(c: Context, t: Value, tail: seq<Token>)
    ensures ParseLeaf(StructScope, c, [Name(t), Symbol(Semicolon)] + tail) ==
            ParseLeaf(StructScope, WithMember(c, Variable(t, Str(""), false)), tail)
  {
    var tokens := [Name(t), Symbol(Semicolon)] + tail;
    FindsExtension(tokens);
    assert tokens[2..] == tail;
    LeafRound(StructScope, ExtensionRule, c, tokens, WithMember(c, Variable(t, Str(""), false)), tail);
  }

  lemma {:induction false} FieldParsed(c: Context, t: Value, n: Value, tail: seq<Token>)
    ensures ParseLeaf(StructScope, c, [Name(t), Name(n), Symbol(Semicolon)] + tail) ==
            ParseLeaf(StructScope, WithMember(c, Variable(t, n, false)), tail)
  {
    var tokens := [Name(t), Name(n), Symbol(Semicolon)] + tail;
    FindsMember(tokens);
    assert tokens[3..] == tail;
    LeafRound(StructScope, MemberRule, c, tokens, WithMember(c, Variable(t, n, false)), tail);
  }

  lemma {:induction false} ArrayParsed(c: Context, t: Value, n: Value, tail: seq<Token>)
    ensures ParseLeaf(StructScope, c,
                      [Name(t), Symbol(LIndex), Symbol(RIndex), Name(n), Symbol(Semicolon)] + tail) ==
            ParseLeaf(StructScope, WithMember(c, Variable(t, n, true)), tail)
  {
    var tokens := [Name(t), Symbol(LIndex), Symbol(RIndex), Name(n), Symbol(Semicolon)] + tail;
    FindsArrayMember(tokens);
    assert tokens[5..] == tail;
    LeafRound(StructScope, ArrayMemberRule, c, tokens, WithMember(c, Variable(t, n, true)), tail);
  }

  lemma {:induction false} VariantTokens(n: Value, es: seq<Entry>, tail: seq<Token>)
    ensures var tokens := PrintMember(VariantMember(n, es)) + tail;
            && |tokens| >= 4 && tokens[0].kind == Variant && tokens[1] == Name(n) && tokens[2].kind == LBracket
            && tokens[3..] == PrintEntries(es) + [Symbol(RBracket)] + tail
  {
  }

  lemma {:induction false} VariantReads(c: Context, tokens: seq<Token>, es: seq<Entry>, tail: seq<Token>)
    requires |tokens| >= 4 && VariantEntries(tokens[3..]) == ParsedEntries(es, tail)
    ensures HandleLeaf(VariantRule, c, tokens) == Parsed(WithMember(c, VariantMember(tokens[1].value, es)), tail)
  {
  }

  lemma {:induction false} VariantParsed(c: Context, n: Value, es: seq<Entry>, tail: seq<Token>)
    ensures ParseLeaf(StructScope, c, PrintMember(VariantMember(n, es)) + tail) ==
            ParseLeaf(StructScope, WithMember(c, VariantMember(n, es)), tail)
  {
    var tokens := PrintMember(VariantMember(n, es)) + tail;
    VariantTokens(n, es, tail);
    FindsVariant(tokens);
    EntriesRead(es, tail);
    VariantReads(c, tokens, es, tail);
    LeafRound(StructScope, VariantRule, c, tokens, WithMember(c, VariantMember(n, es)), tail);
  }

  lemma {:induction false} MemberParsed(c: Context, m: Member, tail: seq<Token>)
    ensures ParseLeaf(StructScope, c, PrintMember(m) + tail) ==
            ParseLeaf(StructScope, WithMember(c, m), tail)
  {
    match m {
      case VariantMember(n, es) => VariantParsed(c, n, es, tail);
      case Variable(t, n, isVariable) =>
        if isVariable {
          ArrayParsed(c, t, n, tail);
        } else if n == Str("") {
          ExtensionParsed(c, t, tail);
        } else {
          FieldParsed(c, t, n, tail);
        }
    }
  }

  lemma {:induction false} MembersCollected(c: Context, ms: seq<Member>)
    requires ms != []
    ensures var c' := WithMember(c, ms[0]);
            c'.(members := c'.members + ms[1..]) == c.(members := c.members + ms)
  {
    assert c.members + [ms[0]] + ms[1..] == c.members + ms;
  }

  /** A printed struct body is read back member by member. */
  lemma {:induction false} MembersRoundTrip(c: Context, ms: seq<Member>)
    ensures ParseLeaf(StructScope, c, PrintMembers(ms)) == Parsed(c.(members := c.members + ms), [])
    decreases |ms|
  {
    if ms == [] {
      assert c.members + ms == c.members;
    } else {
      MemberParsed(c, ms[0], PrintMembers(ms[1..]));
      MembersRoundTrip(WithMember(c, ms[0]), ms[1..]);
      MembersCollected(c, ms);
    }
  }

  // ---------------------------------------------------------------- parameters

  predicate AreParams(ps: seq<Member>)
  {
    forall i | 0 <= i < |ps| :: ps[i].Variable?
  }

  function PrintParam(p: Member): (tokens: seq<Token>)
    requires p.Variable?
  {
    if p.isVariable then [Name(p.typename), Symbol(LIndex), Symbol(RIndex), Name(p.name)]
    else [Name(p.typename), Name(p.name)]
  }

  /** A parameter list up to its closing parenthesis. */
  function PrintParams(ps: seq<Member>): (tokens: seq<Token>)
    requires AreParams(ps)
  {
    if ps == [] then []
    else if |ps| == 1 then PrintParam(ps[0])
    else PrintParam(ps[0]) + [Symbol(Comma)] + PrintParams(ps[1..])
  }

  lemma {:induction false} FindsParam(tokens: seq<Token>)
    requires |tokens| >= 3 && tokens[0].kind == Identifier && tokens[1].kind == Identifier
    requires tokens[2].kind in [RParenthesis, Comma]
    ensures FirstRule(ParamScope, tokens) == Some(ParamRule)
  {
    IsRule(tokens, ParamRule);
    FirstIs(Rules(ParamScope), 0, tokens);
  }

  lemma {:induction false} FindsArrayParam(tokens: seq<Token>)
    requires |tokens| >= 5
    requires tokens[0].kind == Identifier && tokens[1].kind == LIndex && tokens[2].kind == RIndex
    requires tokens[3].kind == Identifier && tokens[4].kind in [RParenthesis, Comma]
    ensures FirstRule(ParamScope, tokens) == Some(ArrayParamRule)
  {
    NotRule(tokens, ParamRule, 1);
    IsRule(tokens, ArrayParamRule);
    FirstIs(Rules(ParamScope), 1, tokens);
  }

  lemma {:induction false} ParamParsed(c: Context, p: Member, end: Kind, tail: seq<Token>)
    requires p.Variable? && end in [RParenthesis, Comma]
    ensures ParseLeaf(ParamScope, c, PrintParam(p) + [Symbol(end)] + tail) ==
            ParseLeaf(ParamScope, WithMember(c, p), tail)
  {
    var tokens := PrintParam(p) + [Symbol(end)] + tail;
    if p.isVariable {
      FindsArrayParam(tokens);
      assert tokens[5..] == tail;
      LeafRound(ParamScope, ArrayParamRule, c, tokens, WithMember(c, p), tail);
    } else {
      FindsParam(tokens);
      assert tokens[3..] == tail;
      LeafRound(ParamScope, ParamRule, c, tokens, WithMember(c, p), tail);
    }
  }

  /** A printed parameter list is read back. */
  lemma {:induction false} ParamsRoundTrip(c: Context, ps: seq<Member>)
    requires AreParams(ps) && ps != []
    ensures ParseLeaf(ParamScope, c, PrintParams(ps) + [Symbol(RParenthesis)]) ==
            Parsed(c.(members := c.members + ps), [])
    decreases |ps|
  {
    if |ps| == 1 {
      ParamParsed(c, ps[0], RParenthesis, []);
      assert PrintParams(ps) + [Symbol(RParenthesis)] == PrintParam(ps[0]) + [Symbol(RParenthesis)] + [];
      MembersCollected(c, ps);
    } else {
      var tail := PrintParams(ps[1..]) + [Symbol(RParenthesis)];
      ParamParsed(c, ps[0], Comma, tail);
      assert PrintParams(ps) + [Symbol(RParenthesis)] == PrintParam(ps[0]) + [Symbol(Comma)] + tail;
      ParamsRoundTrip(WithMember(c, ps[0]), ps[1..]);
      MembersCollected(c, ps);
    }
  }

  /** No bracket of any sort that a scope search looks for. */
  predicate Plain(tokens: seq<Token>)
  {
    forall i | 0 <= i < |tokens| ::
      tokens[i].kind != LBracket && tokens[i].kind != RBracket && tokens[i].kind != RParenthesis
  }

  lemma {:induction false} ParamsPlain(ps: seq<Member>)
    requires AreParams(ps)
    ensures Plain(PrintParams(ps))
    ensures ps != [] ==>
              |PrintParams(ps)| >= 2 && PrintParams(ps)[0].kind == Identifier &&
              PrintParams(ps)[1].kind != RParenthesis
    decreases |ps|
  {
    if |ps| > 1 {
      ParamsPlain(ps[1..]);
    }
  }

  lemma {:induction false} ParameterEndFound(init: seq<Token>, tail: seq<Token>)
    requires Plain(init)
    ensures ParameterEnd(init + [Symbol(RParenthesis)] + tail) == Some(|init| + 1)
  {
    var end := [Symbol(RParenthesis)] + tail;
    assert init + [Symbol(RParenthesis)] + tail == init + end;
    SkipOver(init, end, RParenthesis);
  }

  lemma {:induction false} ParamListHandled(c: Context, ps: seq<Member>, tail: seq<Token>)
    requires AreParams(ps) && ps != []
    ensures HandleParamList(c, PrintParams(ps) + [Symbol(RParenthesis)] + tail) ==
            Parsed(c.(members := c.members + ps), tail)
  {
    ParamsPlain(ps);
    ParameterEndFound(PrintParams(ps), tail);
    ParamsRoundTrip(c, ps);
    var tokens := PrintParams(ps) + [Symbol(RParenthesis)] + tail;
    assert tokens[..|PrintParams(ps)| + 1] == PrintParams(ps) + [Symbol(RParenthesis)];
    assert tokens[|PrintParams(ps)| + 1..] == tail;
  }

  /** The parameters of a function or an event: a list, or a type alone, which names the parameter too. */
  datatype ParamForm = Listed(params: seq<Member>) | Lone(typename: Value)

  predicate FormOk(f: ParamForm)
  {
    f.Listed? ==> AreParams(f.params)
  }

  function ParamsOf(f: ParamForm): (ps: seq<Member>)
  {
    match f
    case Listed(ps) => ps
    case Lone(t) => [Variable(t, t, false)]
  }

  function PrintForm(f: ParamForm): (tokens: seq<Token>)
    requires FormOk(f)
  {
    match f
    case Listed(ps) => PrintParams(ps)
    case Lone(t) => [Name(t)]
  }

  lemma {:induction false} FormPlain(f: ParamForm)
    requires FormOk(f)
    ensures Plain(PrintForm(f))
  {
    if f.Listed? {
      ParamsPlain(f.params);
    }
  }

  /** A type alone in parentheses is a parameter of that type and name. */
  lemma {:induction false} LoneHandled(c: Context, t: Value, tail: seq<Token>)
    ensures HandleParams(c, [Name(t)] + [Symbol(RParenthesis)] + tail) ==
            Parsed(c.(members := c.members + [Variable(t, t, false)]), tail)
  {
    var tokens := [Name(t)] + [Symbol(RParenthesis)] + tail;
    assert tokens[0] == Name(t) && tokens[1] == Symbol(RParenthesis) && tokens[2..] == tail;
  }

  lemma {:induction false} ParamsHandled(c: Context, f: ParamForm, tail: seq<Token>)
    requires FormOk(f)
    ensures HandleParams(c, PrintForm(f) + [Symbol(RParenthesis)] + tail) ==
            Parsed(c.(members := c.members + ParamsOf(f)), tail)
  {
    match f {
      case Lone(t) => LoneHandled(c, t, tail);
      case Listed(ps) =>
        if ps == [] {
          assert c.members + ps == c.members;
        } else {
          ParamsPlain(ps);
          ParamListHandled(c, ps, tail);
        }
    }
  }
}
