/** The converse for whole files: nothing but the print of some declarations is accepted. */
module ProtocolGrammar {
  import opened Collections
  import opened Options
  import opened ProtocolTokens
  import opened ProtocolParser
  import opened ProtocolPrinter
  import opened ProtocolBodies
  import opened ProtocolRoundTrip
  import opened ProtocolFiles
  import Text

  // ---------------------------------------------------------------- places of a syntax

  /** A syntax that matched accepts the token at every place before its first run. */
  lemma {:induction false} Place(tokens: seq<Token>, syntax: seq<Pattern>, j: nat)
    requires WellFormed(syntax) && Matches(tokens, syntax) && j < |tokens| && j < |syntax|
    requires forall i | 0 <= i <= j :: !syntax[i].Run?
    ensures Accepts(syntax[j], tokens[j].kind)
  {
    if !Accepts(syntax[j], tokens[j].kind) {
      Mismatch(tokens, syntax, j);
    }
  }

  /** Kinds whose tokens carry no value. */
  predicate Bare(k: Kind)
  {
    k != Identifier && k != Digit && k != Quote
  }

  /** The token is of the kind, and without a value if that kind has none. */
  predicate Of(t: Token, k: Kind)
  {
    t.kind == k && (Bare(k) ==> t == Symbol(k))
  }

  /** The syntax begins with the kinds. */
  predicate Begins(syntax: seq<Pattern>, kinds: seq<Kind>)
  {
    |kinds| <= |syntax| && forall j | 0 <= j < |kinds| :: syntax[j] == Is(kinds[j])
  }

  /** The tokens that stand for the first kinds of a syntax that matched. */
  lemma {:induction false} StartOf(tokens: seq<Token>, syntax: seq<Pattern>, kinds: seq<Kind>)
    requires AllScanned(tokens) && WellFormed(syntax) && Matches(tokens, syntax)
    requires |kinds| <= |tokens| && Begins(syntax, kinds)
    ensures forall j | 0 <= j < |kinds| :: Of(tokens[j], kinds[j])
  {
    forall j | 0 <= j < |kinds|
      ensures Of(tokens[j], kinds[j])
    {
      assert forall i | 0 <= i <= j :: syntax[i] == Is(kinds[i]);
      Place(tokens, syntax, j);
      assert Scanned(tokens[j]);
    }
  }

  lemma {:induction false} HeadOf(tokens: seq<Token>, rule: Rule, kinds: seq<Kind>)
    requires AllScanned(tokens) && MatchesRule(tokens, rule) && |kinds| <= |tokens| && Begins(Syntax(rule), kinds)
    ensures forall j | 0 <= j < |kinds| :: Of(tokens[j], kinds[j])
  {
    SyntaxWellFormed(rule);
    StartOf(tokens, Syntax(rule), kinds);
  }

  lemma {:induction false} ScannedRest(tokens: seq<Token>, n: nat)
    requires AllScanned(tokens) && n <= |tokens|
    ensures AllScanned(tokens[n..]) && AllScanned(tokens[..n])
  {
  }

  lemma {:induction false} ScannedTail(tokens: seq<Token>, head: seq<Token>, rest: seq<Token>)
    requires AllScanned(tokens) && tokens == head + rest
    ensures AllScanned(rest)
  {
    assert forall i | 0 <= i < |rest| :: rest[i] == tokens[|head| + i];
  }

  lemma {:induction false} ScannedSymbol(tokens: seq<Token>, j: nat, k: Kind)
    requires AllScanned(tokens) && j < |tokens| && tokens[j].kind == k && Bare(k)
    ensures tokens[j] == Symbol(k)
  {
    assert Scanned(tokens[j]);
  }

  lemma {:induction false} Three(tokens: seq<Token>, a: Token, b: Token, c: Token)
    requires |tokens| >= 3 && tokens[0] == a && tokens[1] == b && tokens[2] == c
    ensures tokens == [a, b, c] + tokens[3..]
  {
  }

  lemma {:induction false} Four(tokens: seq<Token>, a: Token, b: Token, c: Token, d: Token)
    requires |tokens| >= 4 && tokens[0] == a && tokens[1] == b && tokens[2] == c && tokens[3] == d
    ensures tokens == [a, b, c, d] + tokens[4..]
  {
  }

  // ---------------------------------------------------------------- parameters

  /** One round of a parameter list takes one printed parameter and what ends it. */
  lemma {:induction false} ParamExact(c: Context, tokens: seq<Token>) returns (p: Member, end: Kind)
    requires AllScanned(tokens) && tokens != [] && FirstRule(ParamScope, tokens).Some?
    requires HandleLeaf(FirstRule(ParamScope, tokens).value, c, tokens).Parsed?
    ensures var r := HandleLeaf(FirstRule(ParamScope, tokens).value, c, tokens);
            && p.Variable? && (end == RParenthesis || end == Comma)
            && tokens == PrintParam(p) + [Symbol(end)] + r.rest && r.context == WithMember(c, p)
  {
    FirstMatches(Rules(ParamScope), tokens);
    var rule := FirstRule(ParamScope, tokens).value;
    assert rule == ParamRule || rule == ArrayParamRule;
    if rule == ParamRule {
      p, end := PlainParamExact(c, tokens);
    } else {
      p, end := ArrayParamExact(c, tokens);
    }
  }

  lemma {:induction false} PlainParamExact(c: Context, tokens: seq<Token>) returns (p: Member, end: Kind)
    requires AllScanned(tokens) && MatchesRule(tokens, ParamRule) && HandleVariable(c, tokens).Parsed?
    ensures var r := HandleVariable(c, tokens);
            && p.Variable? && (end == RParenthesis || end == Comma)
            && tokens == PrintParam(p) + [Symbol(end)] + r.rest && r.context == WithMember(c, p)
  {
    Fits(tokens, ParamRule, 0);
    Fits(tokens, ParamRule, 1);
    Fits(tokens, ParamRule, 2);
    p, end := Variable(tokens[0].value, tokens[1].value, false), tokens[2].kind;
    ScannedSymbol(tokens, 2, end);
    assert tokens[0] == Name(tokens[0].value) && tokens[1] == Name(tokens[1].value);
  }

  lemma {:induction false} ArrayParamHead(tokens: seq<Token>)
    requires AllScanned(tokens) && MatchesRule(tokens, ArrayParamRule) && |tokens| >= 2
    ensures tokens[0].kind == Identifier && tokens[1] == Symbol(LIndex)
    ensures |tokens| > 2 ==> tokens[2] == Symbol(RIndex)
  {
    Fits(tokens, ArrayParamRule, 0);
    FitsSymbol(tokens, ArrayParamRule, 1, LIndex);
    if |tokens| > 2 {
      FitsSymbol(tokens, ArrayParamRule, 2, RIndex);
    }
  }

  lemma {:induction false} ArrayParamTail(tokens: seq<Token>)
    requires AllScanned(tokens) && MatchesRule(tokens, ArrayParamRule) && |tokens| >= 5
    ensures tokens[3].kind == Identifier && (tokens[4] == Symbol(RParenthesis) || tokens[4] == Symbol(Comma))
  {
    var syntax := Syntax(ArrayParamRule);
    assert syntax[3] == Is(Identifier) && syntax[4] == OneOf([RParenthesis, Comma]);
    assert forall i | 0 <= i <= 4 :: !syntax[i].Run?;
    Fits(tokens, ArrayParamRule, 3);
    Fits(tokens, ArrayParamRule, 4);
    assert Scanned(tokens[4]);
  }

  lemma {:induction false} ArrayParamExact(c: Context, tokens: seq<Token>) returns (p: Member, end: Kind)
    requires AllScanned(tokens) && MatchesRule(tokens, ArrayParamRule) && HandleVariable(c, tokens).Parsed?
    ensures var r := HandleVariable(c, tokens);
            && p.Variable? && (end == RParenthesis || end == Comma)
            && tokens == PrintParam(p) + [Symbol(end)] + r.rest && r.context == WithMember(c, p)
  {
    ArrayParamHead(tokens);
    ArrayParamTail(tokens);
    p, end := Variable(tokens[0].value, tokens[3].value, true), tokens[4].kind;
    assert tokens[0] == Name(tokens[0].value) && tokens[3] == Name(tokens[3].value);
  }

  /** The last token, and no other, is of kind `k`. */
  predicate EndsAt(tokens: seq<Token>, k: Kind)
  {
    && tokens != [] && tokens[|tokens| - 1].kind == k
    && forall i | 0 <= i < |tokens| - 1 :: tokens[i].kind != k
  }

  lemma {:induction false} EndsLater(head: seq<Token>, k: Kind, end: Kind, rest: seq<Token>)
    requires EndsAt(head + [Symbol(end)] + rest, k)
    ensures end == k ==> rest == []
    ensures end != k ==> EndsAt(rest, k)
  {
    var tokens := head + [Symbol(end)] + rest;
    assert tokens[|head|] == Symbol(end);
    assert forall i | 0 <= i < |rest| :: tokens[|head| + 1 + i] == rest[i];
    if rest != [] {
      assert tokens[|tokens| - 1] == rest[|rest| - 1];
    }
  }

  lemma {:induction false} OneParam(p: Member)
    requires p.Variable?
    ensures AreParams([p]) && PrintParams([p]) + [Symbol(RParenthesis)] == PrintParam(p) + [Symbol(RParenthesis)] + []
  {
  }

  lemma {:induction false} MoreParams(p: Member, ps: seq<Member>)
    requires p.Variable? && AreParams(ps) && ps != []
    ensures AreParams([p] + ps)
    ensures PrintParams([p] + ps) + [Symbol(RParenthesis)] ==
            PrintParam(p) + [Symbol(Comma)] + (PrintParams(ps) + [Symbol(RParenthesis)])
  {
    assert ([p] + ps)[1..] == ps;
  }

  lemma {:induction false} ParamsRound(c: Context, tokens: seq<Token>)
    requires tokens != [] && ParseLeaf(ParamScope, c, tokens).Parsed?
    ensures FirstRule(ParamScope, tokens).Some?
    ensures var r := HandleLeaf(FirstRule(ParamScope, tokens).value, c, tokens);
            r.Parsed? && ParseLeaf(ParamScope, c, tokens) == ParseLeaf(ParamScope, r.context, r.rest)
  {
  }

  /** A parameter list that parses is the print of the parameters it parses to. */
  lemma {:induction false} ParamsExact(c: Context, tokens: seq<Token>) returns (ps: seq<Member>)
    requires AllScanned(tokens) && EndsAt(tokens, RParenthesis) && ParseLeaf(ParamScope, c, tokens).Parsed?
    ensures AreParams(ps) && ps != [] && tokens == PrintParams(ps) + [Symbol(RParenthesis)]
    ensures ParseLeaf(ParamScope, c, tokens) == Parsed(c.(members := c.members + ps), [])
    decreases |tokens|
  {
    ParamsRound(c, tokens);
    var p, end := ParamExact(c, tokens);
    var rest := HandleLeaf(FirstRule(ParamScope, tokens).value, c, tokens).rest;
    EndsLater(PrintParam(p), RParenthesis, end, rest);
    if end == RParenthesis {
      ps := [p];
      OneParam(p);
      assert ParseLeaf(ParamScope, WithMember(c, p), []) == Parsed(WithMember(c, p), []);
    } else {
      ScannedTail(tokens, PrintParam(p) + [Symbol(end)], rest);
      var others := ParamsExact(WithMember(c, p), rest);
      MoreParams(p, others);
      ps := [p] + others;
      assert ps[1..] == others;
    }
    MembersCollected(c, ps);
  }

  lemma {:induction false} SkipStops(tokens: seq<Token>, k: Kind)
    ensures Without(tokens[..|tokens| - |SkipTo(tokens, k)|], k)
    decreases |tokens|
  {
    if tokens != [] && tokens[0].kind != k {
      SkipStops(tokens[1..], k);
      var n := |tokens| - |SkipTo(tokens, k)|;
      forall i | 0 <= i < n
        ensures tokens[..n][i].kind != k
      {
        assert i > 0 ==> tokens[..n][i] == tokens[1..][..n - 1][i - 1];
      }
    }
  }

  lemma {:induction false} ListEnds(tokens: seq<Token>)
    requires ParameterEnd(tokens).Some?
    ensures EndsAt(tokens[..ParameterEnd(tokens).value], RParenthesis)
  {
    var n := ParameterEnd(tokens).value;
    SkipStops(tokens, RParenthesis);
    assert forall i | 0 <= i < n - 1 :: tokens[..n - 1][i] == tokens[i];
  }

  lemma {:induction false} ListReads(c: Context, tokens: seq<Token>)
    requires HandleParamList(c, tokens).Parsed?
    ensures ParameterEnd(tokens).Some?
    ensures var n := ParameterEnd(tokens).value;
            && ParseLeaf(ParamScope, c, tokens[..n]).Parsed?
            && HandleParamList(c, tokens) == Parsed(ParseLeaf(ParamScope, c, tokens[..n]).context, tokens[n..])
  {
  }

  lemma {:induction false} ParamListExact(c: Context, tokens: seq<Token>) returns (ps: seq<Member>)
    requires AllScanned(tokens) && HandleParamList(c, tokens).Parsed?
    ensures var r := HandleParamList(c, tokens);
            && AreParams(ps) && ps != [] && tokens == PrintParams(ps) + [Symbol(RParenthesis)] + r.rest
            && r.context == c.(members := c.members + ps)
  {
    ListReads(c, tokens);
    var n := ParameterEnd(tokens).value;
    ListEnds(tokens);
    ScannedRest(tokens, n);
    var list, rest := tokens[..n], tokens[n..];
    assert tokens == list + rest;
    ps := ParamsExact(c, list);
  }

  /** After an opening parenthesis nothing but a printed form is accepted. */
  lemma {:induction false} FormExact(c: Context, tokens: seq<Token>) returns (f: ParamForm)
    requires AllScanned(tokens) && HandleParams(c, tokens).Parsed?
    ensures var r := HandleParams(c, tokens);
            && FormOk(f) && tokens == PrintForm(f) + [Symbol(RParenthesis)] + r.rest
            && r.context == c.(members := c.members + ParamsOf(f))
  {
    if tokens[0].kind == RParenthesis {
      f := Listed([]);
      ScannedSymbol(tokens, 0, RParenthesis);
      assert tokens == [tokens[0]] + tokens[1..] && c.members + [] == c.members;
    } else if |tokens| > 1 && tokens[0].kind == Identifier && tokens[1].kind == RParenthesis {
      f := Lone(tokens[0].value);
      ScannedSymbol(tokens, 1, RParenthesis);
      assert tokens == [tokens[0]] + [tokens[1]] + tokens[2..] && tokens[0] == Name(tokens[0].value);
    } else {
      var ps := ParamListExact(c, tokens);
      f := Listed(ps);
    }
  }

  // ---------------------------------------------------------------- functions and events

  lemma {:induction false} EndingBegins()
    ensures Begins(EndingSyntax(), [RParenthesis, Equal, Digit, Semicolon])
    ensures Begins(FuncMiddle(), [RParenthesis, Colon, LParenthesis])
  {
  }

  /** What ends a function or an event, when its syntax matched and there are tokens enough. */
  lemma {:induction false} EndingExact(rest: seq<Token>)
    requires AllScanned(rest) && |rest| >= 3 && WellFormed(EndingSyntax())
    requires Matches([Symbol(RParenthesis)] + rest, EndingSyntax())
    ensures rest == Ending(rest[1].value) + rest[3..]
  {
    var tokens := [Symbol(RParenthesis)] + rest;
    ScannedAfter(rest);
    EndingBegins();
    StartOf(tokens, EndingSyntax(), [RParenthesis, Equal, Digit, Semicolon]);
    assert rest[0] == tokens[1] && rest[1] == tokens[2] && rest[2] == tokens[3];
    Three(rest, Symbol(Equal), Token(Digit, rest[1].value), Symbol(Semicolon));
  }

  lemma {:induction false} ScannedAfter(rest: seq<Token>)
    requires AllScanned(rest)
    ensures AllScanned([Symbol(RParenthesis)] + rest)
  {
  }

  lemma {:induction false} MiddleExact(rest: seq<Token>)
    requires AllScanned(rest) && |rest| >= 2 && WellFormed(FuncMiddle())
    requires Matches([Symbol(RParenthesis)] + rest, FuncMiddle())
    ensures [Symbol(RParenthesis)] + rest == Between() + rest[2..]
  {
    var tokens := [Symbol(RParenthesis)] + rest;
    ScannedAfter(rest);
    EndingBegins();
    StartOf(tokens, FuncMiddle(), [RParenthesis, Colon, LParenthesis]);
    Three(tokens, Symbol(RParenthesis), Symbol(Colon), Symbol(LParenthesis));
    assert tokens[3..] == rest[2..];
  }

  lemma {:induction false} FuncBegins()
    ensures Begins(Syntax(FuncRule), [Func, Identifier, LParenthesis])
  {
  }

  lemma {:induction false} FuncHeadExact(tokens: seq<Token>)
    requires AllScanned(tokens) && MatchesRule(tokens, FuncRule) && |tokens| >= 3
    ensures tokens == FuncHead(tokens[1].value) + tokens[3..]
  {
    FuncBegins();
    HeadOf(tokens, FuncRule, [Func, Identifier, LParenthesis]);
    Three(tokens, Symbol(Func), Name(tokens[1].value), Symbol(LParenthesis));
  }

  /** The tokens after the request of a function that matched. */
  lemma {:induction false} AfterRequest(n: Value, request: seq<Token>, rest: seq<Token>)
    requires MatchesRule(FuncHead(n) + (request + ([Symbol(RParenthesis)] + rest)), FuncRule) && Plain(request)
    ensures WellFormed(FuncMiddle()) && Matches([Symbol(RParenthesis)] + rest, FuncMiddle())
  {
    FuncHeadFits(n);
    SyntaxWellFormed(FuncRule);
    RunMatches(FuncHead(n), request, [Symbol(RParenthesis)] + rest, Syntax(FuncRule), RParenthesis, FuncMiddle());
  }

  lemma {:induction false} AfterMiddle(response: seq<Token>, rest: seq<Token>)
    requires Plain(response) && WellFormed(FuncMiddle())
    requires Matches(Between() + (response + ([Symbol(RParenthesis)] + rest)), FuncMiddle())
    ensures WellFormed(EndingSyntax()) && Matches([Symbol(RParenthesis)] + rest, EndingSyntax())
  {
    MiddleFits();
    RunMatches(Between(), response, [Symbol(RParenthesis)] + rest, FuncMiddle(), RParenthesis, EndingSyntax());
  }

  lemma {:induction false} AfterResponse(rest1: seq<Token>, response: seq<Token>, rest2: seq<Token>)
    requires AllScanned(rest1) && |rest1| >= 2 && Plain(response) && |rest2| >= 3
    requires WellFormed(FuncMiddle()) && Matches([Symbol(RParenthesis)] + rest1, FuncMiddle())
    requires rest1[2..] == response + ([Symbol(RParenthesis)] + rest2)
    ensures [Symbol(RParenthesis)] + rest1 ==
            Between() + (response + ([Symbol(RParenthesis)] + (Ending(rest2[1].value) + rest2[3..])))
  {
    MiddleExact(rest1);
    AfterMiddle(response, rest2);
    ScannedRest(rest1, 2);
    Associate(response, [Symbol(RParenthesis)], rest2);
    ScannedTail(rest1[2..], response + [Symbol(RParenthesis)], rest2);
    EndingExact(rest2);
  }

  lemma {:induction false} FuncJoin(n: Value, request: seq<Token>, response: seq<Token>, id: Value, tail: seq<Token>)
    ensures FuncHead(n) + (request + (Between() + (response + ([Symbol(RParenthesis)] + (Ending(id) + tail))))) ==
            PrintFunc(n, request, response, id) + tail
  {
    Regroup(FuncHead(n), request, Between(), response, [Symbol(RParenthesis)], Ending(id), tail);
    assert [Symbol(RParenthesis)] + (Ending(id) + tail) == [Symbol(RParenthesis)] + Ending(id) + tail;
  }

  /** The request of a function that is accepted, and the tokens after it. */
  lemma {:induction false} RequestExact(c: Context, tokens: seq<Token>) returns (request: ParamForm, rest: seq<Token>)
    requires AllScanned(tokens) && MatchesRule(tokens, FuncRule) && |tokens| >= 3 && c.members == []
    requires HandleParams(c, tokens[3..]).Parsed?
    ensures FormOk(request) && HandleParams(c, tokens[3..]) == Parsed(c.(members := ParamsOf(request)), rest)
    ensures tokens == FuncHead(tokens[1].value) + (PrintForm(request) + ([Symbol(RParenthesis)] + rest))
    ensures AllScanned(rest) && WellFormed(FuncMiddle()) && Matches([Symbol(RParenthesis)] + rest, FuncMiddle())
  {
    ScannedRest(tokens, 3);
    request := FormExact(c, tokens[3..]);
    rest := HandleParams(c, tokens[3..]).rest;
    FormPlain(request);
    FuncHeadExact(tokens);
    ScannedTail(tokens[3..], PrintForm(request) + [Symbol(RParenthesis)], rest);
    Associate(PrintForm(request), [Symbol(RParenthesis)], rest);
    AfterRequest(tokens[1].value, PrintForm(request), rest);
    assert c.members + ParamsOf(request) == ParamsOf(request);
  }

  /** The response, and the end of the function. */
  lemma {:induction false} ResponseExact(c: Context, rest1: seq<Token>) returns (response: ParamForm, rest: seq<Token>)
    requires AllScanned(rest1) && |rest1| >= 2 && c.members == [] && HandleParams(c, rest1[2..]).Parsed?
    requires WellFormed(FuncMiddle()) && Matches([Symbol(RParenthesis)] + rest1, FuncMiddle())
    requires |HandleParams(c, rest1[2..]).rest| >= 3
    ensures FormOk(response) && HandleParams(c, rest1[2..]) == Parsed(c.(members := ParamsOf(response)), rest)
    ensures |rest| >= 3
    ensures [Symbol(RParenthesis)] + rest1 ==
            Between() + (PrintForm(response) + ([Symbol(RParenthesis)] + (Ending(rest[1].value) + rest[3..])))
  {
    ScannedRest(rest1, 2);
    response := FormExact(c, rest1[2..]);
    rest := HandleParams(c, rest1[2..]).rest;
    FormPlain(response);
    Associate(PrintForm(response), [Symbol(RParenthesis)], rest);
    AfterResponse(rest1, PrintForm(response), rest);
    assert c.members + ParamsOf(response) == ParamsOf(response);
  }

  /** A function that is accepted is the print of the function it gives. */
  lemma {:induction false} FuncExact(c: Context, tokens: seq<Token>) returns (item: Item)
    requires AllScanned(tokens) && MatchesRule(tokens, FuncRule) && c.members == [] && HandleFunc(c, tokens).Parsed?
    ensures var r := HandleFunc(c, tokens);
            Printable(item) && tokens == PrintItem(item) + r.rest && r.context == AddItem(c, item)
  {
    var request, rest1 := RequestExact(c, tokens);
    assert c.(members := ParamsOf(request)).(members := []) == c;
    var response, rest2 := ResponseExact(c, rest1);
    assert c.(members := ParamsOf(response)).(members := []) == c;
    var n, id := tokens[1].value, rest2[1].value;
    item := FuncItem(n, id, request, response);
    FuncJoin(n, PrintForm(request), PrintForm(response), id, rest2[3..]);
  }

  /** The tokens after the parameters of an event that matched. */
  lemma {:induction false} AfterParams(n: Value, params: seq<Token>, rest: seq<Token>)
    requires MatchesRule(EventHead(n) + (params + ([Symbol(RParenthesis)] + rest)), VariableEventRule)
    requires Plain(params) && AllScanned(rest) && |rest| >= 3
    ensures EventHead(n) + (params + ([Symbol(RParenthesis)] + rest)) ==
            PrintEvent(n, params, rest[1].value) + rest[3..]
  {
    var last, id := [Symbol(RParenthesis)] + rest, rest[1].value;
    EventHeadFits(n);
    SyntaxWellFormed(VariableEventRule);
    RunMatches(EventHead(n), params, last, Syntax(VariableEventRule), RParenthesis, EndingSyntax());
    EndingExact(rest);
    EventShape(EventHead(n), params, [Symbol(RParenthesis)], Ending(id), rest[3..]);
    Associate([Symbol(RParenthesis)], Ending(id), rest[3..]);
  }

  lemma {:induction false} ListedEventReads(c: Context, tokens: seq<Token>)
    requires HandleEvent(c, tokens).Parsed?
    ensures |tokens| >= 4
    ensures tokens[3].kind != Identifier ==>
              HandleParamList(c, tokens[4..]).Parsed? && |HandleParamList(c, tokens[4..]).rest| >= 3
  {
  }

  lemma {:induction false} ListedEventFrom(c: Context, tokens: seq<Token>, n: Value) returns (ps: seq<Member>)
    requires AllScanned(tokens) && |tokens| >= 4 && tokens == EventHead(n) + tokens[4..]
    requires MatchesRule(tokens, VariableEventRule) && HandleParamList(c, tokens[4..]).Parsed?
    requires |HandleParamList(c, tokens[4..]).rest| >= 3
    ensures var r := HandleParamList(c, tokens[4..]);
            && AreParams(ps) && ps != [] && r.context == c.(members := c.members + ps)
            && tokens == PrintEvent(n, PrintParams(ps), r.rest[1].value) + r.rest[3..]
  {
    ScannedRest(tokens, 4);
    var r := HandleParamList(c, tokens[4..]);
    ps := ParamListExact(c, tokens[4..]);
    ParamsPlain(ps);
    ScannedTail(tokens[4..], PrintParams(ps) + [Symbol(RParenthesis)], r.rest);
    Associate(PrintParams(ps), [Symbol(RParenthesis)], r.rest);
    AfterParams(n, PrintParams(ps), r.rest);
  }

  lemma {:induction false} ListedEventExact(c: Context, tokens: seq<Token>) returns (item: Item)
    requires AllScanned(tokens) && MatchesRule(tokens, VariableEventRule) && c.members == []
    requires HandleEvent(c, tokens).Parsed?
    ensures var r := HandleEvent(c, tokens);
            Printable(item) && tokens == PrintItem(item) + r.rest && r.context == AddItem(c, item)
  {
    ListedEventReads(c, tokens);
    EventHeadExact(tokens);
    var ps := ListedEventFrom(c, tokens, tokens[1].value);
    var rest := HandleParamList(c, tokens[4..]).rest;
    assert c.members + ps == ps;
    EventReads(c, tokens, ps, rest);
    item := EventItem(tokens[1].value, rest[1].value, Listed(ps));
  }

  lemma {:induction false} EventBegins()
    ensures Begins(Syntax(VariableEventRule), [Event, Identifier, Colon, LParenthesis])
    ensures Begins(Syntax(EventRule), [Event, Identifier, Colon, Identifier, Equal, Digit, Semicolon])
    ensures Begins(Syntax(EventRule), [Event, Identifier, Colon, Identifier])
  {
  }

  lemma {:induction false} EventHeadExact(tokens: seq<Token>)
    requires AllScanned(tokens) && MatchesRule(tokens, VariableEventRule) && |tokens| >= 4
    ensures tokens == EventHead(tokens[1].value) + tokens[4..] && tokens[3].kind == LParenthesis
  {
    EventBegins();
    HeadOf(tokens, VariableEventRule, [Event, Identifier, Colon, LParenthesis]);
    Four(tokens, Symbol(Event), Name(tokens[1].value), Symbol(Colon), Symbol(LParenthesis));
  }

  lemma {:induction false} TypedEventHead(tokens: seq<Token>)
    requires AllScanned(tokens) && MatchesRule(tokens, EventRule) && |tokens| >= 4
    ensures tokens == [Symbol(Event), Name(tokens[1].value), Symbol(Colon), Name(tokens[3].value)] + tokens[4..]
    ensures tokens[3].kind == Identifier
  {
    EventBegins();
    HeadOf(tokens, EventRule, [Event, Identifier, Colon, Identifier]);
    Four(tokens, Symbol(Event), Name(tokens[1].value), Symbol(Colon), Name(tokens[3].value));
  }

  lemma {:induction false} TypedEventEnd(tokens: seq<Token>)
    requires AllScanned(tokens) && MatchesRule(tokens, EventRule) && |tokens| >= 7
    ensures tokens[4..] == Ending(tokens[5].value) + tokens[7..]
  {
    EventBegins();
    HeadOf(tokens, EventRule, [Event, Identifier, Colon, Identifier, Equal, Digit, Semicolon]);
    Three(tokens[4..], Symbol(Equal), Token(Digit, tokens[5].value), Symbol(Semicolon));
  }

  lemma {:induction false} TypedEventExact(c: Context, tokens: seq<Token>) returns (item: Item)
    requires AllScanned(tokens) && MatchesRule(tokens, EventRule) && c.members == [] && HandleEvent(c, tokens).Parsed?
    ensures var r := HandleEvent(c, tokens);
            Printable(item) && tokens == PrintItem(item) + r.rest && r.context == AddItem(c, item)
  {
    TypedEventHead(tokens);
    TypedEventEnd(tokens);
    TypedEventReads(c, tokens);
    var n, id, t := tokens[1].value, tokens[5].value, tokens[3].value;
    item := EventItem(n, id, Lone(t));
    var head := [Symbol(Event), Name(n), Symbol(Colon), Name(t)];
    assert tokens == head + (Ending(id) + tokens[7..]);
    assert head + (Ending(id) + tokens[7..]) == head + Ending(id) + tokens[7..];
  }

  /** One round of the loop over a service takes one printed line. */
  lemma {:induction false} ItemExact(c: Context, tokens: seq<Token>) returns (item: Item)
    requires AllScanned(tokens) && c.members == [] && FirstRule(ServiceScope, tokens).Some?
    requires HandleInService(FirstRule(ServiceScope, tokens).value, c, tokens).Parsed?
    ensures var r := HandleInService(FirstRule(ServiceScope, tokens).value, c, tokens);
            Printable(item) && tokens == PrintItem(item) + r.rest && r.context == AddItem(c, item)
  {
    FirstMatches(Rules(ServiceScope), tokens);
    var rule := FirstRule(ServiceScope, tokens).value;
    assert rule == FuncRule || rule == VariableEventRule || rule == EventRule;
    if rule == FuncRule {
      item := FuncExact(c, tokens);
    } else if rule == VariableEventRule {
      item := ListedEventExact(c, tokens);
    } else {
      item := TypedEventExact(c, tokens);
    }
  }

  lemma {:induction false} ItemsExact(c: Context, tokens: seq<Token>) returns (items: seq<Item>)
    requires AllScanned(tokens) && c.members == [] && ParseService(c, tokens).Parsed?
    ensures AllPrintable(items) && tokens == PrintItems(items)
    ensures ParseService(c, tokens).context == AddItems(c, items)
    decreases |tokens|
  {
    if tokens == [] {
      items := [];
    } else {
      var r := HandleInService(FirstRule(ServiceScope, tokens).value, c, tokens);
      var item := ItemExact(c, tokens);
      ScannedTail(tokens, PrintItem(item), r.rest);
      var rest := ItemsExact(r.context, r.rest);
      items := [item] + rest;
      assert items[1..] == rest;
    }
  }

  // ---------------------------------------------------------------- enums and options

  /** The bracket that closes the scope is the last token. */
  predicate ClosesAtEnd(tokens: seq<Token>)
  {
    tokens != [] && Closing(tokens, 0) == Some(|tokens| - 1)
  }

  /** A run without brackets at the front does not move the end of the scope. */
  lemma {:induction false} ClosesAfter(a: seq<Token>, b: seq<Token>)
    requires Bracketless(a) && ClosesAtEnd(a + b)
    ensures b != [] && ClosesAtEnd(b)
    ensures b[0].kind == RBracket ==> |b| == 1
  {
    DepthWithout(a, 0);
    ClosingAfter(a, b, 0);
  }

  /** What follows a value of an enum. */
  lemma {:induction false} SeparatorExact(c: Context, value: seq<Token>, after: seq<Token>) returns (end: seq<Token>)
    requires AllScanned(after) && Bracketless(value) && ClosesAtEnd(value + after)
    requires after != [] && (after[0].kind == Comma || after[0].kind == RBracket) && AfterEnumMember(c, after).Parsed?
    ensures var r := AfterEnumMember(c, after);
            && r.context == c && after == end + r.rest
            && (end == [Symbol(Comma)] || end == [Symbol(RBracket)] || end == [Symbol(Comma), Symbol(RBracket)])
            && (end == [Symbol(Comma)] ==> ClosesAtEnd(r.rest)) && (end != [Symbol(Comma)] ==> r.rest == [])
  {
    ClosesAfter(value, after);
    if after[0].kind == RBracket {
      ScannedSymbol(after, 0, RBracket);
      end := [Symbol(RBracket)];
    } else {
      ScannedSymbol(after, 0, Comma);
      var rest := after[1..];
      assert after == [Symbol(Comma)] + rest;
      ClosesAfter([Symbol(Comma)], rest);
      if rest[0].kind == RBracket {
        ScannedSymbol(after, 1, RBracket);
        assert rest == [Symbol(RBracket)] && rest[1..] == [];
        end := [Symbol(Comma), Symbol(RBracket)];
      } else {
        end := [Symbol(Comma)];
      }
    }
  }

  /** The tokens of one value, and the separator's first. */
  lemma {:induction false} NameHead(tokens: seq<Token>)
    requires AllScanned(tokens) && MatchesRule(tokens, NameRule) && |tokens| >= 2
    ensures tokens == [Name(tokens[0].value)] + tokens[1..]
    ensures tokens[1].kind == Comma || tokens[1].kind == RBracket
  {
    Fits(tokens, NameRule, 0);
    Fits(tokens, NameRule, 1);
    assert tokens[0] == Name(tokens[0].value);
  }

  lemma {:induction false} ValueHead(tokens: seq<Token>)
    requires AllScanned(tokens) && MatchesRule(tokens, ValueRule) && |tokens| >= 4
    ensures tokens == [Name(tokens[0].value), Symbol(Equal), tokens[2]] + tokens[3..] && IsWord(tokens[2])
    ensures tokens[3].kind == Comma || tokens[3].kind == RBracket
  {
    Fits(tokens, ValueRule, 0);
    FitsSymbol(tokens, ValueRule, 1, Equal);
    Fits(tokens, ValueRule, 2);
    Fits(tokens, ValueRule, 3);
    assert tokens[0] == Name(tokens[0].value);
    assert tokens == [tokens[0], tokens[1], tokens[2]] + tokens[3..];
  }

  /** The tokens of a value and of its separator. */
  ghost predicate ValueTaken(v: EnumValue, end: seq<Token>, c: Context, tokens: seq<Token>, r: Parsed)
  {
    && r.Parsed? && ValueOk(v) && tokens == PrintValue(v) + (end + r.rest) && r.context == WithValue(c, ValueOf(v))
    && (end == [Symbol(Comma)] || end == [Symbol(RBracket)] || end == [Symbol(Comma), Symbol(RBracket)])
    && (end == [Symbol(Comma)] ==> ClosesAtEnd(r.rest)) && (end != [Symbol(Comma)] ==> r.rest == [])
  }

  lemma {:induction false} ValueFrom(c: Context, tokens: seq<Token>, v: EnumValue, after: seq<Token>)
    returns (end: seq<Token>)
    requires AllScanned(after) && ClosesAtEnd(tokens) && ValueOk(v) && tokens == PrintValue(v) + after
    requires after != [] && (after[0].kind == Comma || after[0].kind == RBracket)
    requires AfterEnumMember(WithValue(c, ValueOf(v)), after).Parsed?
    ensures ValueTaken(v, end, c, tokens, AfterEnumMember(WithValue(c, ValueOf(v)), after))
  {
    ValuePlain(v);
    end := SeparatorExact(WithValue(c, ValueOf(v)), PrintValue(v), after);
  }

  lemma {:induction false} NameExact(c: Context, tokens: seq<Token>) returns (v: EnumValue, end: seq<Token>)
    requires AllScanned(tokens) && ClosesAtEnd(tokens) && MatchesRule(tokens, NameRule)
    requires HandleEnumMember(c, tokens, false).Parsed?
    ensures ValueTaken(v, end, c, tokens, HandleEnumMember(c, tokens, false))
  {
    NameHead(tokens);
    ScannedRest(tokens, 1);
    v := EnumValue(tokens[0].value, None);
    end := ValueFrom(c, tokens, v, tokens[1..]);
  }

  lemma {:induction false} NumberExact(c: Context, tokens: seq<Token>) returns (v: EnumValue, end: seq<Token>)
    requires AllScanned(tokens) && ClosesAtEnd(tokens) && MatchesRule(tokens, ValueRule)
    requires HandleEnumMember(c, tokens, true).Parsed?
    ensures ValueTaken(v, end, c, tokens, HandleEnumMember(c, tokens, true))
  {
    ValueHead(tokens);
    ScannedRest(tokens, 3);
    v := EnumValue(tokens[0].value, Some(tokens[2]));
    end := ValueFrom(c, tokens, v, tokens[3..]);
  }

  lemma {:induction false} ValueByRule(c: Context, tokens: seq<Token>, rule: Rule)
    returns (v: EnumValue, end: seq<Token>)
    requires rule == ValueRule || rule == NameRule
    requires AllScanned(tokens) && ClosesAtEnd(tokens) && MatchesRule(tokens, rule)
    requires HandleLeaf(rule, c, tokens).Parsed?
    ensures ValueTaken(v, end, c, tokens, HandleLeaf(rule, c, tokens))
  {
    if rule == NameRule {
      v, end := NameExact(c, tokens);
    } else {
      v, end := NumberExact(c, tokens);
    }
  }

  lemma {:induction false} EnumRules(rule: Rule)
    requires rule in Rules(EnumScope)
    ensures rule == ValueRule || rule == NameRule
  {
  }

  /** One round of the loop over an enum takes one printed value and what follows it. */
  lemma {:induction false} ValueExact(c: Context, tokens: seq<Token>) returns (v: EnumValue, end: seq<Token>)
    requires AllScanned(tokens) && ClosesAtEnd(tokens) && FirstRule(EnumScope, tokens).Some?
    requires HandleLeaf(FirstRule(EnumScope, tokens).value, c, tokens).Parsed?
    ensures ValueTaken(v, end, c, tokens, HandleLeaf(FirstRule(EnumScope, tokens).value, c, tokens))
  {
    FirstMatches(Rules(EnumScope), tokens);
    EnumRules(FirstRule(EnumScope, tokens).value);
    v, end := ValueByRule(c, tokens, FirstRule(EnumScope, tokens).value);
  }

  lemma {:induction false} MoreValues(v: EnumValue, vs: seq<EnumValue>, trailing: bool, tokens: seq<Token>)
    requires ValueOk(v) && vs != [] && ValuesOk(vs)
    requires tokens == PrintValue(v) + ([Symbol(Comma)] + (PrintValues(vs, trailing) + [Symbol(RBracket)]))
    ensures ValuesOk([v] + vs) && tokens == PrintValues([v] + vs, trailing) + [Symbol(RBracket)]
  {
    ValuesShape(v, vs, trailing);
  }

  /** An enum body that parses is the print of the values it parses to. */
  lemma {:induction false} ValuesExact(c: Context, tokens: seq<Token>) returns (vs: seq<EnumValue>, trailing: bool)
    requires AllScanned(tokens) && ClosesAtEnd(tokens) && ParseLeaf(EnumScope, c, tokens).Parsed?
    ensures vs != [] && ValuesOk(vs) && tokens == PrintValues(vs, trailing) + [Symbol(RBracket)]
    ensures ParseLeaf(EnumScope, c, tokens).context == c.(values := c.values + ValuesOf(vs))
    decreases |tokens|
  {
    var r := HandleLeaf(FirstRule(EnumScope, tokens).value, c, tokens);
    var v, end := ValueExact(c, tokens);
    if end == [Symbol(Comma)] {
      Associate(PrintValue(v), end, r.rest);
      ScannedTail(tokens, PrintValue(v) + end, r.rest);
      var rest;
      rest, trailing := ValuesExact(r.context, r.rest);
      MoreValues(v, rest, trailing, tokens);
      vs := [v] + rest;
      assert vs[1..] == rest;
    } else {
      vs, trailing := [v], end == [Symbol(Comma), Symbol(RBracket)];
      OneValueShape(v, trailing);
    }
    ValuesCollected(c, vs);
  }

  lemma {:induction false} SettingExact(c: Context, tokens: seq<Token>) returns (s: Setting)
    requires AllScanned(tokens) && FirstRule(StreamScope, tokens).Some?
    requires HandleLeaf(FirstRule(StreamScope, tokens).value, c, tokens).Parsed?
    ensures var r := HandleLeaf(FirstRule(StreamScope, tokens).value, c, tokens);
            && IsWord(s.value) && tokens == PrintSetting(s) + r.rest
            && r.context == c.(options := c.options[s.key := s.value.value])
  {
    FirstMatches(Rules(StreamScope), tokens);
    var rule := FirstRule(StreamScope, tokens).value;
    assert rule == TextOptionRule || rule == DigitOptionRule;
    SettingTokens(tokens, rule);
    s := Setting(tokens[1].value, tokens[3]);
  }

  lemma {:induction false} OptionBegins()
    ensures Begins(Syntax(TextOptionRule), [OptionWord, Identifier, Equal, Identifier, Semicolon])
    ensures Begins(Syntax(DigitOptionRule), [OptionWord, Identifier, Equal, Digit, Semicolon])
  {
  }

  lemma {:induction false} TextSetting(tokens: seq<Token>)
    requires AllScanned(tokens) && MatchesRule(tokens, TextOptionRule) && |tokens| >= 5
    ensures tokens[0] == Symbol(OptionWord) && tokens[1].kind == Identifier && tokens[2] == Symbol(Equal)
    ensures tokens[3].kind == Identifier && tokens[4] == Symbol(Semicolon)
  {
    OptionBegins();
    HeadOf(tokens, TextOptionRule, [OptionWord, Identifier, Equal, Identifier, Semicolon]);
  }

  lemma {:induction false} DigitSetting(tokens: seq<Token>)
    requires AllScanned(tokens) && MatchesRule(tokens, DigitOptionRule) && |tokens| >= 5
    ensures tokens[0] == Symbol(OptionWord) && tokens[1].kind == Identifier && tokens[2] == Symbol(Equal)
    ensures tokens[3].kind == Digit && tokens[4] == Symbol(Semicolon)
  {
    OptionBegins();
    HeadOf(tokens, DigitOptionRule, [OptionWord, Identifier, Equal, Digit, Semicolon]);
  }

  lemma {:induction false} SettingTokens(tokens: seq<Token>, rule: Rule)
    requires rule == TextOptionRule || rule == DigitOptionRule
    requires AllScanned(tokens) && MatchesRule(tokens, rule) && |tokens| >= 5
    ensures IsWord(tokens[3]) && tokens == PrintSetting(Setting(tokens[1].value, tokens[3])) + tokens[5..]
  {
    if rule == TextOptionRule {
      TextSetting(tokens);
    } else {
      DigitSetting(tokens);
    }
    SettingShape(tokens);
  }

  lemma {:induction false} SettingShape(tokens: seq<Token>)
    requires |tokens| >= 5 && tokens[0] == Symbol(OptionWord) && tokens[1].kind == Identifier
    requires tokens[2] == Symbol(Equal) && tokens[4] == Symbol(Semicolon)
    ensures tokens == PrintSetting(Setting(tokens[1].value, tokens[3])) + tokens[5..]
  {
    assert tokens[1] == Name(tokens[1].value);
  }

  lemma {:induction false} SettingsExact(c: Context, tokens: seq<Token>) returns (ss: seq<Setting>)
    requires AllScanned(tokens) && ParseLeaf(StreamScope, c, tokens).Parsed?
    ensures SettingsOk(ss) && tokens == PrintSettings(ss)
    ensures ParseLeaf(StreamScope, c, tokens).context == c.(options := Apply(c.options, ss))
    decreases |tokens|
  {
    if tokens == [] {
      ss := [];
    } else {
      var r := HandleLeaf(FirstRule(StreamScope, tokens).value, c, tokens);
      var s := SettingExact(c, tokens);
      ScannedTail(tokens, PrintSetting(s), r.rest);
      var rest := SettingsExact(r.context, r.rest);
      ss := [s] + rest;
      assert ss[1..] == rest;
    }
  }

  // ---------------------------------------------------------------- declarations

  /** The tokens up to the bracket that closes the scope. */
  lemma {:induction false} ClosedBody(tokens: seq<Token>) returns (body: seq<Token>)
    requires AllScanned(tokens) && Closing(tokens, 0).Some?
    ensures var n := Closing(tokens, 0).value;
            && body == tokens[..n] && tokens[..n + 1] == body + [Symbol(RBracket)]
            && AllScanned(body) && tokens == body + [Symbol(RBracket)] + tokens[n + 1..]
            && ClosesAtEnd(body + [Symbol(RBracket)])
  {
    var n := Closing(tokens, 0).value;
    ScannedSymbol(tokens, n, RBracket);
    ScannedRest(tokens, n);
    body := tokens[..n];
    assert tokens == body + [tokens[n]] + tokens[n + 1..];
    ClosingPrefix(tokens, 0);
  }

  /** A body that is accepted ends at its closing bracket, and is empty or parses. */
  lemma {:induction false} BodyExact(scope: Scope, c: Context, tokens: seq<Token>, extra: nat)
    returns (body: seq<Token>)
    requires scope != GlobalScope && extra <= 1 && (scope == ServiceScope ==> extra == 0)
    requires AllScanned(tokens) && HandleBody(scope, c, tokens, extra).Parsed?
    ensures var r := HandleBody(scope, c, tokens, extra);
            && AllScanned(body) && tokens == body + [Symbol(RBracket)] + r.rest
            && (body == [] ==> r.context == c)
            && (body != [] ==> ClosesAtEnd(body + [Symbol(RBracket)]))
            && (body != [] ==>
                  (if scope == ServiceScope then ParseService(c, body)
                   else ParseLeaf(scope, c, if extra == 1 then body + [Symbol(RBracket)] else body))
                  == Parsed(r.context, []))
  {
    if tokens[0].kind == RBracket {
      ScannedSymbol(tokens, 0, RBracket);
      body := [];
      assert tokens == [] + [tokens[0]] + tokens[1..];
    } else {
      body := ClosedBody(tokens);
    }
  }

  /** The closing bracket is found without what follows it. */
  lemma {:induction false} ClosingPrefix(tokens: seq<Token>, level: nat)
    requires Closing(tokens, level).Some?
    ensures var n := Closing(tokens, level).value;
            Closing(tokens[..n + 1], level) == Some(n)
    decreases |tokens|
  {
    var n := Closing(tokens, level).value;
    if n > 0 {
      ClosingPrefix(tokens[1..], Inner(tokens[0].kind, level));
      assert tokens[..n + 1][1..] == tokens[1..][..n];
    }
  }

  lemma {:induction false} BlockJoin(head: seq<Token>, body: seq<Token>, rest: seq<Token>)
    ensures head + [Symbol(LBracket)] + (body + [Symbol(RBracket)] + rest) == Block(head, body) + rest
  {
  }

  /** A declaration is what a round of the loop over a file took. */
  ghost predicate Took(d: Declaration, c: Context, tokens: seq<Token>, r: Parsed)
  {
    r.Parsed? && PrintableDeclaration(d) && tokens == PrintDeclaration(d) + r.rest && r.context == Declare(c, d)
  }

  lemma {:induction false} GlobalBegins()
    ensures Begins(Syntax(NamespaceRule), [Namespace, Identifier])
    ensures Begins(Syntax(DefineRule), [Define, Identifier, From, Quote])
    ensures Begins(Syntax(EnumRule), [Enum, Identifier, LBracket])
    ensures Begins(Syntax(StructRule), [Struct, Identifier, LBracket])
  {
  }

  lemma {:induction false} NamespaceExact(c: Context, tokens: seq<Token>) returns (d: Declaration)
    requires AllScanned(tokens) && MatchesRule(tokens, NamespaceRule) && HandleNamespace(c, tokens).Parsed?
    ensures Took(d, c, tokens, HandleNamespace(c, tokens))
  {
    GlobalBegins();
    HeadOf(tokens, NamespaceRule, [Namespace, Identifier]);
    d := NamespaceOf(tokens[1].value);
    assert tokens[1] == Name(tokens[1].value);
  }

  lemma {:induction false} DefineExact(c: Context, tokens: seq<Token>) returns (d: Declaration)
    requires AllScanned(tokens) && MatchesRule(tokens, DefineRule) && HandleDefine(c, tokens).Parsed?
    ensures Took(d, c, tokens, HandleDefine(c, tokens))
  {
    GlobalBegins();
    HeadOf(tokens, DefineRule, [Define, Identifier, From, Quote]);
    d := DefineOf(tokens[1].value, tokens[3].value);
    Four(tokens, Symbol(Define), Name(tokens[1].value), Symbol(From), Token(Quote, tokens[3].value));
  }

  /** The head of an enum or a struct. */
  lemma {:induction false} BlockHead(tokens: seq<Token>, rule: Rule, k: Kind)
    requires Begins(Syntax(rule), [k, Identifier, LBracket]) && Bare(k)
    requires AllScanned(tokens) && MatchesRule(tokens, rule) && |tokens| >= 3
    ensures tokens == [Symbol(k), Name(tokens[1].value)] + [Symbol(LBracket)] + tokens[3..]
  {
    HeadOf(tokens, rule, [k, Identifier, LBracket]);
    Three(tokens, Symbol(k), Name(tokens[1].value), Symbol(LBracket));
  }

  lemma {:induction false} ScannedBlock(body: seq<Token>)
    requires AllScanned(body)
    ensures AllScanned(body + [Symbol(RBracket)])
  {
  }

  lemma {:induction false} BeforeBracket(a: seq<Token>, b: seq<Token>)
    requires a + [Symbol(RBracket)] == b + [Symbol(RBracket)]
    ensures a == b
  {
    assert a == (a + [Symbol(RBracket)])[..|a|] && b == (b + [Symbol(RBracket)])[..|b|];
    assert |a| + 1 == |a + [Symbol(RBracket)]| == |b| + 1;
  }

  /** The body of an enum, up to its closing bracket. */
  lemma {:induction false} EnumBodyExact(c: Context, tokens: seq<Token>) returns (vs: seq<EnumValue>, trailing: bool)
    requires AllScanned(tokens) && c.values == [] && HandleBody(EnumScope, c, tokens, 1).Parsed?
    ensures var r := HandleBody(EnumScope, c, tokens, 1);
            && ValuesOk(vs) && tokens == PrintValues(vs, trailing) + [Symbol(RBracket)] + r.rest
            && r.context == c.(values := ValuesOf(vs))
  {
    var body := BodyExact(EnumScope, c, tokens, 1);
    vs, trailing := [], false;
    if body != [] {
      ScannedBlock(body);
      vs, trailing := ValuesExact(c, body + [Symbol(RBracket)]);
      BeforeBracket(body, PrintValues(vs, trailing));
    }
    assert c.values + ValuesOf(vs) == ValuesOf(vs);
  }

  lemma {:induction false} EnumMade(c: Context, tokens: seq<Token>, values: seq<ValueDefinition>, rest: seq<Token>)
    requires |tokens| >= 3 && HandleBody(EnumScope, c, tokens[3..], 1) == Parsed(c.(values := values), rest)
    requires c.values == []
    ensures HandleEnum(c, tokens) ==
            Parsed(c.(enums := c.enums + [EnumObject(c.namespace, tokens[1].value, values)]), rest)
  {
    assert c.(values := values).(values := []) == c;
  }

  lemma {:induction false} EnumTook(c: Context, tokens: seq<Token>, n: Value, vs: seq<EnumValue>, trailing: bool,
                                    rest: seq<Token>)
    requires ValuesOk(vs)
    requires tokens == [Symbol(Enum), Name(n)] + [Symbol(LBracket)] +
                       (PrintValues(vs, trailing) + [Symbol(RBracket)] + rest)
    ensures Took(EnumOf(n, vs, trailing), c, tokens,
                 Parsed(c.(enums := c.enums + [EnumObject(c.namespace, n, ValuesOf(vs))]), rest))
  {
    BlockJoin([Symbol(Enum), Name(n)], PrintValues(vs, trailing), rest);
  }

  lemma {:induction false} EnumReads(c: Context, tokens: seq<Token>)
    requires HandleEnum(c, tokens).Parsed?
    ensures |tokens| >= 3 && HandleBody(EnumScope, c, tokens[3..], 1).Parsed?
  {
  }

  lemma {:induction false} EnumExact(c: Context, tokens: seq<Token>) returns (d: Declaration)
    requires AllScanned(tokens) && MatchesRule(tokens, EnumRule) && Clean(c) && HandleEnum(c, tokens).Parsed?
    ensures Took(d, c, tokens, HandleEnum(c, tokens))
  {
    EnumReads(c, tokens);
    GlobalBegins();
    BlockHead(tokens, EnumRule, Enum);
    d := EnumFrom(c, tokens);
  }

  lemma {:induction false} EnumFrom(c: Context, tokens: seq<Token>) returns (d: Declaration)
    requires AllScanned(tokens) && c.values == [] && |tokens| >= 3
    requires tokens == [Symbol(Enum), Name(tokens[1].value)] + [Symbol(LBracket)] + tokens[3..]
    requires HandleBody(EnumScope, c, tokens[3..], 1).Parsed?
    ensures Took(d, c, tokens, HandleEnum(c, tokens))
  {
    ScannedRest(tokens, 3);
    var n, rest := tokens[1].value, HandleBody(EnumScope, c, tokens[3..], 1).rest;
    var values, trailing := EnumBodyExact(c, tokens[3..]);
    EnumMade(c, tokens, ValuesOf(values), rest);
    EnumTook(c, tokens, n, values, trailing, rest);
    d := EnumOf(n, values, trailing);
  }

  lemma {:induction false} StructBodyExact(c: Context, tokens: seq<Token>) returns (ms: seq<Member>)
    requires AllScanned(tokens) && c.members == [] && HandleBody(StructScope, c, tokens, 0).Parsed?
    ensures var r := HandleBody(StructScope, c, tokens, 0);
            tokens == PrintMembers(ms) + [Symbol(RBracket)] + r.rest && r.context == c.(members := ms)
  {
    var body := BodyExact(StructScope, c, tokens, 0);
    ms := [];
    if body != [] {
      ms := MembersExact(c, body);
    }
    assert c.members + ms == ms;
  }

  lemma {:induction false} StructMade(c: Context, tokens: seq<Token>, members: seq<Member>, rest: seq<Token>)
    requires |tokens| >= 3 && HandleBody(StructScope, c, tokens[3..], 0) == Parsed(c.(members := members), rest)
    requires c.members == []
    ensures HandleStruct(c, tokens) ==
            Parsed(c.(structs := c.structs + [StructObject(c.namespace, tokens[1].value, members)]), rest)
  {
    assert c.(members := members).(members := []) == c;
  }

  lemma {:induction false} StructTook(c: Context, tokens: seq<Token>, n: Value, ms: seq<Member>, rest: seq<Token>)
    requires tokens == [Symbol(Struct), Name(n)] + [Symbol(LBracket)] + (PrintMembers(ms) + [Symbol(RBracket)] + rest)
    ensures Took(StructOf(n, ms), c, tokens,
                 Parsed(c.(structs := c.structs + [StructObject(c.namespace, n, ms)]), rest))
  {
    BlockJoin([Symbol(Struct), Name(n)], PrintMembers(ms), rest);
  }

  lemma {:induction false} StructReads(c: Context, tokens: seq<Token>)
    requires HandleStruct(c, tokens).Parsed?
    ensures |tokens| >= 3 && HandleBody(StructScope, c, tokens[3..], 0).Parsed?
  {
  }

  lemma {:induction false} StructExact(c: Context, tokens: seq<Token>) returns (d: Declaration)
    requires AllScanned(tokens) && MatchesRule(tokens, StructRule) && Clean(c) && HandleStruct(c, tokens).Parsed?
    ensures Took(d, c, tokens, HandleStruct(c, tokens))
  {
    StructReads(c, tokens);
    GlobalBegins();
    BlockHead(tokens, StructRule, Struct);
    d := StructFrom(c, tokens);
  }

  lemma {:induction false} StructFrom(c: Context, tokens: seq<Token>) returns (d: Declaration)
    requires AllScanned(tokens) && c.members == [] && |tokens| >= 3
    requires tokens == [Symbol(Struct), Name(tokens[1].value)] + [Symbol(LBracket)] + tokens[3..]
    requires HandleBody(StructScope, c, tokens[3..], 0).Parsed?
    ensures Took(d, c, tokens, HandleStruct(c, tokens))
  {
    ScannedRest(tokens, 3);
    var n, rest := tokens[1].value, HandleBody(StructScope, c, tokens[3..], 0).rest;
    var members := StructBodyExact(c, tokens[3..]);
    StructMade(c, tokens, members, rest);
    StructTook(c, tokens, n, members, rest);
    d := StructOf(n, members);
  }

  /** The body of a message service, whatever its head. */
  lemma {:induction false} MessageBodyExact(c: Context, tokens: seq<Token>, id: Value, n: Value)
    returns (items: seq<Item>)
    requires AllScanned(tokens) && Clean(c) && HandleServiceBody(c, tokens, id, n, MESSAGE).Parsed?
    ensures var r := HandleServiceBody(c, tokens, id, n, MESSAGE);
            && AllPrintable(items) && tokens == PrintItems(items) + [Symbol(RBracket)] + r.rest
            && r.context == AddService(c, id, n, MESSAGE, items, map[])
  {
    assert c.(kind := MESSAGE) == c;
    var r := HandleBody(ServiceScope, c, tokens, 0);
    var body := BodyExact(ServiceScope, c, tokens, 0);
    items := [];
    if body != [] {
      items := ItemsExact(c, body);
    }
    ServiceMade(c, id, n, items);
  }

  lemma {:induction false} StreamBodyExact(c: Context, tokens: seq<Token>, n: Value) returns (ss: seq<Setting>)
    requires AllScanned(tokens) && Clean(c) && HandleServiceBody(c, tokens, NoValue, n, STREAM).Parsed?
    ensures var r := HandleServiceBody(c, tokens, NoValue, n, STREAM);
            && SettingsOk(ss) && tokens == PrintSettings(ss) + [Symbol(RBracket)] + r.rest
            && r.context == AddService(c, NoValue, n, STREAM, [], Apply(map[], ss))
  {
    var c1 := c.(kind := STREAM);
    var body := BodyExact(StreamScope, c1, tokens, 0);
    ss := [];
    if body != [] {
      ss := SettingsExact(c1, body);
    }
  }

  lemma {:induction false} OtherBodyExact(c: Context, tokens: seq<Token>, n: Value, kind: string)
    requires AllScanned(tokens) && Clean(c) && kind != MESSAGE && kind != STREAM
    requires HandleServiceBody(c, tokens, NoValue, n, kind).Parsed?
    ensures var r := HandleServiceBody(c, tokens, NoValue, n, kind);
            tokens == [] + [Symbol(RBracket)] + r.rest && r.context == AddService(c, NoValue, n, kind, [], map[])
  {
    ScannedSymbol(tokens, 0, RBracket);
    assert tokens == [] + [tokens[0]] + tokens[1..];
  }

  function LegacyHead(n: Value, id: Value): (head: seq<Token>)
  {
    [Symbol(Service), Name(n), Symbol(LParenthesis), Token(Digit, id), Symbol(RParenthesis)]
  }

  lemma {:induction false} ServiceBegins()
    ensures Begins(Syntax(LegacyServiceRule), [Service, Identifier, LParenthesis, Digit, RParenthesis, LBracket])
    ensures Begins(Syntax(LegacyServiceRule), [Service, Identifier, LParenthesis])
    ensures Begins(Syntax(KindServiceRule), [Service, Identifier, Colon, Identifier, LBracket])
    ensures Begins(Syntax(KindServiceRule), [Service, Identifier, Colon])
  {
  }

  lemma {:induction false} LegacyTokens(tokens: seq<Token>)
    requires AllScanned(tokens) && MatchesRule(tokens, LegacyServiceRule) && |tokens| >= 6
    ensures tokens == LegacyHead(tokens[1].value, tokens[3].value) + [Symbol(LBracket)] + tokens[6..]
  {
    ServiceBegins();
    HeadOf(tokens, LegacyServiceRule, [Service, Identifier, LParenthesis, Digit, RParenthesis, LBracket]);
    Three(tokens, Symbol(Service), Name(tokens[1].value), Symbol(LParenthesis));
    Three(tokens[3..], Token(Digit, tokens[3].value), Symbol(RParenthesis), Symbol(LBracket));
  }

  lemma {:induction false} LegacyTook(c: Context, tokens: seq<Token>, n: Value, id: Value, items: seq<Item>,
                                      rest: seq<Token>)
    requires AllPrintable(items)
    requires tokens == LegacyHead(n, id) + [Symbol(LBracket)] + (PrintItems(items) + [Symbol(RBracket)] + rest)
    ensures Took(LegacyService(n, id, items), c, tokens, Parsed(AddService(c, id, n, MESSAGE, items, map[]), rest))
  {
    BlockJoin(LegacyHead(n, id), PrintItems(items), rest);
  }

  /** Which body a service has, by the token after its name. */
  lemma {:induction false} ServiceReads(c: Context, tokens: seq<Token>)
    requires HandleService(c, tokens).Parsed?
    ensures |tokens| >= 3
    ensures tokens[2].kind == LParenthesis ==>
              |tokens| >= 6 && HandleService(c, tokens) ==
                               HandleServiceBody(c, tokens[6..], tokens[3].value, tokens[1].value, MESSAGE)
    ensures tokens[2].kind != LParenthesis ==>
              |tokens| >= 5 && tokens[3].value.Str? &&
              HandleService(c, tokens) ==
              HandleServiceBody(c, tokens[5..], NoValue, tokens[1].value, Text.Lower(tokens[3].value.text))
  {
  }

  lemma {:induction false} LegacyExact(c: Context, tokens: seq<Token>, body: seq<Token>, n: Value, id: Value)
    returns (d: Declaration)
    requires AllScanned(body) && Clean(c) && HandleServiceBody(c, body, id, n, MESSAGE).Parsed?
    requires tokens == LegacyHead(n, id) + [Symbol(LBracket)] + body
    ensures Took(d, c, tokens, HandleServiceBody(c, body, id, n, MESSAGE))
  {
    var items := MessageBodyExact(c, body, id, n);
    d := LegacyService(n, id, items);
    LegacyTook(c, tokens, n, id, items, HandleServiceBody(c, body, id, n, MESSAGE).rest);
  }

  lemma {:induction false} KindTokens(tokens: seq<Token>)
    requires AllScanned(tokens) && MatchesRule(tokens, KindServiceRule) && |tokens| >= 5
    ensures tokens[3].value.Str?
    ensures tokens == KindHead(tokens[1].value, tokens[3].value.text) + [Symbol(LBracket)] + tokens[5..]
  {
    ServiceBegins();
    HeadOf(tokens, KindServiceRule, [Service, Identifier, Colon, Identifier, LBracket]);
    assert Scanned(tokens[3]) && tokens[4] == Symbol(LBracket);
    Four(tokens, Symbol(Service), Name(tokens[1].value), Symbol(Colon), Name(tokens[3].value));
  }

  lemma {:induction false} ServiceExact(c: Context, tokens: seq<Token>, rule: Rule) returns (d: Declaration)
    requires rule == LegacyServiceRule || rule == KindServiceRule
    requires AllScanned(tokens) && MatchesRule(tokens, rule) && Clean(c) && HandleService(c, tokens).Parsed?
    ensures Took(d, c, tokens, HandleService(c, tokens))
  {
    ServiceReads(c, tokens);
    ServiceBegins();
    if rule == LegacyServiceRule {
      HeadOf(tokens, rule, [Service, Identifier, LParenthesis]);
      LegacyTokens(tokens);
      ScannedRest(tokens, 6);
      d := LegacyExact(c, tokens, tokens[6..], tokens[1].value, tokens[3].value);
    } else {
      HeadOf(tokens, rule, [Service, Identifier, Colon]);
      KindTokens(tokens);
      ScannedRest(tokens, 5);
      d := KindExact(c, tokens, tokens[5..], tokens[1].value, tokens[3].value.text);
    }
  }

  lemma {:induction false} KindExact(c: Context, tokens: seq<Token>, body: seq<Token>, n: Value, kind: string)
    returns (d: Declaration)
    requires AllScanned(body) && Clean(c) && HandleServiceBody(c, body, NoValue, n, Text.Lower(kind)).Parsed?
    requires tokens == KindHead(n, kind) + [Symbol(LBracket)] + body
    ensures Took(d, c, tokens, HandleServiceBody(c, body, NoValue, n, Text.Lower(kind)))
  {
    var rest := HandleServiceBody(c, body, NoValue, n, Text.Lower(kind)).rest;
    if Text.Lower(kind) == MESSAGE {
      var items := MessageBodyExact(c, body, NoValue, n);
      d := MessageService(n, kind, items);
      MessageTook(c, tokens, n, kind, items, rest);
    } else if Text.Lower(kind) == STREAM {
      var ss := StreamBodyExact(c, body, n);
      d := StreamService(n, kind, ss);
      StreamTook(c, tokens, n, kind, ss, rest);
    } else {
      OtherBodyExact(c, body, n, Text.Lower(kind));
      d := OtherService(n, kind);
      BlockJoin(KindHead(n, kind), [], rest);
    }
  }

  lemma {:induction false} MessageTook(c: Context, tokens: seq<Token>, n: Value, kind: string, items: seq<Item>,
                                       rest: seq<Token>)
    requires AllPrintable(items) && Text.Lower(kind) == MESSAGE
    requires tokens == KindHead(n, kind) + [Symbol(LBracket)] + (PrintItems(items) + [Symbol(RBracket)] + rest)
    ensures Took(MessageService(n, kind, items), c, tokens,
                 Parsed(AddService(c, NoValue, n, MESSAGE, items, map[]), rest))
  {
    BlockJoin(KindHead(n, kind), PrintItems(items), rest);
  }

  lemma {:induction false} StreamTook(c: Context, tokens: seq<Token>, n: Value, kind: string, ss: seq<Setting>,
                                      rest: seq<Token>)
    requires SettingsOk(ss) && Text.Lower(kind) == STREAM
    requires tokens == KindHead(n, kind) + [Symbol(LBracket)] + (PrintSettings(ss) + [Symbol(RBracket)] + rest)
    ensures Took(StreamService(n, kind, ss), c, tokens,
                 Parsed(AddService(c, NoValue, n, STREAM, [], Apply(map[], ss)), rest))
  {
    BlockJoin(KindHead(n, kind), PrintSettings(ss), rest);
  }

  /** One round of the loop over a file takes one printed declaration. */
  lemma {:induction false} DeclarationExact(c: Context, tokens: seq<Token>) returns (d: Declaration)
    requires AllScanned(tokens) && Clean(c) && FirstRule(GlobalScope, tokens).Some?
    requires HandleGlobal(FirstRule(GlobalScope, tokens).value, c, tokens).Parsed?
    ensures Took(d, c, tokens, HandleGlobal(FirstRule(GlobalScope, tokens).value, c, tokens))
  {
    FirstMatches(Rules(GlobalScope), tokens);
    var rule := FirstRule(GlobalScope, tokens).value;
    GlobalRules(rule);
    if rule == NamespaceRule {
      d := NamespaceExact(c, tokens);
    } else if rule == DefineRule {
      d := DefineExact(c, tokens);
    } else if rule == EnumRule {
      d := EnumExact(c, tokens);
    } else if rule == StructRule {
      d := StructExact(c, tokens);
    } else {
      d := ServiceExact(c, tokens, rule);
    }
  }

  lemma {:induction false} GlobalRules(rule: Rule)
    requires rule in Rules(GlobalScope)
    ensures rule in [NamespaceRule, DefineRule, EnumRule, StructRule, LegacyServiceRule, KindServiceRule]
  {
  }

  lemma {:induction false} DeclareClean(c: Context, d: Declaration)
    requires Clean(c)
    ensures Clean(Declare(c, d))
  {
  }

  /** A file that parses is the print of declarations, and means what they say. */
  lemma {:induction false} FileExact(c: Context, tokens: seq<Token>) returns (ds: seq<Declaration>)
    requires AllScanned(tokens) && Clean(c) && ParseFile(c, tokens).Parsed?
    ensures AllDeclarable(ds) && tokens == PrintFile(ds)
    ensures ParseFile(c, tokens).context == DeclareAll(c, ds)
    decreases |tokens|
  {
    if tokens == [] {
      ds := [];
    } else {
      var r := HandleGlobal(FirstRule(GlobalScope, tokens).value, c, tokens);
      var d := DeclarationExact(c, tokens);
      DeclareClean(c, d);
      ScannedTail(tokens, PrintDeclaration(d), r.rest);
      var rest := FileExact(r.context, r.rest);
      ds := [d] + rest;
      assert ds[1..] == rest;
    }
  }

  ghost predicate Prints(tokens: seq<Token>, ds: seq<Declaration>)
  {
    AllDeclarable(ds) && tokens == PrintFile(ds)
  }

  /** The files that are accepted are exactly the prints of declarations, and each means what they say. */
  lemma {:induction false} FilesExactly(c: Context, tokens: seq<Token>)
    requires AllScanned(tokens) && Clean(c)
    ensures ParseFile(c, tokens).Parsed? <==> exists ds :: Prints(tokens, ds)
    ensures forall ds | Prints(tokens, ds) :: ParseFile(c, tokens) == Parsed(DeclareAll(c, ds), [])
  {
    forall ds | Prints(tokens, ds)
      ensures ParseFile(c, tokens) == Parsed(DeclareAll(c, ds), [])
    {
      FileRoundTrip(c, ds);
    }
    if ParseFile(c, tokens).Parsed? {
      var ds := FileExact(c, tokens);
      assert Prints(tokens, ds);
    }
  }
}
