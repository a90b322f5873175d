/** Parsing a printed protocol file gives back what it declares. */
module ProtocolRoundTrip {
  import opened Options
  import opened ProtocolTokens
  import opened ProtocolParser
  import opened ProtocolPrinter

  // ---------------------------------------------------------------- services

  /** A line of a message service. */
  datatype Item =
    | FuncItem(name: Value, id: Value, request: ParamForm, response: ParamForm)
    | EventItem(name: Value, id: Value, params: ParamForm)

  predicate Printable(item: Item)
  {
    match item
    case FuncItem(_, _, request, response) => FormOk(request) && FormOk(response)
    case EventItem(_, _, params) => FormOk(params) && (params.Listed? ==> params.params != [])
  }

  function Ending(id: Value): (tokens: seq<Token>)
  {
    [Symbol(Equal), Token(Digit, id), Symbol(Semicolon)]
  }

  function PrintFunc(name: Value, request: seq<Token>, response: seq<Token>, id: Value): (tokens: seq<Token>)
  {
    FuncHead(name) + request + Between() + response + [Symbol(RParenthesis)] + Ending(id)
  }

  function PrintEvent(name: Value, params: seq<Token>, id: Value): (tokens: seq<Token>)
  {
    EventHead(name) + params + [Symbol(RParenthesis)] + Ending(id)
  }

  function PrintTypedEvent(name: Value, id: Value, t: Value): (tokens: seq<Token>)
  {
    [Symbol(Event), Name(name), Symbol(Colon), Name(t)] + Ending(id)
  }

  function PrintItem(item: Item): (tokens: seq<Token>)
    requires Printable(item)
  {
    match item
    case FuncItem(n, id, request, response) => PrintFunc(n, PrintForm(request), PrintForm(response), id)
    case EventItem(n, id, params) =>
      if params.Listed? then PrintEvent(n, PrintParams(params.params), id) else PrintTypedEvent(n, id, params.typename)
  }

  function AddItem(c: Context, item: Item): (c': Context)
  {
    match item
    case FuncItem(n, id, request, response) =>
      c.(functions := c.functions + [Function(n, id, ParamsOf(request), ParamsOf(response))])
    case EventItem(n, id, params) => c.(events := c.events + [EventObject(n, id, ParamsOf(params))])
  }

  /** The syntax has the places of `head`, then a run that ends at a token of kind `k`; `after` is the rest. */
  predicate HeadFits(head: seq<Token>, syntax: seq<Pattern>, k: Kind, after: seq<Pattern>)
  {
    && |head| + 1 < |syntax| && (forall i | 0 <= i < |head| :: Accepts(syntax[i], head[i].kind))
    && syntax[|head|].Run? && syntax[|head| + 1] == Is(k) && syntax[|head| + 1..] == after
  }

  /** Fixed places, then a run of tokens up to the first token of the kind that ends it. */
  lemma {:induction false} RunMatches(head: seq<Token>, init: seq<Token>, rest: seq<Token>,
                                      syntax: seq<Pattern>, k: Kind, after: seq<Pattern>)
    requires WellFormed(syntax) && HeadFits(head, syntax, k, after)
    requires rest != [] && rest[0].kind == k && Without(init, k)
    ensures WellFormed(after)
    ensures Matches(head + (init + rest), syntax) <==> Matches(rest, after)
  {
    var n := |head|;
    var tokens := head + (init + rest);
    MatchesAfter(tokens, syntax, n);
    assert tokens[n..] == init + rest && syntax[n..][1..] == after;
    SkipOver(init, rest, k);
  }

  lemma {:induction false} RunMatchesRule(head: seq<Token>, init: seq<Token>, rest: seq<Token>,
                                          rule: Rule, k: Kind, after: seq<Pattern>)
    requires HeadFits(head, Syntax(rule), k, after)
    requires rest != [] && rest[0].kind == k && Without(init, k)
    requires WellFormed(after) && Matches(rest, after)
    ensures MatchesRule(head + (init + rest), rule)
  {
    SyntaxWellFormed(rule);
    RunMatches(head, init, rest, Syntax(rule), k, after);
  }

  function FuncMiddle(): (syntax: seq<Pattern>)
  {
    [Is(RParenthesis), Is(Colon), Is(LParenthesis), Run, Is(RParenthesis), Is(Equal), Is(Digit),
     Is(Semicolon)]
  }

  function EndingSyntax(): (syntax: seq<Pattern>)
  {
    [Is(RParenthesis), Is(Equal), Is(Digit), Is(Semicolon)]
  }

  /** The tokens that end a function or an event, with the parenthesis before them. */
  function Closed(id: Value, tail: seq<Token>): (tokens: seq<Token>)
  {
    [Symbol(RParenthesis)] + Ending(id) + tail
  }

  lemma {:induction false} ClosedShape(id: Value, tail: seq<Token>)
    ensures |Closed(id, tail)| >= 4 && Closed(id, tail)[0].kind == RParenthesis
    ensures forall i | 0 <= i < 4 :: Accepts(EndingSyntax()[i], Closed(id, tail)[i].kind)
  {
  }

  lemma {:induction false} EndingMatches(id: Value, tail: seq<Token>)
    ensures WellFormed(EndingSyntax())
    ensures Matches(Closed(id, tail), EndingSyntax())
  {
    WellFormedPlaces(EndingSyntax());
    ClosedShape(id, tail);
    MatchesAfter(Closed(id, tail), EndingSyntax(), 4);
  }

  /** What stands between request and response. */
  function Between(): (tokens: seq<Token>)
  {
    [Symbol(RParenthesis), Symbol(Colon), Symbol(LParenthesis)]
  }

  lemma {:induction false} MiddleFits()
    ensures WellFormed(FuncMiddle()) && HeadFits(Between(), FuncMiddle(), RParenthesis, EndingSyntax())
  {
    WellFormedPlaces(FuncMiddle());
    assert FuncMiddle()[4..] == EndingSyntax();
  }

  lemma {:induction false} MiddleMatches(response: seq<Token>, id: Value, tail: seq<Token>)
    requires Plain(response)
    ensures WellFormed(FuncMiddle())
    ensures Matches(Between() + (response + Closed(id, tail)), FuncMiddle())
  {
    MiddleFits();
    EndingMatches(id, tail);
    ClosedShape(id, tail);
    RunMatches(Between(), response, Closed(id, tail), FuncMiddle(), RParenthesis, EndingSyntax());
  }

  lemma {:induction false} Regroup<T>(a: seq<T>, b: seq<T>, c: seq<T>, d: seq<T>, e: seq<T>, f: seq<T>, tail: seq<T>)
    ensures a + b + c + d + e + f + tail == a + (b + (c + (d + (e + f + tail))))
  {
    var g := e + f + tail;
    assert a + b + c + d + e + f + tail == a + b + c + d + g;
    assert a + b + c + d + g == a + b + c + (d + g);
    assert a + b + c + (d + g) == a + b + (c + (d + g));
    assert a + b + (c + (d + g)) == a + (b + (c + (d + g)));
  }

  function FuncHead(name: Value): (tokens: seq<Token>)
  {
    [Symbol(Func), Name(name), Symbol(LParenthesis)]
  }

  function EventHead(name: Value): (tokens: seq<Token>)
  {
    [Symbol(Event), Name(name), Symbol(Colon), Symbol(LParenthesis)]
  }

  lemma {:induction false} FuncHeadFits(name: Value)
    ensures HeadFits(FuncHead(name), Syntax(FuncRule), RParenthesis, FuncMiddle())
  {
    assert Syntax(FuncRule)[4..] == FuncMiddle();
  }

  lemma {:induction false} EventHeadFits(name: Value)
    ensures HeadFits(EventHead(name), Syntax(VariableEventRule), RParenthesis, EndingSyntax())
  {
    assert Syntax(VariableEventRule)[5..] == EndingSyntax();
  }

  lemma {:induction false} FuncMatches(name: Value, request: seq<Token>, response: seq<Token>,
                                       id: Value, tail: seq<Token>)
    requires Plain(request) && Plain(response)
    ensures MatchesRule(PrintFunc(name, request, response, id) + tail, FuncRule)
  {
    MiddleMatches(response, id, tail);
    FuncHeadFits(name);
    var middle := Between() + (response + Closed(id, tail));
    RunMatchesRule(FuncHead(name), request, middle, FuncRule, RParenthesis, FuncMiddle());
    Regroup(FuncHead(name), request, Between(), response, [Symbol(RParenthesis)], Ending(id), tail);
  }

  lemma {:induction false} EventMatches(name: Value, params: seq<Token>, id: Value, tail: seq<Token>)
    requires Plain(params)
    ensures MatchesRule(PrintEvent(name, params, id) + tail, VariableEventRule)
  {
    EndingMatches(id, tail);
    ClosedShape(id, tail);
    EventHeadFits(name);
    RunMatchesRule(EventHead(name), params, Closed(id, tail), VariableEventRule, RParenthesis, EndingSyntax());
    EventShape(EventHead(name), params, [Symbol(RParenthesis)], Ending(id), tail);
  }

  lemma {:induction false} EventShape<T>(a: seq<T>, b: seq<T>, c: seq<T>, d: seq<T>, tail: seq<T>)
    ensures a + b + c + d + tail == a + (b + (c + d + tail))
    ensures (a + b + c + d + tail)[|a|..] == b + c + (d + tail)
  {
    assert a + b + c + d + tail == a + (b + (c + d + tail));
    assert b + (c + d + tail) == b + c + (d + tail);
  }

  lemma {:induction false} FindsEvent(tokens: seq<Token>)
    requires tokens != [] && tokens[0].kind == Event && MatchesRule(tokens, VariableEventRule)
    ensures FirstRule(ServiceScope, tokens) == Some(VariableEventRule)
  {
    NotRule(tokens, FuncRule, 0);
    FirstIs(Rules(ServiceScope), 1, tokens);
  }

  lemma {:induction false} FindsTypedEvent(tokens: seq<Token>)
    requires |tokens| >= 7 && tokens[0].kind == Event && tokens[1].kind == Identifier
    requires tokens[2].kind == Colon && tokens[3].kind == Identifier && tokens[4].kind == Equal
    requires tokens[5].kind == Digit && tokens[6].kind == Semicolon
    ensures FirstRule(ServiceScope, tokens) == Some(EventRule)
  {
    NotRule(tokens, FuncRule, 0);
    NotRule(tokens, VariableEventRule, 3);
    IsRule(tokens, EventRule);
    FirstIs(Rules(ServiceScope), 2, tokens);
  }

  /** One round of the loop over a service body. */
  lemma {:induction false} ServiceRound(rule: Rule, c: Context, tokens: seq<Token>, c': Context, rest: seq<Token>)
    requires tokens != [] && FirstRule(ServiceScope, tokens) == Some(rule)
    requires HandleInService(rule, c, tokens) == Parsed(c', rest)
    ensures ParseService(c, tokens) == ParseService(c', rest)
  {
  }

  lemma {:induction false} FuncShape(name: Value, request: seq<Token>, response: seq<Token>, id: Value,
                                     tail: seq<Token>)
    ensures var tokens := PrintFunc(name, request, response, id) + tail;
            && |tokens| >= 3 && tokens[1] == Name(name)
            && tokens[3..] ==
               request + [Symbol(RParenthesis)] +
               ([Symbol(Colon), Symbol(LParenthesis)] +
                (response + [Symbol(RParenthesis)] + (Ending(id) + tail)))
  {
    var head, between := FuncHead(name), Between();
    var close := [Symbol(RParenthesis)];
    var open := [Symbol(Colon), Symbol(LParenthesis)];
    Regroup(head, request, between, response, close, Ending(id), tail);
    var last := response + (close + Ending(id) + tail);
    assert last == response + close + (Ending(id) + tail);
    assert between + last == close + (open + last);
    assert request + (between + last) == request + close + (open + last);
  }

  /** What the handler makes of a function's tokens once its parameters are read. */
  lemma {:induction false} FuncReads(c: Context, tokens: seq<Token>, request: seq<Member>, rest1: seq<Token>,
                                     response: seq<Member>, rest2: seq<Token>)
    requires c.members == [] && |tokens| >= 3 && |rest1| >= 2 && |rest2| >= 3
    requires HandleParams(c, tokens[3..]) == Parsed(c.(members := request), rest1)
    requires HandleParams(c, rest1[2..]) == Parsed(c.(members := response), rest2)
    ensures HandleFunc(c, tokens) ==
            Parsed(c.(functions := c.functions + [Function(tokens[1].value, rest2[1].value, request, response)]),
                   rest2[3..])
  {
    assert c.(members := request).(members := []) == c && c.(members := response).(members := []) == c;
  }

  lemma {:induction false} FormHandled(c: Context, f: ParamForm, tail: seq<Token>)
    requires c.members == [] && FormOk(f)
    ensures HandleParams(c, PrintForm(f) + [Symbol(RParenthesis)] + tail) == Parsed(c.(members := ParamsOf(f)), tail)
  {
    ParamsHandled(c, f, tail);
    assert c.members + ParamsOf(f) == ParamsOf(f);
  }

  lemma {:induction false} FuncHandled(c: Context, n: Value, id: Value, request: ParamForm, response: ParamForm,
                                       tail: seq<Token>)
    requires c.members == [] && FormOk(request) && FormOk(response)
    ensures var item := FuncItem(n, id, request, response);
            HandleFunc(c, PrintItem(item) + tail) == Parsed(AddItem(c, item), tail)
  {
    var last := Ending(id) + tail;
    var results := PrintForm(response) + [Symbol(RParenthesis)] + last;
    var middle := [Symbol(Colon), Symbol(LParenthesis)] + results;
    FuncShape(n, PrintForm(request), PrintForm(response), id, tail);
    FormHandled(c, request, middle);
    FormHandled(c, response, last);
    assert middle[2..] == results;
    EndingShape(id, tail);
    FuncReads(c, PrintItem(FuncItem(n, id, request, response)) + tail,
              ParamsOf(request), middle, ParamsOf(response), last);
  }

  lemma {:induction false} EndingShape(id: Value, tail: seq<Token>)
    ensures var last := Ending(id) + tail;
            |last| >= 3 && last[1].value == id && last[3..] == tail
  {
  }

  lemma {:induction false} EventTokens(name: Value, params: seq<Token>, id: Value, tail: seq<Token>)
    ensures var tokens := PrintEvent(name, params, id) + tail;
            && |tokens| >= 4 && tokens[0].kind == Event && tokens[1].value == name
            && tokens[3].kind == LParenthesis
            && tokens[4..] == params + [Symbol(RParenthesis)] + (Ending(id) + tail)
  {
    EventShape(EventHead(name), params, [Symbol(RParenthesis)], Ending(id), tail);
  }

  /** What the handler makes of an event's tokens once its parameters are read. */
  lemma {:induction false} EventReads(c: Context, tokens: seq<Token>, params: seq<Member>, last: seq<Token>)
    requires |tokens| >= 4 && tokens[3].kind != Identifier && |last| >= 3
    requires c.members == [] && HandleParamList(c, tokens[4..]) == Parsed(c.(members := params), last)
    ensures HandleEvent(c, tokens) ==
            Parsed(c.(events := c.events + [EventObject(tokens[1].value, last[1].value, params)]), last[3..])
  {
    var c1 := c.(members := params);
    assert c1.(members := []) == c;
  }

  lemma {:induction false} EventHandled(c: Context, n: Value, id: Value, ps: seq<Member>, tail: seq<Token>)
    requires c.members == [] && AreParams(ps) && ps != []
    ensures HandleEvent(c, PrintEvent(n, PrintParams(ps), id) + tail) ==
            Parsed(AddItem(c, EventItem(n, id, Listed(ps))), tail)
  {
    var last := Ending(id) + tail;
    EventTokens(n, PrintParams(ps), id, tail);
    EndingShape(id, tail);
    ParamListHandled(c, ps, last);
    assert c.members + ps == ps;
    EventReads(c, PrintEvent(n, PrintParams(ps), id) + tail, ps, last);
  }

  lemma {:induction false} FuncParsed(c: Context, n: Value, id: Value, request: ParamForm, response: ParamForm,
                                      tail: seq<Token>)
    requires c.members == [] && FormOk(request) && FormOk(response)
    ensures var item := FuncItem(n, id, request, response);
            ParseService(c, PrintItem(item) + tail) == ParseService(AddItem(c, item), tail)
  {
    var item := FuncItem(n, id, request, response);
    var tokens := PrintItem(item) + tail;
    FormPlain(request);
    FormPlain(response);
    FuncMatches(n, PrintForm(request), PrintForm(response), id, tail);
    FirstIs(Rules(ServiceScope), 0, tokens);
    FuncHandled(c, n, id, request, response, tail);
    ServiceRound(FuncRule, c, tokens, AddItem(c, item), tail);
  }

  lemma {:induction false} EventParsed(c: Context, n: Value, id: Value, ps: seq<Member>, tail: seq<Token>)
    requires c.members == [] && AreParams(ps) && ps != []
    ensures ParseService(c, PrintEvent(n, PrintParams(ps), id) + tail) ==
            ParseService(AddItem(c, EventItem(n, id, Listed(ps))), tail)
  {
    var tokens := PrintEvent(n, PrintParams(ps), id) + tail;
    ParamsPlain(ps);
    EventMatches(n, PrintParams(ps), id, tail);
    EventTokens(n, PrintParams(ps), id, tail);
    FindsEvent(tokens);
    EventHandled(c, n, id, ps, tail);
    ServiceRound(VariableEventRule, c, tokens, AddItem(c, EventItem(n, id, Listed(ps))), tail);
  }

  lemma {:induction false} TypedEventTokens(n: Value, id: Value, t: Value, tail: seq<Token>)
    ensures var tokens := PrintTypedEvent(n, id, t) + tail;
            && |tokens| >= 7 && tokens[0].kind == Event && tokens[1] == Name(n)
            && tokens[2].kind == Colon && tokens[3] == Name(t) && tokens[4].kind == Equal
            && tokens[5] == Token(Digit, id) && tokens[6].kind == Semicolon && tokens[7..] == tail
  {
  }

  lemma {:induction false} TypedEventReads(c: Context, tokens: seq<Token>)
    requires c.members == [] && |tokens| >= 7 && tokens[3].kind == Identifier
    ensures var t := tokens[3].value;
            HandleEvent(c, tokens) ==
            Parsed(AddItem(c, EventItem(tokens[1].value, tokens[5].value, Lone(t))), tokens[7..])
  {
    var t := tokens[3].value;
    assert c.members + [Variable(t, t, false)] == [Variable(t, t, false)];
    assert tokens[4..][3..] == tokens[7..] && tokens[4..][1] == tokens[5];
    assert WithMember(c, Variable(t, t, false)).(members := []) == c;
  }

  lemma {:induction false} TypedEventParsed(c: Context, n: Value, id: Value, t: Value, tail: seq<Token>)
    requires c.members == []
    ensures ParseService(c, PrintTypedEvent(n, id, t) + tail) ==
            ParseService(AddItem(c, EventItem(n, id, Lone(t))), tail)
  {
    var tokens := PrintTypedEvent(n, id, t) + tail;
    TypedEventTokens(n, id, t, tail);
    FindsTypedEvent(tokens);
    TypedEventReads(c, tokens);
    ServiceRound(EventRule, c, tokens, AddItem(c, EventItem(n, id, Lone(t))), tail);
  }

  lemma {:induction false} ItemParsed(c: Context, item: Item, tail: seq<Token>)
    requires c.members == [] && Printable(item)
    ensures ParseService(c, PrintItem(item) + tail) == ParseService(AddItem(c, item), tail)
  {
    match item
    case FuncItem(n, id, request, response) => FuncParsed(c, n, id, request, response, tail);
    case EventItem(n, id, params) =>
      if params.Listed? {
        EventParsed(c, n, id, params.params, tail);
      } else {
        TypedEventParsed(c, n, id, params.typename, tail);
      }
  }

  predicate AllPrintable(items: seq<Item>)
  {
    forall i | 0 <= i < |items| :: Printable(items[i])
  }

  function PrintItems(items: seq<Item>): (tokens: seq<Token>)
    requires AllPrintable(items)
  {
    if items == [] then [] else PrintItem(items[0]) + PrintItems(items[1..])
  }

  function AddItems(c: Context, items: seq<Item>): (c': Context)
    decreases |items|
  {
    if items == [] then c else AddItems(AddItem(c, items[0]), items[1..])
  }

  /** A printed service body is read back line by line, in any mix of functions and events. */
  lemma {:induction false} ItemsRoundTrip(c: Context, items: seq<Item>)
    requires c.members == [] && AllPrintable(items)
    ensures ParseService(c, PrintItems(items)) == Parsed(AddItems(c, items), [])
    decreases |items|
  {
    if items != [] {
      ItemParsed(c, items[0], PrintItems(items[1..]));
      ItemsRoundTrip(AddItem(c, items[0]), items[1..]);
    }
  }

  lemma {:induction false} EmptyListRefused(c: Context, tail: seq<Token>)
    ensures HandleParamList(c, [] + [Symbol(RParenthesis)] + tail) == Failed(UnknownSyntax)
  {
    var params := [] + [Symbol(RParenthesis)] + tail;
    ParameterEndFound([], tail);
    assert params[..1] == [Symbol(RParenthesis)];
    ParenthesisAlone(c);
  }

  /** An event without parameters cannot be written in parentheses. */
  lemma {:induction false} EmptyEventRefused(c: Context, name: Value, id: Value, tail: seq<Token>)
    ensures ParseService(c, PrintEvent(name, [], id) + tail) == Failed(UnknownSyntax)
  {
    var tokens := PrintEvent(name, [], id) + tail;
    EventMatches(name, [], id, tail);
    EventTokens(name, [], id, tail);
    FindsEvent(tokens);
    EmptyListRefused(c, Ending(id) + tail);
  }

  /** An event with its parameters in parentheses is accepted if and only if it has any, and then read back. */
  lemma {:induction false} EventExactly(c: Context, n: Value, id: Value, ps: seq<Member>, tail: seq<Token>)
    requires c.members == [] && AreParams(ps)
    ensures ParseService(c, PrintEvent(n, PrintParams(ps), id) + tail) ==
            if ps == [] then Failed(UnknownSyntax) else ParseService(AddItem(c, EventItem(n, id, Listed(ps))), tail)
    ensures ParseService(c, PrintEvent(n, PrintParams(ps), id) + []).Parsed? <==> ps != []
  {
    if ps == [] {
      EmptyEventRefused(c, n, id, tail);
      EmptyEventRefused(c, n, id, []);
    } else {
      EventParsed(c, n, id, ps, tail);
      EventParsed(c, n, id, ps, []);
    }
  }

  lemma {:induction false} ParenthesisAlone(c: Context)
    ensures ParseLeaf(ParamScope, c, [Symbol(RParenthesis)]) == Failed(UnknownSyntax)
  {
    var tokens := [Symbol(RParenthesis)];
    NotRule(tokens, ParamRule, 0);
    NotRule(tokens, ArrayParamRule, 0);
    FirstMatchFrom(Rules(ParamScope), tokens, 2);
    assert Rules(ParamScope)[2..] == [];
  }

  // ---------------------------------------------------------------- enums and options

  /** A name or a number, as values of enums and options are. */
  predicate IsWord(t: Token)
  {
    t.kind == Identifier || t.kind == Digit
  }

  /** A value of an enum, with or without the word that it is set to. */
  datatype EnumValue = EnumValue(name: Value, value: Option<Token>)

  predicate ValueOk(v: EnumValue)
  {
    v.value.Some? ==> IsWord(v.value.value)
  }

  function ValueOf(v: EnumValue): (d: ValueDefinition)
  {
    ValueDefinition(v.name, if v.value.Some? then v.value.value.value else NoValue)
  }

  function ValuesOf(vs: seq<EnumValue>): (ds: seq<ValueDefinition>)
  {
    if vs == [] then [] else [ValueOf(vs[0])] + ValuesOf(vs[1..])
  }

  predicate ValuesOk(vs: seq<EnumValue>)
  {
    forall i | 0 <= i < |vs| :: ValueOk(vs[i])
  }

  function PrintValue(v: EnumValue): (tokens: seq<Token>)
  {
    if v.value.None? then [Name(v.name)] else [Name(v.name), Symbol(Equal), v.value.value]
  }

  /** The values of an enum up to its closing bracket; a comma may stand before the bracket. */
  function PrintValues(vs: seq<EnumValue>, trailing: bool): (tokens: seq<Token>)
  {
    if vs == [] then []
    else if |vs| == 1 then PrintValue(vs[0]) + if trailing then [Symbol(Comma)] else []
    else PrintValue(vs[0]) + [Symbol(Comma)] + PrintValues(vs[1..], trailing)
  }

  function WithValue(c: Context, d: ValueDefinition): (c': Context)
  {
    c.(values := c.values + [d])
  }

  lemma {:induction false} FindsName(tokens: seq<Token>)
    requires |tokens| >= 2 && tokens[0].kind == Identifier && tokens[1].kind in [Comma, RBracket]
    ensures FirstRule(EnumScope, tokens) == Some(NameRule)
  {
    NotRule(tokens, ValueRule, 1);
    IsRule(tokens, NameRule);
    FirstIs(Rules(EnumScope), 1, tokens);
  }

  lemma {:induction false} FindsValue(tokens: seq<Token>)
    requires |tokens| >= 4 && tokens[0].kind == Identifier && tokens[1].kind == Equal
    requires tokens[2].kind in [Identifier, Digit] && tokens[3].kind in [Comma, RBracket]
    ensures FirstRule(EnumScope, tokens) == Some(ValueRule)
  {
    IsRule(tokens, ValueRule);
    FirstIs(Rules(EnumScope), 0, tokens);
  }

  /** What follows a value goes with it: a comma before another value, a closing bracket, or both. */
  predicate Separates(end: seq<Token>, tail: seq<Token>)
  {
    || end == [Symbol(RBracket)]
    || end == [Symbol(Comma), Symbol(RBracket)]
    || (end == [Symbol(Comma)] && tail != [] && tail[0].kind != RBracket)
  }

  lemma {:induction false} SeparatorDropped(c: Context, end: seq<Token>, tail: seq<Token>)
    requires Separates(end, tail)
    ensures AfterEnumMember(c, end + tail) == Parsed(c, tail)
  {
    var tokens := end + tail;
    if end == [Symbol(RBracket)] {
      assert tokens[1..] == tail;
    } else if end == [Symbol(Comma)] {
      assert tokens[1..] == tail;
    } else {
      assert tokens[1..] == [Symbol(RBracket)] + tail && tokens[1..][1..] == tail;
    }
  }

  lemma {:induction false} NameParsed(c: Context, n: Value, end: seq<Token>, tail: seq<Token>)
    requires Separates(end, tail)
    ensures ParseLeaf(EnumScope, c, [Name(n)] + (end + tail)) ==
            ParseLeaf(EnumScope, WithValue(c, ValueDefinition(n, NoValue)), tail)
  {
    var tokens := [Name(n)] + (end + tail);
    assert tokens[0] == Name(n) && tokens[1] == end[0] && tokens[1..] == end + tail;
    FindsName(tokens);
    var c' := WithValue(c, ValueDefinition(n, NoValue));
    SeparatorDropped(c', end, tail);
    LeafRound(EnumScope, NameRule, c, tokens, c', tail);
  }

  lemma {:induction false} NumberTokens(n: Value, word: Token, end: seq<Token>, tail: seq<Token>)
    requires end != []
    ensures var tokens := [Name(n), Symbol(Equal), word] + (end + tail);
            && tokens[0] == Name(n) && tokens[1] == Symbol(Equal) && tokens[2] == word
            && tokens[3] == end[0] && tokens[3..] == end + tail
  {
  }

  lemma {:induction false} NumberParsed(c: Context, n: Value, word: Token, end: seq<Token>, tail: seq<Token>)
    requires Separates(end, tail) && IsWord(word)
    ensures ParseLeaf(EnumScope, c, [Name(n), Symbol(Equal), word] + (end + tail)) ==
            ParseLeaf(EnumScope, WithValue(c, ValueDefinition(n, word.value)), tail)
  {
    var tokens := [Name(n), Symbol(Equal), word] + (end + tail);
    NumberTokens(n, word, end, tail);
    FindsValue(tokens);
    var c' := WithValue(c, ValueDefinition(n, word.value));
    SeparatorDropped(c', end, tail);
    LeafRound(EnumScope, ValueRule, c, tokens, c', tail);
  }

  lemma {:induction false} ValueParsed(c: Context, v: EnumValue, end: seq<Token>, tail: seq<Token>)
    requires Separates(end, tail) && ValueOk(v)
    ensures ParseLeaf(EnumScope, c, PrintValue(v) + (end + tail)) ==
            ParseLeaf(EnumScope, WithValue(c, ValueOf(v)), tail)
  {
    if v.value.None? {
      NameParsed(c, v.name, end, tail);
    } else {
      NumberParsed(c, v.name, v.value.value, end, tail);
    }
  }

  lemma {:induction false} ValuesCollected(c: Context, vs: seq<EnumValue>)
    requires vs != []
    ensures var c' := WithValue(c, ValueOf(vs[0]));
            c'.(values := c'.values + ValuesOf(vs[1..])) == c.(values := c.values + ValuesOf(vs))
  {
    assert c.values + [ValueOf(vs[0])] + ValuesOf(vs[1..]) == c.values + ValuesOf(vs);
  }

  /** How the last value of an enum ends. */
  function LastEnd(trailing: bool): (end: seq<Token>)
  {
    if trailing then [Symbol(Comma), Symbol(RBracket)] else [Symbol(RBracket)]
  }

  lemma {:induction false} OneValueShape(v: EnumValue, trailing: bool)
    ensures PrintValues([v], trailing) + [Symbol(RBracket)] == PrintValue(v) + (LastEnd(trailing) + [])
  {
  }

  lemma {:induction false} ValuesShape(v: EnumValue, vs: seq<EnumValue>, trailing: bool)
    requires vs != []
    ensures var tail := PrintValues(vs, trailing) + [Symbol(RBracket)];
            && tail[0] == Name(vs[0].name)
            && PrintValues([v] + vs, trailing) + [Symbol(RBracket)] == PrintValue(v) + ([Symbol(Comma)] + tail)
  {
    assert ([v] + vs)[1..] == vs;
  }

  lemma {:induction false} ValuesRoundTrip(c: Context, vs: seq<EnumValue>, trailing: bool)
    requires vs != [] && ValuesOk(vs)
    ensures ParseLeaf(EnumScope, c, PrintValues(vs, trailing) + [Symbol(RBracket)]) ==
            Parsed(c.(values := c.values + ValuesOf(vs)), [])
    decreases |vs|
  {
    var v, rest := vs[0], vs[1..];
    assert vs == [v] + rest;
    ValuesCollected(c, vs);
    if rest == [] {
      OneValueShape(v, trailing);
      ValueParsed(c, v, LastEnd(trailing), []);
    } else {
      ValuesShape(v, rest, trailing);
      ValueParsed(c, v, [Symbol(Comma)], PrintValues(rest, trailing) + [Symbol(RBracket)]);
      ValuesRoundTrip(WithValue(c, ValueOf(v)), rest, trailing);
    }
  }

  datatype Setting = Setting(key: Value, value: Token)

  predicate SettingsOk(ss: seq<Setting>)
  {
    forall i | 0 <= i < |ss| :: IsWord(ss[i].value)
  }

  function PrintSetting(s: Setting): (tokens: seq<Token>)
  {
    [Symbol(OptionWord), Name(s.key), Symbol(Equal), s.value, Symbol(Semicolon)]
  }

  function PrintSettings(ss: seq<Setting>): (tokens: seq<Token>)
  {
    if ss == [] then [] else PrintSetting(ss[0]) + PrintSettings(ss[1..])
  }

  /** Later settings of a key replace earlier ones. */
  function Apply(options: map<Value, Value>, ss: seq<Setting>): (options': map<Value, Value>)
    decreases |ss|
  {
    if ss == [] then options else Apply(options[ss[0].key := ss[0].value.value], ss[1..])
  }

  lemma {:induction false} FindsSetting(tokens: seq<Token>)
    requires |tokens| >= 5 && tokens[0].kind == OptionWord && tokens[1].kind == Identifier
    requires tokens[2].kind == Equal && tokens[4].kind == Semicolon
    requires tokens[3].kind == Identifier || tokens[3].kind == Digit
    ensures FirstRule(StreamScope, tokens) ==
            Some(if tokens[3].kind == Identifier then TextOptionRule else DigitOptionRule)
  {
    if tokens[3].kind == Identifier {
      IsRule(tokens, TextOptionRule);
      FirstIs(Rules(StreamScope), 0, tokens);
    } else {
      NotRule(tokens, TextOptionRule, 3);
      IsRule(tokens, DigitOptionRule);
      FirstIs(Rules(StreamScope), 1, tokens);
    }
  }

  lemma {:induction false} SettingsRoundTrip(c: Context, ss: seq<Setting>)
    requires SettingsOk(ss)
    ensures ParseLeaf(StreamScope, c, PrintSettings(ss)) ==
            Parsed(c.(options := Apply(c.options, ss)), [])
    decreases |ss|
  {
    if ss != [] {
      var tail := PrintSettings(ss[1..]);
      var tokens := PrintSetting(ss[0]) + tail;
      FindsSetting(tokens);
      assert tokens[5..] == tail;
      var c' := c.(options := c.options[ss[0].key := ss[0].value.value]);
      LeafRound(StreamScope, if tokens[3].kind == Identifier then TextOptionRule else DigitOptionRule,
                c, tokens, c', tail);
      SettingsRoundTrip(c', ss[1..]);
    }
  }
}
