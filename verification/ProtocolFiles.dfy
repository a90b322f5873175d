/** Whole protocol files: what a list of declarations means, and that parsing its print gives that. */
module ProtocolFiles {
  import opened Collections
  import opened Options
  import opened ProtocolTokens
  import opened ProtocolParser
  import opened ProtocolPrinter
  import opened ProtocolRoundTrip
  import Text

  /**
    * A declaration as it is written. An enum may end with a comma; the kind of a service is written in any
    * case, and an unknown one is accepted with an empty body.
    */
  datatype Declaration =
    | NamespaceOf(name: Value)
    | DefineOf(name: Value, source: Value)
    | EnumOf(name: Value, values: seq<EnumValue>, trailing: bool)
    | StructOf(name: Value, members: seq<Member>)
    | LegacyService(name: Value, id: Value, items: seq<Item>)
    | MessageService(name: Value, kind: string, items: seq<Item>)
    | StreamService(name: Value, kind: string, settings: seq<Setting>)
    | OtherService(name: Value, kind: string)

  predicate PrintableDeclaration(d: Declaration)
  {
    match d
    case EnumOf(_, values, _) => ValuesOk(values)
    case LegacyService(_, _, items) => AllPrintable(items)
    case MessageService(_, kind, items) => Text.Lower(kind) == MESSAGE && AllPrintable(items)
    case StreamService(_, kind, settings) => Text.Lower(kind) == STREAM && SettingsOk(settings)
    case OtherService(_, kind) => Text.Lower(kind) != MESSAGE && Text.Lower(kind) != STREAM
    case _ => true
  }

  function Block(head: seq<Token>, body: seq<Token>): (tokens: seq<Token>)
  {
    head + [Symbol(LBracket)] + body + [Symbol(RBracket)]
  }

  function KindHead(n: Value, kind: string): (head: seq<Token>)
  {
    [Symbol(Service), Name(n), Symbol(Colon), Name(Str(kind))]
  }

  function PrintDeclaration(d: Declaration): (tokens: seq<Token>)
    requires PrintableDeclaration(d)
  {
    match d
    case NamespaceOf(n) => [Symbol(Namespace), Name(n)]
    case DefineOf(n, source) => [Symbol(Define), Name(n), Symbol(From), Token(Quote, source)]
    case EnumOf(n, values, trailing) => Block([Symbol(Enum), Name(n)], PrintValues(values, trailing))
    case StructOf(n, members) => Block([Symbol(Struct), Name(n)], PrintMembers(members))
    case LegacyService(n, id, items) =>
      Block([Symbol(Service), Name(n), Symbol(LParenthesis), Token(Digit, id), Symbol(RParenthesis)],
            PrintItems(items))
    case MessageService(n, kind, items) => Block(KindHead(n, kind), PrintItems(items))
    case StreamService(n, kind, settings) => Block(KindHead(n, kind), PrintSettings(settings))
    case OtherService(n, kind) => Block(KindHead(n, kind), [])
  }

  function FunctionOf(item: Item): (fs: seq<Function>)
  {
    match item
    case FuncItem(n, id, request, response) => [Function(n, id, ParamsOf(request), ParamsOf(response))]
    case EventItem(_, _, _) => []
  }

  function EventOf(item: Item): (es: seq<EventObject>)
  {
    match item
    case FuncItem(_, _, _, _) => []
    case EventItem(n, id, params) => [EventObject(n, id, ParamsOf(params))]
  }

  function FunctionsOf(items: seq<Item>): (fs: seq<Function>)
  {
    if items == [] then [] else FunctionOf(items[0]) + FunctionsOf(items[1..])
  }

  function EventsOf(items: seq<Item>): (es: seq<EventObject>)
  {
    if items == [] then [] else EventOf(items[0]) + EventsOf(items[1..])
  }

  function AddService(c: Context, id: Value, name: Value, kind: string, items: seq<Item>,
                      options: map<Value, Value>): (c': Context)
  {
    c.(services := c.services +
       [ServiceObject(c.namespace, id, name, kind, c.types, c.enums, c.structs,
                      FunctionsOf(items), EventsOf(items), options)])
  }

  /** What a declaration adds. A service takes along the types declared before it. */
  function Declare(c: Context, d: Declaration): (c': Context)
  {
    match d
    case NamespaceOf(n) => c.(namespace := n)
    case DefineOf(n, source) => c.(types := c.types + [TypeDefinition(c.namespace, n, source)])
    case EnumOf(n, values, _) => c.(enums := c.enums + [EnumObject(c.namespace, n, ValuesOf(values))])
    case StructOf(n, members) => c.(structs := c.structs + [StructObject(c.namespace, n, members)])
    case LegacyService(n, id, items) => AddService(c, id, n, MESSAGE, items, map[])
    case MessageService(n, _, items) => AddService(c, NoValue, n, MESSAGE, items, map[])
    case StreamService(n, _, settings) => AddService(c, NoValue, n, STREAM, [], Apply(map[], settings))
    case OtherService(n, kind) => AddService(c, NoValue, n, Text.Lower(kind), [], map[])
  }

  function DeclareAll(c: Context, ds: seq<Declaration>): (c': Context)
    decreases |ds|
  {
    if ds == [] then c else DeclareAll(Declare(c, ds[0]), ds[1..])
  }

  predicate AllDeclarable(ds: seq<Declaration>)
  {
    forall i | 0 <= i < |ds| :: PrintableDeclaration(ds[i])
  }

  function PrintFile(ds: seq<Declaration>): (tokens: seq<Token>)
    requires AllDeclarable(ds)
  {
    if ds == [] then [] else PrintDeclaration(ds[0]) + PrintFile(ds[1..])
  }

  /** Nothing is half collected: the state between declarations. */
  predicate Clean(c: Context)
  {
    && c.functions == [] && c.events == [] && c.members == [] && c.values == []
    && c.kind == MESSAGE && c.options == map[]
  }

  // ---------------------------------------------------------------- bodies

  /** A body that closes what it opens ends at the bracket after it. */
  lemma {:induction false} BodyHandled(scope: Scope, c: Context, body: seq<Token>, extra: nat, c': Context,
                                       tail: seq<Token>)
    requires scope != GlobalScope && extra <= 1 && (scope == ServiceScope ==> extra == 0)
    requires Depth(body, 0) == Some(0)
    requires body == [] ==> c' == c
    requires body != [] ==>
               && body[0].kind != RBracket
               && (if scope == ServiceScope then ParseService(c, body)
                   else ParseLeaf(scope, c, if extra == 1 then body + [Symbol(RBracket)] else body))
                  == Parsed(c', [])
    ensures HandleBody(scope, c, body + [Symbol(RBracket)] + tail, extra) == Parsed(c', tail)
  {
    BodyShape(body, tail);
    if body != [] {
      var rest := [Symbol(RBracket)] + tail;
      ClosingAfter(body, rest, 0);
      assert Closing(rest, 0) == Some(0);
    }
  }

  lemma {:induction false} BodyShape(body: seq<Token>, tail: seq<Token>)
    ensures var tokens := body + [Symbol(RBracket)] + tail;
            && tokens == body + ([Symbol(RBracket)] + tail)
            && tokens[..|body|] == body && tokens[..|body| + 1] == body + [Symbol(RBracket)]
            && tokens[|body| + 1..] == tail && (body == [] ==> tokens[0] == Symbol(RBracket))
            && (body != [] ==> tokens[0] == body[0])
  {
  }

  lemma {:induction false} PlainDepth(tokens: seq<Token>, level: nat)
    requires Plain(tokens)
    ensures Depth(tokens, level) == Some(level)
  {
    DepthWithout(tokens, level);
  }

  lemma {:induction false} EntriesPlain(es: seq<Entry>)
    ensures Plain(PrintEntries(es))
    decreases |es|
  {
    if es != [] {
      EntriesPlain(es[1..]);
    }
  }

  lemma {:induction false} NestedDepth(head: seq<Token>, inner: seq<Token>, level: nat)
    requires Plain(head) && Plain(inner)
    ensures Depth(head + ([Symbol(LBracket)] + (inner + [Symbol(RBracket)])), level) == Some(level)
  {
    PlainDepth(head, level);
    PlainDepth(inner, level + 1);
    DepthConcat(inner, [Symbol(RBracket)], level + 1);
    DepthConcat([Symbol(LBracket)], inner + [Symbol(RBracket)], level);
    DepthConcat(head, [Symbol(LBracket)] + (inner + [Symbol(RBracket)]), level);
  }

  lemma {:induction false} MemberDepth(m: Member, level: nat)
    ensures Depth(PrintMember(m), level) == Some(level)
    ensures PrintMember(m)[0].kind != RBracket
  {
    match m
    case Variable(_, _, _) => PlainDepth(PrintMember(m), level);
    case VariantMember(n, es) =>
      EntriesPlain(es);
      NestedDepth([Symbol(Variant), Name(n)], PrintEntries(es), level);
      VariantNests(n, es);
  }

  lemma {:induction false} VariantNests(n: Value, es: seq<Entry>)
    ensures PrintMember(VariantMember(n, es)) ==
            [Symbol(Variant), Name(n)] + ([Symbol(LBracket)] + (PrintEntries(es) + [Symbol(RBracket)]))
  {
  }

  lemma {:induction false} MembersDepth(ms: seq<Member>, level: nat)
    ensures Depth(PrintMembers(ms), level) == Some(level)
    ensures ms != [] ==> PrintMembers(ms) != [] && PrintMembers(ms)[0].kind != RBracket
    decreases |ms|
  {
    if ms != [] {
      MemberDepth(ms[0], level);
      MembersDepth(ms[1..], level);
      DepthConcat(PrintMember(ms[0]), PrintMembers(ms[1..]), level);
    }
  }

  lemma {:induction false} ValuePlain(v: EnumValue)
    requires ValueOk(v)
    ensures Plain(PrintValue(v)) && PrintValue(v) != [] && PrintValue(v)[0].kind == Identifier
  {
  }

  lemma {:induction false} PlainJoin(a: seq<Token>, b: seq<Token>)
    requires Plain(a) && Plain(b)
    ensures Plain(a + b)
  {
  }

  lemma {:induction false} ValuesPlain(vs: seq<EnumValue>, trailing: bool)
    requires ValuesOk(vs)
    ensures Plain(PrintValues(vs, trailing))
    ensures vs != [] ==> PrintValues(vs, trailing) != [] && PrintValues(vs, trailing)[0].kind == Identifier
    decreases |vs|
  {
    if vs != [] {
      ValuePlain(vs[0]);
      PlainJoin(PrintValue(vs[0]), [Symbol(Comma)]);
      if |vs| > 1 {
        ValuesPlain(vs[1..], trailing);
        PlainJoin(PrintValue(vs[0]) + [Symbol(Comma)], PrintValues(vs[1..], trailing));
      }
    }
  }

  lemma {:induction false} SettingsPlain(ss: seq<Setting>)
    requires SettingsOk(ss)
    ensures Plain(PrintSettings(ss))
    ensures ss != [] ==> PrintSettings(ss) != [] && PrintSettings(ss)[0].kind == OptionWord
    decreases |ss|
  {
    if ss != [] {
      SettingsPlain(ss[1..]);
    }
  }

  predicate Bracketless(tokens: seq<Token>)
  {
    Without(tokens, LBracket) && Without(tokens, RBracket)
  }

  lemma {:induction false} BracketlessJoin(a: seq<Token>, b: seq<Token>)
    requires Bracketless(a) && Bracketless(b)
    ensures Bracketless(a + b)
  {
  }

  lemma {:induction false} FuncBracketless(name: Value, request: seq<Token>, response: seq<Token>, id: Value)
    requires Bracketless(request) && Bracketless(response)
    ensures Bracketless(PrintFunc(name, request, response, id))
  {
    var head, between := FuncHead(name), Between();
    BracketlessJoin(head, request);
    BracketlessJoin(head + request, between);
    BracketlessJoin(head + request + between, response);
    BracketlessJoin(head + request + between + response, [Symbol(RParenthesis)]);
    BracketlessJoin(head + request + between + response + [Symbol(RParenthesis)], Ending(id));
  }

  lemma {:induction false} EventBracketless(name: Value, params: seq<Token>, id: Value)
    requires Bracketless(params)
    ensures Bracketless(PrintEvent(name, params, id))
  {
    var head := EventHead(name);
    BracketlessJoin(head, params);
    BracketlessJoin(head + params, [Symbol(RParenthesis)]);
    BracketlessJoin(head + params + [Symbol(RParenthesis)], Ending(id));
  }

  lemma {:induction false} ItemBracketless(item: Item)
    requires Printable(item)
    ensures Bracketless(PrintItem(item)) && PrintItem(item) != []
  {
    match item
    case FuncItem(n, id, request, response) =>
      FormPlain(request);
      FormPlain(response);
      FuncBracketless(n, PrintForm(request), PrintForm(response), id);
    case EventItem(n, id, params) =>
      if params.Listed? {
        ParamsPlain(params.params);
        EventBracketless(n, PrintParams(params.params), id);
      }
  }

  lemma {:induction false} ItemsBracketless(items: seq<Item>)
    requires AllPrintable(items)
    ensures Bracketless(PrintItems(items))
    ensures items != [] ==> PrintItems(items) != []
    decreases |items|
  {
    if items != [] {
      ItemBracketless(items[0]);
      ItemsBracketless(items[1..]);
    }
  }

  lemma {:induction false} ItemSplit(c: Context, item: Item)
    ensures AddItem(c, item) ==
            c.(functions := c.functions + FunctionOf(item), events := c.events + EventOf(item))
  {
    assert c.functions + [] == c.functions && c.events + [] == c.events;
  }

  /** The lines of a service are sorted into functions and events, each in order. */
  lemma {:induction false} ItemsSplit(c: Context, items: seq<Item>)
    ensures AddItems(c, items) ==
            c.(functions := c.functions + FunctionsOf(items), events := c.events + EventsOf(items))
    decreases |items|
  {
    if items == [] {
      assert c.functions + [] == c.functions && c.events + [] == c.events;
    } else {
      ItemSplit(c, items[0]);
      ItemsSplit(AddItem(c, items[0]), items[1..]);
      Associate(c.functions, FunctionOf(items[0]), FunctionsOf(items[1..]));
      Associate(c.events, EventOf(items[0]), EventsOf(items[1..]));
    }
  }

  // ---------------------------------------------------------------- declarations

  /** A head that fits, an opening bracket, anything, a closing bracket. */
  lemma {:induction false} BlockMatches(rule: Rule, head: seq<Token>, body: seq<Token>, tail: seq<Token>)
    requires rule == EnumRule || rule == StructRule
    requires |head| == 2 && head[0].kind == Syntax(rule)[0].kind && head[1].kind == Identifier
    ensures MatchesRule(Block(head, body) + tail, rule)
  {
    SyntaxWellFormed(rule);
    var open := head + [Symbol(LBracket)];
    var rest := body + [Symbol(RBracket)] + tail;
    var tokens := open + rest;
    assert tokens == Block(head, body) + tail;
    MatchesAfter(tokens, Syntax(rule), 3);
    assert tokens[3..] == rest && Syntax(rule)[3..] == [Run, Is(RBracket)];
    SkipFinds(rest, |body|, RBracket);
    var found := SkipTo(rest, RBracket);
    assert [Run, Is(RBracket)][1..] == [Is(RBracket)] && [Is(RBracket)][1..] == [];
    assert Matches(found, [Is(RBracket)]);
  }

  lemma {:induction false} SkipFinds(tokens: seq<Token>, i: nat, k: Kind)
    requires i < |tokens| && tokens[i].kind == k
    ensures SkipTo(tokens, k) != []
    decreases i
  {
    if i > 0 && tokens[0].kind != k {
      SkipFinds(tokens[1..], i - 1, k);
    }
  }

  /** One round of the loop over a file. */
  lemma {:induction false} FileRound(rule: Rule, c: Context, tokens: seq<Token>, c': Context, rest: seq<Token>)
    requires tokens != [] && FirstRule(GlobalScope, tokens) == Some(rule)
    requires HandleGlobal(rule, c, tokens) == Parsed(c', rest)
    ensures ParseFile(c, tokens) == ParseFile(c', rest)
  {
  }

  lemma {:induction false} FindsDefine(tokens: seq<Token>)
    requires |tokens| >= 4 && tokens[0].kind == Define && tokens[1].kind == Identifier
    requires tokens[2].kind == From && tokens[3].kind == Quote
    ensures FirstRule(GlobalScope, tokens) == Some(DefineRule)
  {
    NotRule(tokens, NamespaceRule, 0);
    IsRule(tokens, DefineRule);
    FirstIs(Rules(GlobalScope), 1, tokens);
  }

  lemma {:induction false} FindsEnum(tokens: seq<Token>)
    requires tokens != [] && tokens[0].kind == Enum && MatchesRule(tokens, EnumRule)
    ensures FirstRule(GlobalScope, tokens) == Some(EnumRule)
  {
    NotRule(tokens, NamespaceRule, 0);
    NotRule(tokens, DefineRule, 0);
    FirstIs(Rules(GlobalScope), 2, tokens);
  }

  lemma {:induction false} FindsStruct(tokens: seq<Token>)
    requires tokens != [] && tokens[0].kind == Struct && MatchesRule(tokens, StructRule)
    ensures FirstRule(GlobalScope, tokens) == Some(StructRule)
  {
    NotRule(tokens, NamespaceRule, 0);
    NotRule(tokens, DefineRule, 0);
    NotRule(tokens, EnumRule, 0);
    FirstIs(Rules(GlobalScope), 3, tokens);
  }

  lemma {:induction false} FindsLegacy(tokens: seq<Token>)
    requires |tokens| >= 6 && tokens[0].kind == Service && tokens[1].kind == Identifier
    requires tokens[2].kind == LParenthesis && tokens[3].kind == Digit
    requires tokens[4].kind == RParenthesis && tokens[5].kind == LBracket
    ensures FirstRule(GlobalScope, tokens) == Some(LegacyServiceRule)
  {
    NotRule(tokens, NamespaceRule, 0);
    NotRule(tokens, DefineRule, 0);
    NotRule(tokens, EnumRule, 0);
    NotRule(tokens, StructRule, 0);
    IsRule(tokens, LegacyServiceRule);
    FirstIs(Rules(GlobalScope), 4, tokens);
  }

  lemma {:induction false} FindsKind(tokens: seq<Token>)
    requires |tokens| >= 5 && tokens[0].kind == Service && tokens[1].kind == Identifier
    requires tokens[2].kind == Colon && tokens[3].kind == Identifier && tokens[4].kind == LBracket
    ensures FirstRule(GlobalScope, tokens) == Some(KindServiceRule)
  {
    NotRule(tokens, NamespaceRule, 0);
    NotRule(tokens, DefineRule, 0);
    NotRule(tokens, EnumRule, 0);
    NotRule(tokens, StructRule, 0);
    NotRule(tokens, LegacyServiceRule, 2);
    IsRule(tokens, KindServiceRule);
    FirstIs(Rules(GlobalScope), 5, tokens);
  }

  lemma {:induction false} BlockShape(head: seq<Token>, body: seq<Token>, tail: seq<Token>)
    ensures var tokens := Block(head, body) + tail;
            && |tokens| > |head| && tokens[..|head|] == head && tokens[|head|].kind == LBracket
            && tokens[|head| + 1..] == body + [Symbol(RBracket)] + tail
  {
  }

  lemma {:induction false} NamespaceParsed(c: Context, n: Value, tail: seq<Token>)
    ensures ParseFile(c, PrintDeclaration(NamespaceOf(n)) + tail) == ParseFile(Declare(c, NamespaceOf(n)), tail)
  {
    var tokens := PrintDeclaration(NamespaceOf(n)) + tail;
    IsRule(tokens, NamespaceRule);
    FirstIs(Rules(GlobalScope), 0, tokens);
    assert tokens[2..] == tail;
    FileRound(NamespaceRule, c, tokens, Declare(c, NamespaceOf(n)), tail);
  }

  lemma {:induction false} DefineParsed(c: Context, n: Value, source: Value, tail: seq<Token>)
    ensures var d := DefineOf(n, source);
            ParseFile(c, PrintDeclaration(d) + tail) == ParseFile(Declare(c, d), tail)
  {
    var tokens := PrintDeclaration(DefineOf(n, source)) + tail;
    FindsDefine(tokens);
    assert tokens[4..] == tail;
    FileRound(DefineRule, c, tokens, Declare(c, DefineOf(n, source)), tail);
  }

  lemma {:induction false} ValuesBody(c: Context, values: seq<EnumValue>, trailing: bool, tail: seq<Token>)
    requires c.values == [] && ValuesOk(values)
    ensures HandleBody(EnumScope, c, PrintValues(values, trailing) + [Symbol(RBracket)] + tail, 1) ==
            Parsed(c.(values := ValuesOf(values)), tail)
  {
    ValuesPlain(values, trailing);
    PlainDepth(PrintValues(values, trailing), 0);
    assert c.values + ValuesOf(values) == ValuesOf(values);
    if values != [] {
      ValuesRoundTrip(c, values, trailing);
    }
    BodyHandled(EnumScope, c, PrintValues(values, trailing), 1, c.(values := ValuesOf(values)), tail);
  }

  lemma {:induction false} EnumHandled(c: Context, n: Value, values: seq<EnumValue>, trailing: bool, tail: seq<Token>)
    requires Clean(c) && ValuesOk(values)
    ensures HandleEnum(c, Block([Symbol(Enum), Name(n)], PrintValues(values, trailing)) + tail) ==
            Parsed(Declare(c, EnumOf(n, values, trailing)), tail)
  {
    var head, body := [Symbol(Enum), Name(n)], PrintValues(values, trailing);
    BlockShape(head, body, tail);
    assert (Block(head, body) + tail)[1] == head[1];
    var c' := c.(values := ValuesOf(values));
    ValuesBody(c, values, trailing, tail);
    assert c'.(values := []) == c;
  }

  lemma {:induction false} EnumParsed(c: Context, n: Value, values: seq<EnumValue>, trailing: bool, tail: seq<Token>)
    requires Clean(c) && ValuesOk(values)
    ensures ParseFile(c, Block([Symbol(Enum), Name(n)], PrintValues(values, trailing)) + tail) ==
            ParseFile(Declare(c, EnumOf(n, values, trailing)), tail)
  {
    var head, body := [Symbol(Enum), Name(n)], PrintValues(values, trailing);
    var tokens := Block(head, body) + tail;
    BlockMatches(EnumRule, head, body, tail);
    FindsEnum(tokens);
    EnumHandled(c, n, values, trailing, tail);
    FileRound(EnumRule, c, tokens, Declare(c, EnumOf(n, values, trailing)), tail);
  }

  lemma {:induction false} StructHandled(c: Context, n: Value, members: seq<Member>, tail: seq<Token>)
    requires Clean(c)
    ensures HandleStruct(c, Block([Symbol(Struct), Name(n)], PrintMembers(members)) + tail) ==
            Parsed(Declare(c, StructOf(n, members)), tail)
  {
    var head, body := [Symbol(Struct), Name(n)], PrintMembers(members);
    BlockShape(head, body, tail);
    assert (Block(head, body) + tail)[1] == head[1];
    var c' := c.(members := members);
    MembersBody(c, members, tail);
    assert c'.(members := []) == c;
  }

  lemma {:induction false} MembersBody(c: Context, members: seq<Member>, tail: seq<Token>)
    requires c.members == []
    ensures HandleBody(StructScope, c, PrintMembers(members) + [Symbol(RBracket)] + tail, 0) ==
            Parsed(c.(members := members), tail)
  {
    MembersDepth(members, 0);
    assert c.members + members == members;
    MembersRoundTrip(c, members);
    BodyHandled(StructScope, c, PrintMembers(members), 0, c.(members := members), tail);
  }

  lemma {:induction false} StructParsed(c: Context, n: Value, members: seq<Member>, tail: seq<Token>)
    requires Clean(c)
    ensures ParseFile(c, Block([Symbol(Struct), Name(n)], PrintMembers(members)) + tail) ==
            ParseFile(Declare(c, StructOf(n, members)), tail)
  {
    var head, body := [Symbol(Struct), Name(n)], PrintMembers(members);
    var tokens := Block(head, body) + tail;
    BlockMatches(StructRule, head, body, tail);
    FindsStruct(tokens);
    StructHandled(c, n, members, tail);
    FileRound(StructRule, c, tokens, Declare(c, StructOf(n, members)), tail);
  }

  /** The body of a message service, between its brackets. */
  lemma {:induction false} ItemsBody(c: Context, items: seq<Item>, tail: seq<Token>)
    requires c.members == [] && AllPrintable(items)
    ensures HandleBody(ServiceScope, c, PrintItems(items) + [Symbol(RBracket)] + tail, 0) ==
            Parsed(AddItems(c, items), tail)
  {
    ItemsBracketless(items);
    DepthWithout(PrintItems(items), 0);
    ItemsRoundTrip(c, items);
    BodyHandled(ServiceScope, c, PrintItems(items), 0, AddItems(c, items), tail);
  }

  /** What a service made of the collected functions and events is. */
  lemma {:induction false} ServiceMade(c: Context, id: Value, n: Value, items: seq<Item>)
    requires Clean(c)
    ensures CreateService(AddItems(c, items), id, n, MESSAGE) == AddService(c, id, n, MESSAGE, items, map[])
  {
    ItemsSplit(c, items);
    assert c.functions + FunctionsOf(items) == FunctionsOf(items);
    assert c.events + EventsOf(items) == EventsOf(items);
  }

  lemma {:induction false} ItemsHandled(c: Context, id: Value, n: Value, items: seq<Item>, tail: seq<Token>)
    requires Clean(c) && AllPrintable(items)
    ensures HandleServiceBody(c, PrintItems(items) + [Symbol(RBracket)] + tail, id, n, MESSAGE) ==
            Parsed(AddService(c, id, n, MESSAGE, items, map[]), tail)
  {
    assert c.(kind := MESSAGE) == c;
    ItemsBody(c, items, tail);
    ServiceMade(c, id, n, items);
  }

  lemma {:induction false} SettingsHandled(c: Context, n: Value, ss: seq<Setting>, tail: seq<Token>)
    requires Clean(c) && SettingsOk(ss)
    ensures HandleServiceBody(c, PrintSettings(ss) + [Symbol(RBracket)] + tail, NoValue, n, STREAM) ==
            Parsed(AddService(c, NoValue, n, STREAM, [], Apply(map[], ss)), tail)
  {
    SettingsPlain(ss);
    PlainDepth(PrintSettings(ss), 0);
    var c1 := c.(kind := STREAM);
    var c2 := c1.(options := Apply(c1.options, ss));
    SettingsRoundTrip(c1, ss);
    BodyHandled(StreamScope, c1, PrintSettings(ss), 0, c2, tail);
  }

  lemma {:induction false} LegacyParsed(c: Context, n: Value, id: Value, items: seq<Item>, tail: seq<Token>)
    requires Clean(c) && AllPrintable(items)
    ensures var d := LegacyService(n, id, items);
            ParseFile(c, PrintDeclaration(d) + tail) == ParseFile(Declare(c, d), tail)
  {
    var head := [Symbol(Service), Name(n), Symbol(LParenthesis), Token(Digit, id), Symbol(RParenthesis)];
    var tokens := Block(head, PrintItems(items)) + tail;
    BlockShape(head, PrintItems(items), tail);
    FindsLegacy(tokens);
    ItemsHandled(c, id, n, items, tail);
    FileRound(LegacyServiceRule, c, tokens, Declare(c, LegacyService(n, id, items)), tail);
  }

  lemma {:induction false} KindHandled(c: Context, n: Value, kind: string, body: seq<Token>, tail: seq<Token>)
    ensures var head := KindHead(n, kind);
            && FirstRule(GlobalScope, Block(head, body) + tail) == Some(KindServiceRule)
            && HandleService(c, Block(head, body) + tail) ==
               HandleServiceBody(c, body + [Symbol(RBracket)] + tail, NoValue, n, Text.Lower(kind))
  {
    var head := KindHead(n, kind);
    BlockShape(head, body, tail);
    FindsKind(Block(head, body) + tail);
  }

  lemma {:induction false} ServiceFileRound(c: Context, tokens: seq<Token>, c': Context, rest: seq<Token>)
    requires tokens != [] && FirstRule(GlobalScope, tokens) == Some(KindServiceRule)
    requires HandleService(c, tokens) == Parsed(c', rest)
    ensures ParseFile(c, tokens) == ParseFile(c', rest)
  {
    FileRound(KindServiceRule, c, tokens, c', rest);
  }

  lemma {:induction false} KindParsed(c: Context, n: Value, kind: string, body: seq<Token>, c': Context,
                                      tail: seq<Token>)
    requires HandleServiceBody(c, body + [Symbol(RBracket)] + tail, NoValue, n, Text.Lower(kind)) == Parsed(c', tail)
    ensures ParseFile(c, Block(KindHead(n, kind), body) + tail) == ParseFile(c', tail)
  {
    KindHandled(c, n, kind, body, tail);
    ServiceFileRound(c, Block(KindHead(n, kind), body) + tail, c', tail);
  }

  lemma {:induction false} MessageParsed(c: Context, n: Value, kind: string, items: seq<Item>, tail: seq<Token>)
    requires Clean(c) && AllPrintable(items) && Text.Lower(kind) == MESSAGE
    ensures ParseFile(c, Block(KindHead(n, kind), PrintItems(items)) + tail) ==
            ParseFile(AddService(c, NoValue, n, MESSAGE, items, map[]), tail)
  {
    ItemsHandled(c, NoValue, n, items, tail);
    KindParsed(c, n, kind, PrintItems(items), AddService(c, NoValue, n, MESSAGE, items, map[]), tail);
  }

  lemma {:induction false} StreamParsed(c: Context, n: Value, kind: string, ss: seq<Setting>, tail: seq<Token>)
    requires Clean(c) && SettingsOk(ss) && Text.Lower(kind) == STREAM
    ensures ParseFile(c, Block(KindHead(n, kind), PrintSettings(ss)) + tail) ==
            ParseFile(AddService(c, NoValue, n, STREAM, [], Apply(map[], ss)), tail)
  {
    SettingsHandled(c, n, ss, tail);
    KindParsed(c, n, kind, PrintSettings(ss), AddService(c, NoValue, n, STREAM, [], Apply(map[], ss)), tail);
  }

  /** A kind that is not known, in lower case, becomes the kind of a service without a body. */
  lemma {:induction false} OtherParsed(c: Context, n: Value, kind: string, tail: seq<Token>)
    requires Clean(c)
    ensures ParseFile(c, Block(KindHead(n, kind), []) + tail) ==
            ParseFile(AddService(c, NoValue, n, Text.Lower(kind), [], map[]), tail)
  {
    var tokens := [] + [Symbol(RBracket)] + tail;
    assert tokens[0] == Symbol(RBracket) && tokens[1..] == tail;
    KindParsed(c, n, kind, [], AddService(c, NoValue, n, Text.Lower(kind), [], map[]), tail);
  }

  lemma {:induction false} DeclarationParsed(c: Context, d: Declaration, tail: seq<Token>)
    requires Clean(c) && PrintableDeclaration(d)
    ensures ParseFile(c, PrintDeclaration(d) + tail) == ParseFile(Declare(c, d), tail)
    ensures Clean(Declare(c, d))
  {
    match d
    case NamespaceOf(n) => NamespaceParsed(c, n, tail);
    case DefineOf(n, source) => DefineParsed(c, n, source, tail);
    case EnumOf(n, values, trailing) => EnumParsed(c, n, values, trailing, tail);
    case StructOf(n, members) => StructParsed(c, n, members, tail);
    case LegacyService(n, id, items) => LegacyParsed(c, n, id, items, tail);
    case MessageService(n, kind, items) => MessageParsed(c, n, kind, items, tail);
    case StreamService(n, kind, ss) => StreamParsed(c, n, kind, ss, tail);
    case OtherService(n, kind) => OtherParsed(c, n, kind, tail);
  }

  /** Parsing a printed file gives exactly what its declarations say, whatever was declared before. */
  lemma {:induction false} FileRoundTrip(c: Context, ds: seq<Declaration>)
    requires Clean(c) && AllDeclarable(ds)
    ensures ParseFile(c, PrintFile(ds)) == Parsed(DeclareAll(c, ds), [])
    decreases |ds|
  {
    if ds != [] {
      DeclarationParsed(c, ds[0], PrintFile(ds[1..]));
      FileRoundTrip(Declare(c, ds[0]), ds[1..]);
    }
  }
}
