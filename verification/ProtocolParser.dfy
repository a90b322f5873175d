/** The table-driven parser of protocol files: scopes, their syntax tables and the handlers. */
module ProtocolParser {
  import opened Options
  import opened ProtocolTokens
  import Text

  // ---------------------------------------------------------------- what is parsed

  /** A member of a struct or a parameter; an extension is a variable whose name is the empty text. */
  datatype Member =
    | Variable(typename: Value, name: Value, isVariable: bool)
    | VariantMember(name: Value, entries: seq<Entry>)

  datatype Entry = Entry(typename: Value, name: Value)

  datatype TypeDefinition = TypeDefinition(namespace: Value, name: Value, source: Value)

  datatype ValueDefinition = ValueDefinition(name: Value, value: Value)

  datatype EnumObject = EnumObject(namespace: Value, name: Value, values: seq<ValueDefinition>)

  datatype StructObject = StructObject(namespace: Value, name: Value, members: seq<Member>)

  datatype Function = Function(name: Value, id: Value, request: seq<Member>, response: seq<Member>)

  datatype EventObject = EventObject(name: Value, id: Value, params: seq<Member>)

  datatype ServiceObject =
    ServiceObject(namespace: Value, id: Value, name: Value, kind: string,
                  types: seq<TypeDefinition>, enums: seq<EnumObject>, structs: seq<StructObject>,
                  functions: seq<Function>, events: seq<EventObject>, options: map<Value, Value>)

  const MESSAGE := "message"
  const STREAM := "stream"

  /** The parse context: what the file has declared, and what is being collected. */
  datatype Context =
    Context(namespace: Value, types: seq<TypeDefinition>, enums: seq<EnumObject>,
            structs: seq<StructObject>, services: seq<ServiceObject>,
            functions: seq<Function>, events: seq<EventObject>, kind: string,
            options: map<Value, Value>, members: seq<Member>, values: seq<ValueDefinition>)

  datatype Failure = UnknownSyntax | MissingClose | OutOfTokens | UnknownKind | BadVariant | BadValue

  datatype Parsed = Parsed(context: Context, rest: seq<Token>) | Failed(why: Failure)

  // ---------------------------------------------------------------- syntax tables

  datatype Scope = GlobalScope | ServiceScope | StreamScope | EnumScope | StructScope | ParamScope

  datatype Rule =
    | NamespaceRule | DefineRule | EnumRule | StructRule | LegacyServiceRule | KindServiceRule
    | FuncRule | VariableEventRule | EventRule
    | TextOptionRule | DigitOptionRule
    | ValueRule | NameRule
    | ExtensionRule | VariantRule | MemberRule | ArrayMemberRule
    | ParamRule | ArrayParamRule

  /** The rules of a scope in the order they are tried. */
  function Rules(scope: Scope): (rules: seq<Rule>)
  {
    match scope
    case GlobalScope =>
      [NamespaceRule, DefineRule, EnumRule, StructRule, LegacyServiceRule, KindServiceRule]
    case ServiceScope => [FuncRule, VariableEventRule, EventRule]
    case StreamScope => [TextOptionRule, DigitOptionRule]
    case EnumScope => [ValueRule, NameRule]
    case StructScope => [ExtensionRule, VariantRule, MemberRule, ArrayMemberRule]
    case ParamScope => [ParamRule, ArrayParamRule]
  }

  function Syntax(rule: Rule): (syntax: seq<Pattern>)
  {
    match rule
    case NamespaceRule => [Is(Namespace), Is(Identifier)]
    case DefineRule => [Is(Define), Is(Identifier), Is(From), Is(Quote)]
    case EnumRule => [Is(Enum), Is(Identifier), Is(LBracket), Run, Is(RBracket)]
    case StructRule => [Is(Struct), Is(Identifier), Is(LBracket), Run, Is(RBracket)]
    case LegacyServiceRule =>
      [Is(Service), Is(Identifier), Is(LParenthesis), Is(Digit), Is(RParenthesis), Is(LBracket)]
    case KindServiceRule => [Is(Service), Is(Identifier), Is(Colon), Is(Identifier), Is(LBracket)]
    case FuncRule =>
      [Is(Func), Is(Identifier), Is(LParenthesis), Run, Is(RParenthesis),
       Is(Colon), Is(LParenthesis), Run, Is(RParenthesis), Is(Equal), Is(Digit), Is(Semicolon)]
    case VariableEventRule =>
      [Is(Event), Is(Identifier), Is(Colon), Is(LParenthesis), Run, Is(RParenthesis),
       Is(Equal), Is(Digit), Is(Semicolon)]
    case EventRule =>
      [Is(Event), Is(Identifier), Is(Colon), Is(Identifier), Is(Equal), Is(Digit), Is(Semicolon)]
    case TextOptionRule => [Is(OptionWord), Is(Identifier), Is(Equal), Is(Identifier), Is(Semicolon)]
    case DigitOptionRule => [Is(OptionWord), Is(Identifier), Is(Equal), Is(Digit), Is(Semicolon)]
    case ValueRule => [Is(Identifier), Is(Equal), OneOf([Identifier, Digit]), OneOf([Comma, RBracket])]
    case NameRule => [Is(Identifier), OneOf([Comma, RBracket])]
    case ExtensionRule => [Is(Identifier), Is(Semicolon)]
    case VariantRule => [Is(Variant), Is(Identifier), Is(LBracket)]
    case MemberRule => [Is(Identifier), Is(Identifier), Is(Semicolon)]
    case ArrayMemberRule => [Is(Identifier), Is(LIndex), Is(RIndex), Is(Identifier), Is(Semicolon)]
    case ParamRule => [Is(Identifier), Is(Identifier), OneOf([RParenthesis, Comma])]
    case ArrayParamRule =>
      [Is(Identifier), Is(LIndex), Is(RIndex), Is(Identifier), OneOf([RParenthesis, Comma])]
  }

  lemma {:induction false} SyntaxWellFormed(rule: Rule)
    ensures WellFormed(Syntax(rule))
  {
    WellFormedPlaces(Syntax(rule));
  }

  predicate MatchesRule(tokens: seq<Token>, rule: Rule)
  {
    SyntaxWellFormed(rule);
    Matches(tokens, Syntax(rule))
  }

  /** The first of the rules whose syntax the tokens match. */
  function FirstMatch(rules: seq<Rule>, tokens: seq<Token>): (r: Option<Rule>)
    ensures r.Some? ==> r.value in rules
  {
    if rules == [] then None
    else if MatchesRule(tokens, rules[0]) then Some(rules[0])
    else FirstMatch(rules[1..], tokens)
  }

  function FirstRule(scope: Scope, tokens: seq<Token>): (r: Option<Rule>)
  {
    FirstMatch(Rules(scope), tokens)
  }

  // ---------------------------------------------------------------- handlers

  function WithMember(c: Context, m: Member): (c': Context)
  {
    c.(members := c.members + [m])
  }

  /** `<type> <name> x` or `<type>[] <name> x`, where `x` is dropped unseen. */
  function HandleVariable(c: Context, tokens: seq<Token>): (r: Parsed)
    ensures r.Parsed? ==> |r.rest| < |tokens|
  {
    if |tokens| < 2 then Failed(OutOfTokens)
    else if tokens[1].kind == LIndex then
      if |tokens| < 5 then Failed(OutOfTokens)
      else Parsed(WithMember(c, Variable(tokens[0].value, tokens[3].value, true)), tokens[5..])
    else if |tokens| < 3 then Failed(OutOfTokens)
    else Parsed(WithMember(c, Variable(tokens[0].value, tokens[1].value, false)), tokens[3..])
  }

  function HandleExtension(c: Context, tokens: seq<Token>): (r: Parsed)
    ensures r.Parsed? ==> |r.rest| < |tokens|
  {
    if |tokens| < 2 then Failed(OutOfTokens)
    else Parsed(WithMember(c, Variable(tokens[0].value, Str(""), false)), tokens[2..])
  }

  datatype ParsedEntries = ParsedEntries(entries: seq<Entry>, rest: seq<Token>) | BadEntries

  /** The members of a variant, up to and including the closing bracket. */
  function VariantEntries(tokens: seq<Token>): (r: ParsedEntries)
    ensures r.ParsedEntries? ==> |r.rest| < |tokens|
  {
    if tokens == [] then BadEntries
    else if tokens[0].kind == RBracket then ParsedEntries([], tokens[1..])
    else if |tokens| < 3 || tokens[0].kind != Identifier || tokens[1].kind != Identifier
            || tokens[2].kind != Semicolon then BadEntries
    else
      match VariantEntries(tokens[3..])
      case BadEntries => BadEntries
      case ParsedEntries(entries, rest) =>
        ParsedEntries([Entry(tokens[0].value, tokens[1].value)] + entries, rest)
  }

  function HandleVariant(c: Context, tokens: seq<Token>): (r: Parsed)
    ensures r.Parsed? ==> |r.rest| < |tokens|
  {
    if |tokens| < 4 then Failed(OutOfTokens) else
      match VariantEntries(tokens[3..])
      case BadEntries => Failed(BadVariant)
      case ParsedEntries(entries, rest) =>
        Parsed(WithMember(c, VariantMember(tokens[1].value, entries)), rest)
  }

  /** After an enum member: a comma, a closing bracket, or both are dropped. */
  function AfterEnumMember(c: Context, tokens: seq<Token>): (r: Parsed)
    ensures r.Parsed? ==> |r.rest| <= |tokens|
  {
    if tokens == [] then Failed(OutOfTokens) else
      var rest := if tokens[0].kind == Comma then tokens[1..] else tokens;
      if rest == [] then Failed(OutOfTokens)
      else Parsed(c, if rest[0].kind == RBracket then rest[1..] else rest)
  }

  function HandleEnumMember(c: Context, tokens: seq<Token>, withValue: bool): (r: Parsed)
    ensures r.Parsed? ==> |r.rest| < |tokens|
  {
    var used := if withValue then 3 else 1;
    if |tokens| < used then Failed(OutOfTokens) else
      var value := if withValue then tokens[2].value else NoValue;
      AfterEnumMember(c.(values := c.values + [ValueDefinition(tokens[0].value, value)]), tokens[used..])
  }

  function HandleOption(c: Context, tokens: seq<Token>): (r: Parsed)
    ensures r.Parsed? ==> |r.rest| < |tokens|
  {
    if |tokens| < 5 then Failed(OutOfTokens)
    else Parsed(c.(options := c.options[tokens[1].value := tokens[3].value]), tokens[5..])
  }

  function HandleNamespace(c: Context, tokens: seq<Token>): (r: Parsed)
    ensures r.Parsed? ==> |r.rest| < |tokens|
  {
    if |tokens| < 2 then Failed(OutOfTokens)
    else Parsed(c.(namespace := tokens[1].value), tokens[2..])
  }

  function HandleDefine(c: Context, tokens: seq<Token>): (r: Parsed)
    ensures r.Parsed? ==> |r.rest| < |tokens|
  {
    if |tokens| < 4 then Failed(OutOfTokens)
    else Parsed(c.(types := c.types + [TypeDefinition(c.namespace, tokens[1].value, tokens[3].value)]),
                tokens[4..])
  }

  /** How many tokens there are up to and including the first closing parenthesis. */
  function ParameterEnd(tokens: seq<Token>): (r: Option<nat>)
    ensures r.Some? ==> 0 < r.value <= |tokens| && tokens[r.value - 1].kind == RParenthesis
  {
    var rest := SkipTo(tokens, RParenthesis);
    SkipSuffix(tokens, RParenthesis);
    if rest == [] then None else Some(|tokens| - |rest| + 1)
  }

  /** The scopes whose handlers open no further scope. */
  predicate IsLeaf(scope: Scope)
  {
    scope != GlobalScope && scope != ServiceScope
  }

  function HandleLeaf(rule: Rule, c: Context, tokens: seq<Token>): (r: Parsed)
    ensures r.Parsed? ==> |r.rest| < |tokens|
  {
    match rule
    case TextOptionRule => HandleOption(c, tokens)
    case DigitOptionRule => HandleOption(c, tokens)
    case ValueRule => HandleEnumMember(c, tokens, true)
    case NameRule => HandleEnumMember(c, tokens, false)
    case ExtensionRule => HandleExtension(c, tokens)
    case VariantRule => HandleVariant(c, tokens)
    case _ => HandleVariable(c, tokens)
  }

  /** Tries the rules of the scope in order, runs the handler of the first that matches, repeats. */
  function ParseLeaf(scope: Scope, c: Context, tokens: seq<Token>): (r: Parsed)
    requires IsLeaf(scope)
    ensures r.Parsed? ==> r.rest == []
    decreases |tokens|
  {
    if tokens == [] then Parsed(c, []) else
      match FirstRule(scope, tokens)
      case None => Failed(UnknownSyntax)
      case Some(rule) =>
        match HandleLeaf(rule, c, tokens)
        case Failed(why) => Failed(why)
        case Parsed(c', rest) => ParseLeaf(scope, c', rest)
  }

  function HandleParamList(c: Context, tokens: seq<Token>): (r: Parsed)
    ensures r.Parsed? ==> |r.rest| < |tokens|
  {
    match ParameterEnd(tokens)
    case None => Failed(MissingClose)
    case Some(end) =>
      match ParseLeaf(ParamScope, c, tokens[..end])
      case Failed(why) => Failed(why)
      case Parsed(c', _) => Parsed(c', tokens[end..])
  }

  /** Parameters after an opening parenthesis, none, a lone identifier, or a list. */
  function HandleParams(c: Context, tokens: seq<Token>): (r: Parsed)
    ensures r.Parsed? ==> |r.rest| < |tokens|
  {
    if tokens == [] then Failed(OutOfTokens)
    else if tokens[0].kind == RParenthesis then Parsed(c, tokens[1..])
    else if |tokens| > 1 && tokens[0].kind == Identifier && tokens[1].kind == RParenthesis then
      Parsed(WithMember(c, Variable(tokens[0].value, tokens[0].value, false)), tokens[2..])
    else HandleParamList(c, tokens)
  }

  function HandleFunc(c: Context, tokens: seq<Token>): (r: Parsed)
    ensures r.Parsed? ==> |r.rest| < |tokens|
  {
    if |tokens| < 3 then Failed(OutOfTokens) else
      match HandleParams(c, tokens[3..])
      case Failed(why) => Failed(why)
      case Parsed(c1, rest1) =>
        if |rest1| < 2 then Failed(OutOfTokens) else
          match HandleParams(c1.(members := []), rest1[2..])
          case Failed(why) => Failed(why)
          case Parsed(c2, rest2) =>
            if |rest2| < 3 then Failed(OutOfTokens) else
              var f := Function(tokens[1].value, rest2[1].value, c1.members, c2.members);
              Parsed(c2.(members := [], functions := c2.functions + [f]), rest2[3..])
  }

  function HandleEvent(c: Context, tokens: seq<Token>): (r: Parsed)
    ensures r.Parsed? ==> |r.rest| < |tokens|
  {
    if |tokens| < 4 then Failed(OutOfTokens) else
      var params := if tokens[3].kind == Identifier
                    then Parsed(WithMember(c, Variable(tokens[3].value, tokens[3].value, false)), tokens[4..])
                    else HandleParamList(c, tokens[4..]);
      match params
      case Failed(why) => Failed(why)
      case Parsed(c1, rest) =>
        if |rest| < 3 then Failed(OutOfTokens) else
          var e := EventObject(tokens[1].value, rest[1].value, c1.members);
          Parsed(c1.(members := [], events := c1.events + [e]), rest[3..])
  }

  function HandleInService(rule: Rule, c: Context, tokens: seq<Token>): (r: Parsed)
    ensures r.Parsed? ==> |r.rest| < |tokens|
  {
    if rule == FuncRule then HandleFunc(c, tokens) else HandleEvent(c, tokens)
  }

  /** The same loop, in the body of a message service. */
  function ParseService(c: Context, tokens: seq<Token>): (r: Parsed)
    ensures r.Parsed? ==> r.rest == []
    decreases |tokens|
  {
    if tokens == [] then Parsed(c, []) else
      match FirstRule(ServiceScope, tokens)
      case None => Failed(UnknownSyntax)
      case Some(rule) =>
        match HandleInService(rule, c, tokens)
        case Failed(why) => Failed(why)
        case Parsed(c', rest) => ParseService(c', rest)
  }

  /** `extra` tells whether the closing bracket is part of the scope. */
  function HandleBody(scope: Scope, c: Context, tokens: seq<Token>, extra: nat): (r: Parsed)
    requires scope != GlobalScope && extra <= 1
    ensures r.Parsed? ==> |r.rest| < |tokens|
  {
    if tokens == [] then Failed(OutOfTokens)
    else if tokens[0].kind == RBracket then Parsed(c, tokens[1..])
    else
      match Closing(tokens, 0)
      case None => Failed(MissingClose)
      case Some(n) =>
        match (if scope == ServiceScope then ParseService(c, tokens[..n])
               else ParseLeaf(scope, c, tokens[..n + extra]))
        case Failed(why) => Failed(why)
        case Parsed(c', _) => Parsed(c', tokens[n + 1..])
  }

  function HandleEnum(c: Context, tokens: seq<Token>): (r: Parsed)
    ensures r.Parsed? ==> |r.rest| < |tokens|
  {
    if |tokens| < 3 then Failed(OutOfTokens) else
      match HandleBody(EnumScope, c, tokens[3..], 1)
      case Failed(why) => Failed(why)
      case Parsed(c', rest) =>
        Parsed(c'.(enums := c'.enums + [EnumObject(c'.namespace, tokens[1].value, c'.values)],
                   values := []), rest)
  }

  function HandleStruct(c: Context, tokens: seq<Token>): (r: Parsed)
    ensures r.Parsed? ==> |r.rest| < |tokens|
  {
    if |tokens| < 3 then Failed(OutOfTokens) else
      match HandleBody(StructScope, c, tokens[3..], 0)
      case Failed(why) => Failed(why)
      case Parsed(c', rest) =>
        Parsed(c'.(structs := c'.structs + [StructObject(c'.namespace, tokens[1].value, c'.members)],
                   members := []), rest)
  }

  function CreateService(c: Context, id: Value, name: Value, kind: string): (c': Context)
  {
    var service := ServiceObject(c.namespace, id, name, kind, c.types, c.enums, c.structs,
                                 c.functions, c.events, c.options);
    c.(services := c.services + [service], functions := [], events := [], kind := MESSAGE,
       options := map[])
  }

  /** The body of a service; a kind that is not known is an error only if the body is not empty. */
  function HandleServiceBody(c: Context, tokens: seq<Token>, id: Value, name: Value, kind: string)
    : (r: Parsed)
    ensures r.Parsed? ==> |r.rest| < |tokens|
  {
    if tokens == [] then Failed(OutOfTokens)
    else if tokens[0].kind != RBracket && kind != MESSAGE && kind != STREAM then
      Failed(if Closing(tokens, 0).None? then MissingClose else UnknownKind)
    else
      match HandleBody(if kind == STREAM then StreamScope else ServiceScope, c.(kind := kind), tokens, 0)
      case Failed(why) => Failed(why)
      case Parsed(c', rest) => Parsed(CreateService(c', id, name, kind), rest)
  }

  function HandleService(c: Context, tokens: seq<Token>): (r: Parsed)
    ensures r.Parsed? ==> |r.rest| < |tokens|
  {
    if |tokens| < 3 then Failed(OutOfTokens)
    else if tokens[2].kind == LParenthesis then
      if |tokens| < 6 then Failed(OutOfTokens)
      else HandleServiceBody(c, tokens[6..], tokens[3].value, tokens[1].value, MESSAGE)
    else if |tokens| < 5 then Failed(OutOfTokens)
    else if !tokens[3].value.Str? then Failed(BadValue)
    else HandleServiceBody(c, tokens[5..], NoValue, tokens[1].value, Text.Lower(tokens[3].value.text))
  }

  function HandleGlobal(rule: Rule, c: Context, tokens: seq<Token>): (r: Parsed)
    ensures r.Parsed? ==> |r.rest| < |tokens|
  {
    match rule
    case NamespaceRule => HandleNamespace(c, tokens)
    case DefineRule => HandleDefine(c, tokens)
    case EnumRule => HandleEnum(c, tokens)
    case StructRule => HandleStruct(c, tokens)
    case _ => HandleService(c, tokens)
  }

  /** The same loop, over a whole file. */
  function ParseFile(c: Context, tokens: seq<Token>): (r: Parsed)
    ensures r.Parsed? ==> r.rest == []
    decreases |tokens|
  {
    if tokens == [] then Parsed(c, []) else
      match FirstRule(GlobalScope, tokens)
      case None => Failed(UnknownSyntax)
      case Some(rule) =>
        match HandleGlobal(rule, c, tokens)
        case Failed(why) => Failed(why)
        case Parsed(c', rest) => ParseFile(c', rest)
  }

  // ---------------------------------------------------------------- the loop

  function Handle(scope: Scope, rule: Rule, c: Context, tokens: seq<Token>): (r: Parsed)
    ensures r.Parsed? ==> |r.rest| < |tokens|
  {
    match scope
    case GlobalScope => HandleGlobal(rule, c, tokens)
    case ServiceScope => HandleInService(rule, c, tokens)
    case _ => HandleLeaf(rule, c, tokens)
  }

  function Parse(scope: Scope, c: Context, tokens: seq<Token>): (r: Parsed)
  {
    match scope
    case GlobalScope => ParseFile(c, tokens)
    case ServiceScope => ParseService(c, tokens)
    case _ => ParseLeaf(scope, c, tokens)
  }

  /** The loop over the members of a variant. */
  method ReadVariant(input: seq<Token>) returns (r: ParsedEntries)
    ensures r == VariantEntries(input)
  {
    var tokens, entries := input, [];
    while |tokens| > 0 && tokens[0].kind != RBracket
      invariant VariantEntries(input) ==
                match VariantEntries(tokens)
                case BadEntries => BadEntries
                case ParsedEntries(more, rest) => ParsedEntries(entries + more, rest)
      decreases |tokens|
    {
      if |tokens| < 3 || tokens[0].kind != Identifier || tokens[1].kind != Identifier
         || tokens[2].kind != Semicolon {
        return BadEntries;
      }
      ghost var before := entries;
      entries := entries + [Entry(tokens[0].value, tokens[1].value)];
      assert forall more :: before + ([Entry(tokens[0].value, tokens[1].value)] + more) == entries + more;
      tokens := tokens[3..];
    }
    if |tokens| == 0 {
      return BadEntries;
    }
    assert entries + [] == entries;
    r := ParsedEntries(entries, tokens[1..]);
  }

  lemma {:induction false} FirstMatchFrom(rules: seq<Rule>, tokens: seq<Token>, n: nat)
    requires n <= |rules|
    requires forall m | 0 <= m < n :: !MatchesRule(tokens, rules[m])
    ensures FirstMatch(rules, tokens) == FirstMatch(rules[n..], tokens)
    decreases n
  {
    if n > 0 {
      FirstMatchFrom(rules, tokens, n - 1);
      assert rules[n - 1..][0] == rules[n - 1] && rules[n - 1..][1..] == rules[n..];
    } else {
      assert rules[0..] == rules;
    }
  }

  method TryRule(rule: Rule, tokens: seq<Token>) returns (matched: bool)
    ensures matched <==> MatchesRule(tokens, rule)
  {
    SyntaxWellFormed(rule);
    matched := MatchSyntax(tokens, Syntax(rule));
  }

  /** The inner loop of the scope loop: the first rule that matches. */
  method FindRule(rules: seq<Rule>, tokens: seq<Token>) returns (r: Option<Rule>)
    ensures r == FirstMatch(rules, tokens)
  {
    var n := 0;
    assert rules[0..] == rules;
    while n < |rules|
      invariant n <= |rules| && FirstMatch(rules, tokens) == FirstMatch(rules[n..], tokens)
    {
      assert rules[n..][0] == rules[n] && rules[n..][1..] == rules[n + 1..];
      var matched := TryRule(rules[n], tokens);
      if matched {
        return Some(rules[n]);
      }
      n := n + 1;
    }
    r := None;
  }

  /** The parser: its context, and the scope loop that drives the handlers. */
  class Parser {
    var context: Context

    constructor (context: Context)
      ensures this.context == context
    {
      this.context := context;
    }

    /** On success the context is the one the scope describes; every round uses up tokens. */
    method ParseScope(scope: Scope, input: seq<Token>) returns (failure: Option<Failure>)
      modifies this
      ensures match Parse(scope, old(context), input)
              case Parsed(c, _) => failure == None && context == c
              case Failed(why) => failure == Some(why)
    {
      var tokens := input;
      while |tokens| > 0
        invariant Parse(scope, old(context), input) == Parse(scope, context, tokens)
        decreases |tokens|
      {
        var rule := FindRule(Rules(scope), tokens);
        if rule.None? {
          return Some(UnknownSyntax);
        }
        match Handle(scope, rule.value, context, tokens)
        case Failed(why) => return Some(why);
        case Parsed(c, rest) => context, tokens := c, rest;
      }
      failure := None;
    }
  }
}
