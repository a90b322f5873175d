/** The converse for struct bodies: nothing but a printed member list is accepted. */
module ProtocolBodies {
  import opened Options
  import opened ProtocolTokens
  import opened ProtocolParser
  import opened ProtocolPrinter

  /** What the scanner makes: names are never empty, and symbols and keywords carry no value. */
  predicate Scanned(t: Token)
  {
    match t.kind
    case Identifier => t.value.Str? && t.value.text != ""
    case Digit => true
    case Quote => true
    case _ => t.value == NoValue
  }

  predicate AllScanned(tokens: seq<Token>)
  {
    forall i | 0 <= i < |tokens| :: Scanned(tokens[i])
  }

  lemma {:induction false} FirstMatches(rules: seq<Rule>, tokens: seq<Token>)
    requires FirstMatch(rules, tokens).Some?
    ensures MatchesRule(tokens, FirstMatch(rules, tokens).value)
    decreases |rules|
  {
    if !MatchesRule(tokens, rules[0]) {
      FirstMatches(rules[1..], tokens);
    }
  }

  /** A rule that matched fits at every place that there is a token for. */
  lemma {:induction false} Fits(tokens: seq<Token>, rule: Rule, j: nat)
    requires MatchesRule(tokens, rule) && j < |tokens| && j < |Syntax(rule)|
    requires forall i | 0 <= i <= j :: !Syntax(rule)[i].Run?
    ensures Accepts(Syntax(rule)[j], tokens[j].kind)
  {
    SyntaxWellFormed(rule);
    if !Accepts(Syntax(rule)[j], tokens[j].kind) {
      Mismatch(tokens, Syntax(rule), j);
    }
  }

  lemma {:induction false} EntriesExact(tokens: seq<Token>)
    requires AllScanned(tokens) && VariantEntries(tokens).ParsedEntries?
    ensures var r := VariantEntries(tokens);
            tokens == PrintEntries(r.entries) + [Symbol(RBracket)] + r.rest
    decreases |tokens|
  {
    if tokens[0].kind == RBracket {
      assert tokens == [tokens[0]] + tokens[1..];
    } else {
      var rest := tokens[3..];
      EntriesExact(rest);
      var r := VariantEntries(rest);
      assert [tokens[0], tokens[1], tokens[2]] + rest == tokens;
      assert Scanned(tokens[2]);
      EntriesSplit(Entry(tokens[0].value, tokens[1].value), r.entries, r.rest);
    }
  }

  lemma {:induction false} EntriesSplit(e: Entry, es: seq<Entry>, rest: seq<Token>)
    ensures PrintEntries([e] + es) + [Symbol(RBracket)] + rest ==
            [Name(e.typename), Name(e.name), Symbol(Semicolon)] +
            (PrintEntries(es) + [Symbol(RBracket)] + rest)
  {
    assert ([e] + es)[1..] == es;
  }

  lemma {:induction false} ExtensionExact(tokens: seq<Token>)
    requires AllScanned(tokens) && MatchesRule(tokens, ExtensionRule) && |tokens| >= 2
    ensures tokens == PrintMember(Variable(tokens[0].value, Str(""), false)) + tokens[2..]
  {
    Fits(tokens, ExtensionRule, 0);
    Fits(tokens, ExtensionRule, 1);
    assert Scanned(tokens[1]);
  }

  lemma {:induction false} FieldExact(tokens: seq<Token>)
    requires AllScanned(tokens) && MatchesRule(tokens, MemberRule) && |tokens| >= 3
    ensures tokens[1].kind != LIndex
    ensures tokens == PrintMember(Variable(tokens[0].value, tokens[1].value, false)) + tokens[3..]
  {
    Fits(tokens, MemberRule, 0);
    Fits(tokens, MemberRule, 1);
    Fits(tokens, MemberRule, 2);
    assert Scanned(tokens[1]) && Scanned(tokens[2]);
  }

  lemma {:induction false} ArrayTokens(tokens: seq<Token>)
    requires |tokens| >= 5 && tokens[0].kind == Identifier && tokens[3].kind == Identifier
    requires tokens[1] == Symbol(LIndex) && tokens[2] == Symbol(RIndex) && tokens[4] == Symbol(Semicolon)
    ensures tokens == PrintMember(Variable(tokens[0].value, tokens[3].value, true)) + tokens[5..]
  {
  }

  /** A symbol of the syntax at place `j` is there without a value. */
  lemma {:induction false} FitsSymbol(tokens: seq<Token>, rule: Rule, j: nat, k: Kind)
    requires AllScanned(tokens) && MatchesRule(tokens, rule) && j < |tokens| && j < |Syntax(rule)|
    requires forall i | 0 <= i <= j :: !Syntax(rule)[i].Run?
    requires Syntax(rule)[j] == Is(k) && k != Identifier && k != Digit && k != Quote
    ensures tokens[j] == Symbol(k)
  {
    Fits(tokens, rule, j);
    assert Scanned(tokens[j]);
  }

  lemma {:induction false} ArrayStart(tokens: seq<Token>)
    requires AllScanned(tokens) && MatchesRule(tokens, ArrayMemberRule) && |tokens| >= 3
    ensures tokens[0].kind == Identifier && tokens[1] == Symbol(LIndex) && tokens[2] == Symbol(RIndex)
  {
    Fits(tokens, ArrayMemberRule, 0);
    FitsSymbol(tokens, ArrayMemberRule, 1, LIndex);
    FitsSymbol(tokens, ArrayMemberRule, 2, RIndex);
  }

  lemma {:induction false} ArrayEnd(tokens: seq<Token>)
    requires AllScanned(tokens) && MatchesRule(tokens, ArrayMemberRule) && |tokens| >= 5
    ensures tokens[3].kind == Identifier && tokens[4] == Symbol(Semicolon)
  {
    var rule := ArrayMemberRule;
    var syntax := Syntax(rule);
    assert syntax[3] == Is(Identifier) && syntax[4] == Is(Semicolon);
    assert forall i | 0 <= i <= 4 :: !syntax[i].Run?;
    Fits(tokens, rule, 3);
    FitsSymbol(tokens, rule, 4, Semicolon);
  }

  lemma {:induction false} ArrayExact(tokens: seq<Token>)
    requires AllScanned(tokens) && MatchesRule(tokens, ArrayMemberRule) && |tokens| >= 2
    ensures tokens[1].kind == LIndex
    ensures |tokens| >= 5 ==>
              tokens == PrintMember(Variable(tokens[0].value, tokens[3].value, true)) + tokens[5..]
  {
    if |tokens| < 5 {
      FitsSymbol(tokens, ArrayMemberRule, 1, LIndex);
    } else {
      ArrayStart(tokens);
      ArrayEnd(tokens);
      ArrayTokens(tokens);
    }
  }

  lemma {:induction false} VariantHead(tokens: seq<Token>)
    requires AllScanned(tokens) && MatchesRule(tokens, VariantRule) && |tokens| >= 3
    ensures tokens == [Symbol(Variant), Name(tokens[1].value), Symbol(LBracket)] + tokens[3..]
  {
    Fits(tokens, VariantRule, 0);
    Fits(tokens, VariantRule, 1);
    Fits(tokens, VariantRule, 2);
    assert Scanned(tokens[0]) && Scanned(tokens[2]);
  }

  lemma {:induction false} VariantJoin(n: Value, es: seq<Entry>, rest: seq<Token>)
    ensures [Symbol(Variant), Name(n), Symbol(LBracket)] + (PrintEntries(es) + [Symbol(RBracket)] + rest) ==
            PrintMember(VariantMember(n, es)) + rest
  {
  }

  lemma {:induction false} VariantExact(tokens: seq<Token>)
    requires AllScanned(tokens) && MatchesRule(tokens, VariantRule) && |tokens| >= 4
    requires VariantEntries(tokens[3..]).ParsedEntries?
    ensures var r := VariantEntries(tokens[3..]);
            tokens == PrintMember(VariantMember(tokens[1].value, r.entries)) + r.rest
  {
    var r := VariantEntries(tokens[3..]);
    VariantHead(tokens);
    EntriesExact(tokens[3..]);
    VariantJoin(tokens[1].value, r.entries, r.rest);
  }

  lemma {:induction false} VariableExact(c: Context, tokens: seq<Token>, rule: Rule) returns (m: Member)
    requires AllScanned(tokens) && MatchesRule(tokens, rule) && HandleVariable(c, tokens).Parsed?
    requires rule == MemberRule || rule == ArrayMemberRule
    ensures var r := HandleVariable(c, tokens);
            tokens == PrintMember(m) + r.rest && r.context == WithMember(c, m)
  {
    if rule == MemberRule {
      FieldExact(tokens);
      m := Variable(tokens[0].value, tokens[1].value, false);
    } else {
      ArrayExact(tokens);
      m := Variable(tokens[0].value, tokens[3].value, true);
    }
  }

  lemma {:induction false} VariantMemberExact(c: Context, tokens: seq<Token>) returns (m: Member)
    requires AllScanned(tokens) && MatchesRule(tokens, VariantRule) && HandleVariant(c, tokens).Parsed?
    ensures var r := HandleVariant(c, tokens);
            tokens == PrintMember(m) + r.rest && r.context == WithMember(c, m)
  {
    VariantExact(tokens);
    m := VariantMember(tokens[1].value, VariantEntries(tokens[3..]).entries);
  }

  lemma {:induction false} ExtensionMemberExact(c: Context, tokens: seq<Token>) returns (m: Member)
    requires AllScanned(tokens) && MatchesRule(tokens, ExtensionRule) && HandleExtension(c, tokens).Parsed?
    ensures var r := HandleExtension(c, tokens);
            tokens == PrintMember(m) + r.rest && r.context == WithMember(c, m)
  {
    ExtensionExact(tokens);
    m := Variable(tokens[0].value, Str(""), false);
  }

  lemma {:induction false} StructRules(rule: Rule)
    requires rule in Rules(StructScope)
    ensures rule in [ExtensionRule, VariantRule, MemberRule, ArrayMemberRule]
  {
  }

  lemma {:induction false} MemberByRule(c: Context, tokens: seq<Token>, rule: Rule) returns (m: Member)
    requires AllScanned(tokens) && MatchesRule(tokens, rule) && HandleLeaf(rule, c, tokens).Parsed?
    requires rule in [ExtensionRule, VariantRule, MemberRule, ArrayMemberRule]
    ensures var r := HandleLeaf(rule, c, tokens);
            tokens == PrintMember(m) + r.rest && r.context == WithMember(c, m)
  {
    if rule == ExtensionRule {
      m := ExtensionMemberExact(c, tokens);
    } else if rule == VariantRule {
      m := VariantMemberExact(c, tokens);
    } else {
      m := VariableExact(c, tokens, rule);
    }
  }

  /** One round of the struct loop takes exactly one printed member. */
  lemma {:induction false} MemberExact(c: Context, tokens: seq<Token>) returns (m: Member)
    requires AllScanned(tokens) && tokens != [] && FirstRule(StructScope, tokens).Some?
    requires HandleLeaf(FirstRule(StructScope, tokens).value, c, tokens).Parsed?
    ensures var r := HandleLeaf(FirstRule(StructScope, tokens).value, c, tokens);
            tokens == PrintMember(m) + r.rest && r.context == WithMember(c, m)
  {
    FirstMatches(Rules(StructScope), tokens);
    var rule := FirstRule(StructScope, tokens).value;
    StructRules(rule);
    m := MemberByRule(c, tokens, rule);
  }

  /** A struct body that parses is the print of the members it parses to. */
  lemma {:induction false} MembersExact(c: Context, tokens: seq<Token>) returns (ms: seq<Member>)
    requires AllScanned(tokens) && ParseLeaf(StructScope, c, tokens).Parsed?
    ensures tokens == PrintMembers(ms)
    ensures ParseLeaf(StructScope, c, tokens).context == c.(members := c.members + ms)
    decreases |tokens|
  {
    if tokens == [] {
      ms := [];
      assert c.members + ms == c.members;
    } else {
      var rule := FirstRule(StructScope, tokens).value;
      var r := HandleLeaf(rule, c, tokens);
      var m := MemberExact(c, tokens);
      assert forall i | 0 <= i < |r.rest| :: r.rest[i] == tokens[|PrintMember(m)| + i];
      var rest := MembersExact(r.context, r.rest);
      ms := [m] + rest;
      assert ms[1..] == rest;
      MembersCollected(c, ms);
    }
  }

  /** The struct bodies that are accepted are exactly the printed member lists. */
  lemma {:induction false} BodiesExact(c: Context, tokens: seq<Token>)
    requires AllScanned(tokens)
    ensures ParseLeaf(StructScope, c, tokens).Parsed? <==> exists ms :: tokens == PrintMembers(ms)
  {
    if ParseLeaf(StructScope, c, tokens).Parsed? {
      var ms := MembersExact(c, tokens);
    } else if exists ms :: tokens == PrintMembers(ms) {
      var ms :| tokens == PrintMembers(ms);
      MembersRoundTrip(c, ms);
      assert false;
    }
  }
}
