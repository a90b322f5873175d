/** Tokens of a protocol file, and the matching of a token list against a syntax pattern. */
module ProtocolTokens {
  import opened Options

  datatype Kind =
    | Identifier | Digit | LBracket | RBracket | LParenthesis | RParenthesis | LIndex | RIndex
    | Equal | Comma | Colon | Semicolon | Struct | Enum | Service | Func | Define | Namespace
    | Event | Import | Quote | From | Variant | OptionWord

  /** What a token carries: a text, a number, or nothing. */
  datatype Value = NoValue | Str(text: string) | Num(number: int)

  datatype Token = Token(kind: Kind, value: Value)

  /** One place of a syntax: a kind, a choice of kinds, or any run of tokens up to the next place. */
  datatype Pattern = Is(kind: Kind) | OneOf(kinds: seq<Kind>) | Run

  predicate Accepts(p: Pattern, k: Kind)
  {
    match p
    case Is(kind) => k == kind
    case OneOf(kinds) => k in kinds
    case Run => false
  }

  /** A run is followed by the kind that ends it. */
  predicate WellFormed(syntax: seq<Pattern>)
  {
    syntax != [] ==>
      (syntax[0].Run? ==> |syntax| > 1 && syntax[1].Is?) && WellFormed(syntax[1..])
  }

  predicate RunEnds(syntax: seq<Pattern>, j: nat)
    requires j < |syntax|
  {
    syntax[j].Run? ==> j + 1 < |syntax| && syntax[j + 1].Is?
  }

  lemma {:induction false} WellFormedPlaces(syntax: seq<Pattern>)
    requires forall j: nat | j < |syntax| :: RunEnds(syntax, j)
    ensures WellFormed(syntax)
    decreases |syntax|
  {
    if syntax != [] {
      assert RunEnds(syntax, 0);
      forall j: nat | j < |syntax[1..]|
        ensures RunEnds(syntax[1..], j)
      {
        assert RunEnds(syntax, j + 1);
      }
      WellFormedPlaces(syntax[1..]);
    }
  }

  /** The tokens from the first one of kind `k` on. */
  function SkipTo(tokens: seq<Token>, k: Kind): (rest: seq<Token>)
    ensures |rest| <= |tokens|
    ensures rest != [] ==> rest[0].kind == k
  {
    if tokens == [] || tokens[0].kind == k then tokens else SkipTo(tokens[1..], k)
  }

  lemma {:induction false} SkipSuffix(tokens: seq<Token>, k: Kind)
    ensures SkipTo(tokens, k) == tokens[|tokens| - |SkipTo(tokens, k)|..]
    decreases |tokens|
  {
    if tokens != [] && tokens[0].kind != k {
      SkipSuffix(tokens[1..], k);
    }
  }

  /** Matching stops with success as soon as either list is used up. */
  predicate Matches(tokens: seq<Token>, syntax: seq<Pattern>)
    requires WellFormed(syntax)
    decreases |syntax|
  {
    if tokens == [] || syntax == [] then true
    else if syntax[0].Run? then
      var rest := SkipTo(tokens, syntax[1].kind);
      rest != [] && Matches(rest, syntax[1..])
    else
      Accepts(syntax[0], tokens[0].kind) && Matches(tokens[1..], syntax[1..])
  }

  method MatchOption(k: Kind, kinds: seq<Kind>) returns (found: bool)
    ensures found <==> k in kinds
  {
    found := false;
    var n := 0;
    while n < |kinds|
      invariant n <= |kinds| && !found && k !in kinds[..n]
    {
      if k == kinds[n] {
        return true;
      }
      n := n + 1;
    }
  }

  /** The inner loop over a run of tokens. */
  method SkipRun(tokens: seq<Token>, start: nat, k: Kind) returns (i: nat)
    requires start <= |tokens|
    ensures start <= i <= |tokens| && tokens[i..] == SkipTo(tokens[start..], k)
  {
    i := start;
    while i < |tokens| && tokens[i].kind != k
      invariant start <= i <= |tokens|
      invariant SkipTo(tokens[start..], k) == SkipTo(tokens[i..], k)
    {
      assert tokens[i..][1..] == tokens[i + 1..];
      i := i + 1;
    }
  }

  lemma {:induction false} MatchesStep(tokens: seq<Token>, syntax: seq<Pattern>, i: nat, j: nat)
    requires i < |tokens| && j < |syntax| && WellFormed(syntax[j..])
    ensures WellFormed(syntax[j + 1..])
    ensures syntax[j].Run? ==>
              && j + 1 < |syntax| && syntax[j + 1].Is?
              && (Matches(tokens[i..], syntax[j..]) <==>
                  var rest := SkipTo(tokens[i..], syntax[j + 1].kind);
                  rest != [] && Matches(rest, syntax[j + 1..]))
    ensures !syntax[j].Run? ==>
              (Matches(tokens[i..], syntax[j..]) <==>
               Accepts(syntax[j], tokens[i].kind) && Matches(tokens[i + 1..], syntax[j + 1..]))
  {
    assert tokens[i..][1..] == tokens[i + 1..] && syntax[j..][1..] == syntax[j + 1..];
    if syntax[j].Run? {
      assert syntax[j..][0] == syntax[j] && syntax[j..][1] == syntax[j + 1];
    }
  }

  /** The loop over a token index and a syntax index. */
  method MatchSyntax(tokens: seq<Token>, syntax: seq<Pattern>) returns (matched: bool)
    requires WellFormed(syntax)
    ensures matched <==> Matches(tokens, syntax)
  {
    var i, j := 0, 0;
    while i < |tokens| && j < |syntax|
      invariant i <= |tokens| && j <= |syntax| && WellFormed(syntax[j..])
      invariant Matches(tokens, syntax) <==> Matches(tokens[i..], syntax[j..])
      decreases |syntax| - j
    {
      MatchesStep(tokens, syntax, i, j);
      match syntax[j]
      case OneOf(kinds) =>
        var found := MatchOption(tokens[i].kind, kinds);
        if !found {
          return false;
        }
        i, j := i + 1, j + 1;
      case Is(kind) =>
        if tokens[i].kind != kind {
          return false;
        }
        i, j := i + 1, j + 1;
      case Run =>
        j := j + 1;
        i := SkipRun(tokens, i, syntax[j].kind);
        if i == |tokens| {
          return false;
        }
    }
    matched := true;
  }

  /** The number of open brackets after a token of kind `k` that does not close the outermost one. */
  function Inner(k: Kind, level: nat): (n: nat)
    requires !(k == RBracket && level == 0)
  {
    if k == LBracket then level + 1 else if k == RBracket then level - 1 else level
  }

  /** A position counted from `i` tokens further on. */
  function From(i: nat, r: Option<nat>): (s: Option<nat>)
  {
    match r
    case None => None
    case Some(n) => Some(i + n)
  }

  /** The position of the closing bracket that `level` open brackets leave unmatched. */
  function Closing(tokens: seq<Token>, level: nat): (r: Option<nat>)
    ensures r.Some? ==> r.value < |tokens| && tokens[r.value].kind == RBracket
  {
    if tokens == [] then None
    else if tokens[0].kind == RBracket && level == 0 then Some(0)
    else From(1, Closing(tokens[1..], Inner(tokens[0].kind, level)))
  }

  /** The same, by index. */
  function ClosingFrom(tokens: seq<Token>, i: nat, level: nat): (r: Option<nat>)
    requires i <= |tokens|
    decreases |tokens| - i
  {
    if i == |tokens| then None
    else if tokens[i].kind == RBracket && level == 0 then Some(i)
    else ClosingFrom(tokens, i + 1, Inner(tokens[i].kind, level))
  }

  lemma {:induction false} ClosingByIndex(tokens: seq<Token>, i: nat, level: nat)
    requires i <= |tokens|
    ensures ClosingFrom(tokens, i, level) == From(i, Closing(tokens[i..], level))
    decreases |tokens| - i
  {
    if i < |tokens| && !(tokens[i].kind == RBracket && level == 0) {
      assert tokens[i..][1..] == tokens[i + 1..];
      ClosingByIndex(tokens, i + 1, Inner(tokens[i].kind, level));
    }
  }

  method MatchingRBracket(tokens: seq<Token>) returns (r: Option<nat>)
    ensures r == Closing(tokens, 0)
  {
    ClosingByIndex(tokens, 0, 0);
    assert tokens[0..] == tokens;
    var level: nat, i: nat := 0, 0;
    while i < |tokens|
      invariant i <= |tokens| && ClosingFrom(tokens, 0, 0) == ClosingFrom(tokens, i, level)
    {
      if tokens[i].kind == LBracket {
        level := level + 1;
      } else if tokens[i].kind == RBracket {
        if level == 0 {
          return Some(i);
        }
        level := level - 1;
      }
      i := i + 1;
    }
    r := None;
  }

  /** The depth after `tokens`, if no bracket in them closes one that was open before. */
  function Depth(tokens: seq<Token>, level: nat): (r: Option<nat>)
  {
    if tokens == [] then Some(level)
    else if tokens[0].kind == RBracket && level == 0 then None
    else Depth(tokens[1..], Inner(tokens[0].kind, level))
  }

  /** The matching bracket is the first one at which the depth would fall below the start. */
  lemma {:induction false} ClosingAfter(a: seq<Token>, b: seq<Token>, level: nat)
    requires Depth(a, level).Some?
    ensures Closing(a + b, level) == From(|a|, Closing(b, Depth(a, level).value))
    decreases |a|
  {
    if a == [] {
      assert a + b == b;
    } else {
      assert (a + b)[0] == a[0] && (a + b)[1..] == a[1..] + b;
      ClosingAfter(a[1..], b, Inner(a[0].kind, level));
    }
  }

  lemma {:induction false} DepthConcat(a: seq<Token>, b: seq<Token>, level: nat)
    requires Depth(a, level).Some?
    ensures Depth(a + b, level) == Depth(b, Depth(a, level).value)
    decreases |a|
  {
    if a == [] {
      assert a + b == b;
    } else {
      assert (a + b)[0] == a[0] && (a + b)[1..] == a[1..] + b;
      DepthConcat(a[1..], b, Inner(a[0].kind, level));
    }
  }

  predicate Without(tokens: seq<Token>, k: Kind)
  {
    forall i | 0 <= i < |tokens| :: tokens[i].kind != k
  }

  lemma {:induction false} DepthWithout(tokens: seq<Token>, level: nat)
    requires Without(tokens, LBracket) && Without(tokens, RBracket)
    ensures Depth(tokens, level) == Some(level)
    decreases |tokens|
  {
    if tokens != [] {
      DepthWithout(tokens[1..], level);
    }
  }

  lemma {:induction false} SkipOver(a: seq<Token>, b: seq<Token>, k: Kind)
    requires Without(a, k)
    ensures SkipTo(a + b, k) == SkipTo(b, k)
    decreases |a|
  {
    if a == [] {
      assert a + b == b;
    } else {
      assert (a + b)[0] == a[0] && (a + b)[1..] == a[1..] + b;
      SkipOver(a[1..], b, k);
    }
  }

  /** Without runs, matching is place by place, as far as both lists go. */
  lemma {:induction false} MatchesPlaces(tokens: seq<Token>, syntax: seq<Pattern>)
    requires WellFormed(syntax)
    requires forall j | 0 <= j < |syntax| :: !syntax[j].Run?
    ensures Matches(tokens, syntax) <==>
            forall j | 0 <= j < |syntax| && j < |tokens| :: Accepts(syntax[j], tokens[j].kind)
    decreases |syntax|
  {
    if syntax != [] && tokens != [] {
      MatchesPlaces(tokens[1..], syntax[1..]);
      assert forall j | 0 < j < |syntax| && j < |tokens| ::
        syntax[j] == syntax[1..][j - 1] && tokens[j] == tokens[1..][j - 1];
    }
  }
}
