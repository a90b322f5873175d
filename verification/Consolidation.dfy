/**
  * The pass that replaces each extension of a struct (a member that has a type and no name) by the
  * members of the struct it names. It edits a member list while it iterates over it.
  */
module Consolidation {
  import opened Collections
  import opened Options
  import Text

  /** A member object; `oid` is its identity. Variants are never looked into. */
  datatype Member =
    | Variable(oid: nat, typename: string, name: string, isVariable: bool)
    | Variant(oid: nat, name: string)

  predicate IsExtension(m: Member)
  {
    m.Variable? && m.name == ""
  }

  /** The first struct with the name, ignoring case. */
  function LookupFrom(names: seq<string>, typename: string, i: nat): (r: Option<nat>)
    requires i <= |names|
    ensures r.Some? ==> r.value < |names|
    decreases |names| - i
  {
    if i == |names| then None
    else if Text.Lower(names[i]) == Text.Lower(typename) then Some(i)
    else LookupFrom(names, typename, i + 1)
  }

  function Lookup(names: seq<string>, typename: string): (r: Option<nat>)
    ensures r.Some? ==> r.value < |names|
  {
    LookupFrom(names, typename, 0)
  }

  /** A struct's name and a type's name, compared without regard to case. */
  ghost predicate Names(name: string, typename: string)
  {
    |name| == |typename| && forall i | 0 <= i < |name| :: Text.SameLetter(name[i], typename[i])
  }

  lemma {:induction false} LookupFromFinds(names: seq<string>, typename: string, i: nat)
    requires i <= |names|
    ensures match LookupFrom(names, typename, i)
            case None => forall j | i <= j < |names| :: !Names(names[j], typename)
            case Some(k) => i <= k < |names| && Names(names[k], typename) &&
                            forall j | i <= j < k :: !Names(names[j], typename)
    decreases |names| - i
  {
    if i < |names| {
      Text.SameIgnoringCase(names[i], typename);
      LookupFromFinds(names, typename, i + 1);
    }
  }

  /** A type is resolved to the first struct whose name differs from it at most in the case of letters. */
  lemma {:induction false} LookupFinds(names: seq<string>, typename: string)
    ensures match Lookup(names, typename)
            case None => forall j | 0 <= j < |names| :: !Names(names[j], typename)
            case Some(k) => Names(names[k], typename) && forall j | 0 <= j < k :: !Names(names[j], typename)
  {
    LookupFromFinds(names, typename, 0);
  }

  // ---------------------------------------------------------------- what the pass is for

  /** The structs of a service as parsed, with a rank that decreases along every extension. */
  datatype Structs = Structs(names: seq<string>, members: seq<seq<Member>>, rank: seq<nat>)
  {
    predicate Shaped()
    {
      |names| == |members| == |rank|
    }

    /** No struct extends itself, directly or through others. */
    ghost predicate Acyclic()
      requires Shaped()
    {
      forall i, k | 0 <= i < |names| && 0 <= k < |members[i]| && IsExtension(members[i][k]) ::
        var t := Lookup(names, members[i][k].typename);
        t.Some? ==> rank[t.value] < rank[i]
    }

    /** The extension objects of a struct are different objects. */
    ghost predicate Identified()
      requires Shaped()
    {
      forall i, k, l | 0 <= i < |names| && 0 <= k < l < |members[i]|
                       && IsExtension(members[i][k]) :: members[i][k] != members[i][l]
    }

    ghost predicate Valid()
    {
      Shaped() && Acyclic() && Identified()
    }
  }

  /** A list whose extensions name structs of rank below `r`. */
  ghost predicate Below(s: Structs, ms: seq<Member>, r: nat)
    requires s.Shaped()
  {
    forall k | 0 <= k < |ms| && IsExtension(ms[k]) ::
      var t := Lookup(s.names, ms[k].typename);
      t.Some? ==> s.rank[t.value] < r
  }

  lemma {:induction false} MembersBelow(s: Structs, i: nat)
    requires s.Valid() && i < |s.names|
    ensures Below(s, s.members[i], s.rank[i])
  {
  }

  /** The members that stand for an extension: the whole expansion of the struct it names. */
  ghost function Base(s: Structs, m: Member, r: nat): (ms: seq<Member>)
    requires s.Valid() && IsExtension(m) && Below(s, [m], r)
    decreases r, 0
  {
    var t := Lookup(s.names, m.typename);
    if t.None? then [] else
      assert IsExtension([m][0]);
      Expand(s, t.value)
  }

  /** The recursive in-order expansion of a struct. */
  ghost function Expand(s: Structs, i: nat): (ms: seq<Member>)
    requires s.Valid() && i < |s.names|
    decreases s.rank[i], |s.members[i]| + 1
  {
    MembersBelow(s, i);
    ExpandList(s, s.members[i], s.rank[i])
  }

  ghost function ExpandList(s: Structs, ms: seq<Member>, r: nat): (es: seq<Member>)
    requires s.Valid() && Below(s, ms, r)
    decreases r, |ms|
  {
    if ms == [] then [] else
      assert ms[1..] == ms[1..];
      (if IsExtension(ms[0]) then Base(s, ms[0], r) else [ms[0]]) + ExpandList(s, ms[1..], r)
  }

  ghost predicate Flat(ms: seq<Member>)
  {
    forall k | 0 <= k < |ms| :: !IsExtension(ms[k])
  }

  lemma {:induction false} FlatConcat(a: seq<Member>, b: seq<Member>)
    ensures Flat(a + b) <==> Flat(a) && Flat(b)
  {
    assert forall k | 0 <= k < |a| :: (a + b)[k] == a[k];
    assert forall k | 0 <= k < |b| :: (a + b)[|a| + k] == b[k];
  }

  /** An expansion holds no extension. */
  lemma {:induction false} ExpandFlat(s: Structs, i: nat)
    requires s.Valid() && i < |s.names|
    ensures Flat(Expand(s, i))
    decreases s.rank[i], |s.members[i]| + 1
  {
    MembersBelow(s, i);
    ExpandListFlat(s, s.members[i], s.rank[i]);
  }

  lemma {:induction false} ExpandListFlat(s: Structs, ms: seq<Member>, r: nat)
    requires s.Valid() && Below(s, ms, r)
    ensures Flat(ExpandList(s, ms, r))
    decreases r, |ms|
  {
    if ms != [] {
      if IsExtension(ms[0]) {
        var t := Lookup(s.names, ms[0].typename);
        if t.Some? {
          ExpandFlat(s, t.value);
        }
      }
      ExpandListFlat(s, ms[1..], r);
    }
  }

  // ---------------------------------------------------------------- what the loop does

  /**
    * What is left of a list when a loop that visits it position by position splices each extension
    * it meets. Splicing an empty base pulls the next member into the position just visited, so that
    * member is not visited.
    */
  ghost function Visit(s: Structs, ms: seq<Member>, r: nat): (vs: seq<Member>)
    requires s.Valid() && Below(s, ms, r)
    decreases |ms|
  {
    if ms == [] then []
    else if !IsExtension(ms[0]) then [ms[0]] + Visit(s, ms[1..], r)
    else if Base(s, ms[0], r) != [] then Base(s, ms[0], r) + Visit(s, ms[1..], r)
    else if |ms| == 1 then []
    else [ms[1]] + Visit(s, ms[2..], r)
  }

  /** An extension with an empty base stands right before another extension. */
  ghost predicate SkipAt(s: Structs, ms: seq<Member>, r: nat, k: nat)
    requires s.Valid() && Below(s, ms, r)
  {
    k + 1 < |ms| && IsExtension(ms[k]) && IsExtension(ms[k + 1]) &&
    Below(s, [ms[k]], r) && Base(s, ms[k], r) == []
  }

  ghost predicate Skips(s: Structs, ms: seq<Member>, r: nat)
    requires s.Valid() && Below(s, ms, r)
  {
    exists k: nat :: SkipAt(s, ms, r, k)
  }

  lemma {:induction false} SkipsTail(s: Structs, ms: seq<Member>, r: nat, n: nat)
    requires s.Valid() && Below(s, ms, r) && n <= |ms|
    requires forall k | 0 <= k < n :: !SkipAt(s, ms, r, k)
    ensures Below(s, ms[n..], r)
    ensures Skips(s, ms, r) <==> Skips(s, ms[n..], r)
  {
    var rest := ms[n..];
    forall k: nat
      ensures SkipAt(s, ms, r, n + k) <==> SkipAt(s, rest, r, k)
    {
      if k < |rest| {
        assert rest[k] == ms[n + k];
      }
    }
    if Skips(s, ms, r) {
      var k: nat :| SkipAt(s, ms, r, k);
      assert SkipAt(s, rest, r, k - n);
    }
  }

  /** Visiting the list expands it exactly when no extension is skipped, and a skipped one stays. */
  lemma {:induction false} VisitExact(s: Structs, ms: seq<Member>, r: nat)
    requires s.Valid() && Below(s, ms, r)
    ensures !Skips(s, ms, r) ==> Visit(s, ms, r) == ExpandList(s, ms, r)
    ensures Flat(Visit(s, ms, r)) <==> !Skips(s, ms, r)
    decreases |ms|
  {
    if ms == [] {
    } else if !IsExtension(ms[0]) || Base(s, ms[0], r) != [] {
      SkipsTail(s, ms, r, 1);
      VisitExact(s, ms[1..], r);
      VisitHead(s, ms, r);
    } else {
      VisitAfterEmpty(s, ms, r);
      if |ms| > 1 && !IsExtension(ms[1]) {
        SkipsTail(s, ms, r, 2);
        VisitExact(s, ms[2..], r);
      } else if |ms| > 1 {
        assert SkipAt(s, ms, r, 0);
      }
    }
  }

  lemma {:induction false} VisitAfterEmpty(s: Structs, ms: seq<Member>, r: nat)
    requires s.Valid() && Below(s, ms, r) && ms != []
    requires IsExtension(ms[0]) && Base(s, ms[0], r) == []
    ensures |ms| == 1 ==> Visit(s, ms, r) == ExpandList(s, ms, r) == []
    ensures |ms| > 1 && IsExtension(ms[1]) ==> !Flat(Visit(s, ms, r))
    ensures |ms| > 1 && !IsExtension(ms[1]) ==>
              && Below(s, ms[2..], r)
              && Visit(s, ms, r) == [ms[1]] + Visit(s, ms[2..], r)
              && ExpandList(s, ms, r) == [ms[1]] + ExpandList(s, ms[2..], r)
              && (Flat(Visit(s, ms, r)) <==> Flat(Visit(s, ms[2..], r)))
  {
    if |ms| == 1 {
      assert ms[1..] == [];
    } else if IsExtension(ms[1]) {
      assert Visit(s, ms, r)[0] == ms[1];
    } else {
      var rest := Visit(s, ms[2..], r);
      assert ms[1..][0] == ms[1] && ms[1..][1..] == ms[2..];
      FlatConcat([ms[1]], rest);
    }
  }

  lemma {:induction false} VisitHead(s: Structs, ms: seq<Member>, r: nat)
    requires s.Valid() && Below(s, ms, r) && ms != []
    requires IsExtension(ms[0]) ==> Base(s, ms[0], r) != []
    ensures Flat(Visit(s, ms, r)) <==> Flat(Visit(s, ms[1..], r))
  {
    var rest := Visit(s, ms[1..], r);
    var head := if IsExtension(ms[0]) then Base(s, ms[0], r) else [ms[0]];
    assert Flat(head) by {
      if IsExtension(ms[0]) {
        var t := Lookup(s.names, ms[0].typename);
        ExpandFlat(s, t.value);
      }
    }
    FlatConcat(head, rest);
  }

  /** A struct every extension of which resolves, down to its deepest base, with nothing skipped. */
  ghost predicate Good(s: Structs, i: nat)
    requires s.Valid() && i < |s.names|
    decreases s.rank[i]
  {
    MembersBelow(s, i);
    (forall k | 0 <= k < |s.members[i]| && IsExtension(s.members[i][k]) ::
       var t := Lookup(s.names, s.members[i][k].typename);
       t.Some? && Good(s, t.value)) &&
    !Skips(s, s.members[i], s.rank[i])
  }

  // ---------------------------------------------------------------- consequences

  lemma {:induction false} ExpandListOfFlat(s: Structs, ms: seq<Member>, r: nat)
    requires s.Valid() && Below(s, ms, r) && Flat(ms)
    ensures ExpandList(s, ms, r) == ms
    decreases |ms|
  {
    if ms != [] {
      ExpandListOfFlat(s, ms[1..], r);
      assert ms == [ms[0]] + ms[1..];
    }
  }

  /** Structs without extensions are good and are their own expansion: a second pass changes nothing. */
  lemma {:induction false} ConsolidatedStays(s: Structs, i: nat)
    requires s.Valid() && i < |s.names| && Flat(s.members[i])
    ensures Good(s, i) && Expand(s, i) == s.members[i]
  {
    MembersBelow(s, i);
    ExpandListOfFlat(s, s.members[i], s.rank[i]);
  }

  /** An empty struct, a struct with one member, and one that extends first the one, then the other. */
  function SkippingStructs(): (s: Structs)
  {
    Structs(["e", "b", "d"],
            [[],
             [Variable(0, "int", "x", false)],
             [Variable(1, "e", "", false), Variable(2, "b", "", false)]],
            [0, 0, 1])
  }

  lemma {:induction false} SkippingLookups()
    ensures Lookup(SkippingStructs().names, "e") == Some(0)
    ensures Lookup(SkippingStructs().names, "b") == Some(1)
  {
    var names := SkippingStructs().names;
    Text.LowerStays("e");
    Text.LowerStays("b");
    assert LookupFrom(names, "b", 1) == Some(1);
  }

  lemma {:induction false} SkippingValid()
    ensures SkippingStructs().Valid()
  {
    SkippingLookups();
  }

  lemma {:induction false} SkippingBases()
    ensures SkippingStructs().Valid()
    ensures Expand(SkippingStructs(), 0) == [] && Expand(SkippingStructs(), 1) == SkippingStructs().members[1]
  {
    SkippingValid();
    ConsolidatedStays(SkippingStructs(), 0);
    ConsolidatedStays(SkippingStructs(), 1);
  }

  /** Two extensions of which the first is empty: the second is never replaced. */
  lemma {:induction false} SkippedPair(s: Structs, i: nat, first: Member, second: Member)
    requires s.Valid() && i < |s.names| && s.members[i] == [first, second]
    requires IsExtension(first) && IsExtension(second)
    requires Below(s, [first], s.rank[i]) && Base(s, first, s.rank[i]) == []
    requires Below(s, [second], s.rank[i])
    ensures Below(s, s.members[i], s.rank[i]) && !Good(s, i)
    ensures Visit(s, s.members[i], s.rank[i]) == [second]
    ensures Expand(s, i) == Base(s, second, s.rank[i])
  {
    var ms := s.members[i];
    MembersBelow(s, i);
    assert SkipAt(s, ms, s.rank[i], 0);
    assert ms[1..] == [second] && ms[1..][1..] == [] && ms[2..] == [];
    assert ExpandList(s, ms[1..], s.rank[i]) == Base(s, second, s.rank[i]) + [];
  }

  /** There the second extension is left in the struct, although both bases are known structs. */
  lemma {:induction false} SecondExtensionStays()
    ensures var s := SkippingStructs();
            && s.Valid() && Below(s, s.members[2], s.rank[2]) && !Good(s, 2)
            && Visit(s, s.members[2], s.rank[2]) == [s.members[2][1]]
            && Expand(s, 2) == s.members[1]
  {
    var s := SkippingStructs();
    SkippingLookups();
    SkippingBases();
    SkippedPair(s, 2, s.members[2][0], s.members[2][1]);
  }

  // ---------------------------------------------------------------- the pass

  /** How consolidation ends; `Unresolved` is the error raised for an unknown type. */
  datatype Outcome = Consolidated | Unresolved | Leftover(at: nat)

  /** The first position of a member object. */
  method IndexOf(ms: seq<Member>, m: Member) returns (index: nat)
    requires m in ms
    ensures index < |ms| && ms[index] == m && m !in ms[..index]
  {
    index := 0;
    while ms[index] != m
      invariant index < |ms| && m !in ms[..index]
      decreases |ms| - index
    {
      index := index + 1;
    }
  }

  /** Inserts `base` before position `at`, one member at a time. */
  method InsertAll(ms: seq<Member>, base: seq<Member>, at: nat) returns (result: seq<Member>)
    requires at <= |ms|
    ensures result == ms[..at] + base + ms[at..]
  {
    result := ms;
    var n := 0;
    while n < |base|
      invariant n <= |base|
      invariant result == ms[..at] + base[..n] + ms[at..]
    {
      result := result[..at + n] + [base[n]] + result[at + n..];
      n := n + 1;
    }
  }

  /** Puts `base` where the first occurrence of `m` is and removes `m`. */
  method Splice(ms: seq<Member>, m: Member, base: seq<Member>, ghost at: nat)
    returns (result: seq<Member>)
    requires at < |ms| && ms[at] == m && m !in ms[..at] && m !in base
    ensures result == ms[..at] + base + ms[at + 1..]
  {
    var index := IndexOf(ms, m);
    var grown := InsertAll(ms, base, index);
    assert grown[..at + |base|] == ms[..at] + base && grown[at + |base|] == m;
    var first := IndexOf(grown, m);
    result := grown[..first] + grown[first + 1..];
  }

  /**
    * The loop over struct `i` has visited the positions below `p`. The list is `acc`, which stands
    * for the first `k` members, then the members as parsed.
    */
  ghost predicate Visiting(s: Structs, i: nat, list: seq<Member>, p: nat, acc: seq<Member>, k: nat)
    requires s.Valid() && i < |s.names|
  {
    var ms := s.members[i];
    && k <= |ms|
    && list == acc + ms[k..]
    && Below(s, ms, s.rank[i]) && Below(s, ms[k..], s.rank[i])
    && acc + Visit(s, ms[k..], s.rank[i]) == Visit(s, ms, s.rank[i])
    && (p <= |acc| || (k == |ms| && p == |acc| + 1))
    && (forall n | p <= n < |acc| :: !IsExtension(acc[n]))
    && (forall n | 0 <= n < |acc| && IsExtension(acc[n]) :: acc[n] in ms[..k])
  }

  lemma {:induction false} VisitingStarts(s: Structs, i: nat)
    requires s.Valid() && i < |s.names|
    ensures Visiting(s, i, s.members[i], 0, [], 0)
  {
    MembersBelow(s, i);
    assert s.members[i][0..] == s.members[i];
    assert [] + Visit(s, s.members[i], s.rank[i]) == Visit(s, s.members[i], s.rank[i]);
  }

  /** A member that is no extension is passed over: one of the next parsed ones. */
  lemma {:induction false} VisitingReads(s: Structs, i: nat, list: seq<Member>, p: nat, acc: seq<Member>, k: nat)
    requires s.Valid() && i < |s.names| && Visiting(s, i, list, p, acc, k)
    requires |acc| <= p < |list| && !IsExtension(list[p])
    ensures k < |s.members[i]| && Visiting(s, i, list, p + 1, acc + [list[p]], k + 1)
  {
    var ms := s.members[i];
    assert ms[k..][0] == list[p] && ms[k..][1..] == ms[k + 1..];
    Associate(acc, [list[p]], Visit(s, ms[k + 1..], s.rank[i]));
    Associate(acc, [list[p]], ms[k + 1..]);
    assert ms[..k + 1] == ms[..k] + [ms[k]];
    assert ms[k..] == [ms[k]] + ms[k + 1..];
  }

  /** The same, spliced in or not. */
  lemma {:induction false} VisitingPasses(s: Structs, i: nat, list: seq<Member>, p: nat, acc: seq<Member>, k: nat)
    requires s.Valid() && i < |s.names| && Visiting(s, i, list, p, acc, k)
    requires p < |list| && !IsExtension(list[p])
    ensures p < |acc| ==> Visiting(s, i, list, p + 1, acc, k)
    ensures p >= |acc| ==> k < |s.members[i]| && Visiting(s, i, list, p + 1, acc + [list[p]], k + 1)
  {
    if p >= |acc| {
      VisitingReads(s, i, list, p, acc, k);
    }
  }

  /** An extension at the visited position is the next parsed member, and occurs nowhere before. */
  lemma {:induction false} VisitingMeets(s: Structs, i: nat, list: seq<Member>, p: nat, acc: seq<Member>, k: nat)
    requires s.Valid() && i < |s.names| && Visiting(s, i, list, p, acc, k)
    requires p < |list| && IsExtension(list[p])
    ensures p == |acc| && k < |s.members[i]| && list[p] == s.members[i][k]
    ensures list[p] !in list[..p] && list[..p] == acc && list[p + 1..] == s.members[i][k + 1..]
  {
    var ms := s.members[i];
    assert p >= |acc|;
    assert list[p] == ms[k] && list[..p] == acc;
  }

  /** Splicing a base that has members: they are part of what is still to be visited. */
  lemma {:induction false} VisitingSplices(s: Structs, i: nat, list: seq<Member>, p: nat, acc: seq<Member>, k: nat)
    requires s.Valid() && i < |s.names| && Visiting(s, i, list, p, acc, k)
    requires p == |acc| && k < |s.members[i]| && IsExtension(s.members[i][k])
    ensures Below(s, [s.members[i][k]], s.rank[i])
    ensures var base := Base(s, s.members[i][k], s.rank[i]);
            base != [] ==>
              Visiting(s, i, acc + base + s.members[i][k + 1..], p + 1, acc + base, k + 1)
  {
    var ms := s.members[i];
    assert ms[k..][0] == ms[k] && ms[k..][1..] == ms[k + 1..];
    var base := Base(s, ms[k], s.rank[i]);
    if base != [] {
      var t := Lookup(s.names, ms[k].typename);
      ExpandFlat(s, t.value);
      Associate(acc, base, Visit(s, ms[k + 1..], s.rank[i]));
      assert ms[..k + 1] == ms[..k] + [ms[k]];
    }
  }

  /** Splicing an empty base: the next member slips by. */
  lemma {:induction false} VisitingSkips(s: Structs, i: nat, list: seq<Member>, p: nat, acc: seq<Member>, k: nat)
    requires s.Valid() && i < |s.names| && Visiting(s, i, list, p, acc, k)
    requires p == |acc| && k + 1 < |s.members[i]| && IsExtension(s.members[i][k])
    requires Below(s, [s.members[i][k]], s.rank[i]) && Base(s, s.members[i][k], s.rank[i]) == []
    ensures Visiting(s, i, acc + s.members[i][k + 1..], p + 1, acc + [s.members[i][k + 1]], k + 2)
  {
    var ms := s.members[i];
    assert ms[k..][2..] == ms[k + 2..];
    assert Visit(s, ms[k..], s.rank[i]) == [ms[k + 1]] + Visit(s, ms[k + 2..], s.rank[i]);
  }

  /** Splicing an empty base in the last place: the loop ends. */
  lemma {:induction false} VisitingStops(s: Structs, i: nat, list: seq<Member>, p: nat, acc: seq<Member>, k: nat)
    requires s.Valid() && i < |s.names| && Visiting(s, i, list, p, acc, k)
    requires p == |acc| && k + 1 == |s.members[i]| && IsExtension(s.members[i][k])
    requires Below(s, [s.members[i][k]], s.rank[i]) && Base(s, s.members[i][k], s.rank[i]) == []
    ensures Visiting(s, i, acc + s.members[i][k + 1..], p + 1, acc, k + 1)
  {
    var ms := s.members[i];
    assert ms[k..] == [ms[k]] && ms[k + 1..] == [];
    assert ms[..k + 1] == ms[..k] + [ms[k]];
  }

  /** The loop is over: the list is what visiting the parsed members leaves. */
  lemma {:induction false} VisitingEnds(s: Structs, i: nat, list: seq<Member>, p: nat, acc: seq<Member>, k: nat)
    requires s.Valid() && i < |s.names| && Visiting(s, i, list, p, acc, k)
    requires p >= |list|
    ensures Below(s, s.members[i], s.rank[i])
    ensures list == Visit(s, s.members[i], s.rank[i])
    ensures Flat(list) <==> !Skips(s, s.members[i], s.rank[i])
    ensures Flat(list) ==> list == Expand(s, i)
  {
    assert k == |s.members[i]| && s.members[i][k..] == [];
    assert list == acc;
    VisitExact(s, s.members[i], s.rank[i]);
  }

  /** Extension `k` of struct `i` names a struct, and a good one. */
  ghost predicate BaseGood(s: Structs, i: nat, k: nat)
    requires s.Valid() && i < |s.names| && k < |s.members[i]| && IsExtension(s.members[i][k])
  {
    var t := Lookup(s.names, s.members[i][k].typename);
    t.Some? && Good(s, t.value)
  }

  /** Each extension among the first `k` members was spliced, or is still there. */
  ghost predicate Met(s: Structs, i: nat, acc: seq<Member>, k: nat)
    requires s.Valid() && i < |s.names|
  {
    && k <= |s.members[i]|
    && forall n | 0 <= n < k && IsExtension(s.members[i][n]) ::
         BaseGood(s, i, n) || s.members[i][n] in acc
  }

  ghost predicate Underway(s: Structs, i: nat, list: seq<Member>, p: nat, acc: seq<Member>, k: nat)
  {
    s.Valid() && i < |s.names| && Visiting(s, i, list, p, acc, k) && Met(s, i, acc, k)
  }

  /** What happens to the list of struct `i` when the member at position `p` is visited. */
  ghost predicate VisitStep(s: Structs, i: nat, list: seq<Member>, after: seq<Member>, p: nat,
                            acc: seq<Member>, k: nat)
    requires s.Valid() && i < |s.names| && p < |list|
  {
    if !IsExtension(list[p]) then after == list else
      && p == |acc| && k < |s.members[i]| && IsExtension(s.members[i][k]) && BaseGood(s, i, k)
      && Below(s, [s.members[i][k]], s.rank[i])
      && after == acc + Base(s, s.members[i][k], s.rank[i]) + s.members[i][k + 1..]
  }

  /** The ghost state of the loop after the member at position `p`. */
  lemma {:induction false} Advance(s: Structs, i: nat, list: seq<Member>, after: seq<Member>, p: nat,
                acc: seq<Member>, k: nat)
    returns (acc': seq<Member>, k': nat)
    requires s.Valid() && i < |s.names| && Underway(s, i, list, p, acc, k) && p < |list|
    requires VisitStep(s, i, list, after, p, acc, k)
    ensures Underway(s, i, after, p + 1, acc', k')
    ensures k < k' || (k == k' && acc == acc')
  {
    var ms := s.members[i];
    if !IsExtension(list[p]) {
      VisitingPasses(s, i, list, p, acc, k);
      if p < |acc| {
        return acc, k;
      }
      assert ms[k] == list[p];
      return acc + [list[p]], k + 1;
    }
    VisitingSplices(s, i, list, p, acc, k);
    var base := Base(s, ms[k], s.rank[i]);
    if base != [] {
      return acc + base, k + 1;
    }
    assert acc + base == acc;
    if k + 1 == |ms| {
      VisitingStops(s, i, list, p, acc, k);
      return acc, k + 1;
    }
    VisitingSkips(s, i, list, p, acc, k);
    return acc + [ms[k + 1]], k + 2;
  }

  /** The list is what visiting the parsed members of struct `i` leaves. */
  ghost predicate Visited(s: Structs, i: nat, list: seq<Member>)
    requires s.Valid() && i < |s.names|
  {
    Below(s, s.members[i], s.rank[i]) && list == Visit(s, s.members[i], s.rank[i])
  }

  lemma {:induction false} GoodExactly(s: Structs, i: nat, list: seq<Member>, p: nat, acc: seq<Member>, k: nat)
    requires s.Valid() && i < |s.names| && Underway(s, i, list, p, acc, k) && p >= |list|
    ensures Visited(s, i, list)
    ensures Flat(list) <==> Good(s, i)
    ensures Flat(list) ==> list == Expand(s, i)
  {
    VisitingEnds(s, i, list, p, acc, k);
    assert k == |s.members[i]| && list == acc;
    if Flat(list) {
      forall n | 0 <= n < k && IsExtension(s.members[i][n])
        ensures BaseGood(s, i, n)
      {
        assert s.members[i][n] !in acc;
      }
    }
  }

  /** While struct `i` is rewritten, only structs of lower rank get done, and only those change. */
  ghost predicate Framed(s: Structs, i: nat, before: seq<seq<Member>>, done: set<nat>,
                         after: seq<seq<Member>>, done': set<nat>)
  {
    && s.Shaped() && i < |s.names| && |before| == |after| == |s.names| && done <= done'
    && (forall j | j in done' && j !in done :: j < |s.names| && s.rank[j] < s.rank[i])
    && (forall j: nat | j < |s.names| && j != i && (j !in done' || j in done) :: after[j] == before[j])
  }

  lemma {:induction false} FramedTwice(s: Structs, i: nat, a: seq<seq<Member>>, d: set<nat>,
                    b: seq<seq<Member>>, d': set<nat>, c: seq<seq<Member>>, d'': set<nat>)
    requires s.Shaped() && i < |s.names|
    requires Framed(s, i, a, d, b, d') && Framed(s, i, b, d', c, d'')
    ensures Framed(s, i, a, d, c, d'')
  {
  }

  /** The structs of rank at most `r` that are not done are as parsed. */
  ghost predicate AsParsed(s: Structs, members: seq<seq<Member>>, done: set<nat>, r: nat)
  {
    && s.Shaped() && |members| == |s.names|
    && forall j: nat | j < |s.names| && j !in done && s.rank[j] <= r :: members[j] == s.members[j]
  }

  /** Some struct has an extension whose type names no struct. */
  ghost predicate Dangling(s: Structs)
    requires s.Shaped()
  {
    exists i, k :: 0 <= i < |s.names| && 0 <= k < |s.members[i]| &&
                   IsExtension(s.members[i][k]) && Lookup(s.names, s.members[i][k].typename).None?
  }

  predicate HasExtension(ms: seq<Member>)
    ensures HasExtension(ms) <==> !Flat(ms)
  {
    exists k | 0 <= k < |ms| :: IsExtension(ms[k])
  }

  /** The structs of a service while the pass rewrites them; `parsed` is what the parser gave. */
  class Service {
    const names: seq<string>
    var members: seq<seq<Member>>
    var done: set<nat>
    ghost const parsed: Structs

    constructor (names: seq<string>, members: seq<seq<Member>>, ghost parsed: Structs)
      requires parsed.Valid() && parsed.names == names && parsed.members == members
      ensures Valid() && this.names == names && this.members == members && this.parsed == parsed
      ensures done == {}
    {
      this.names, this.members, this.parsed, this.done := names, members, parsed, {};
    }

    ghost predicate Valid()
      reads this
    {
      && parsed.Valid() && names == parsed.names && |members| == |names|
      && (forall j | j in done :: j < |names| && Good(parsed, j) && members[j] == Expand(parsed, j))
    }

    /** The structs of rank at most `r` that are not done are as parsed. */
    ghost predicate Pending(r: nat)
      requires Valid()
      reads this
    {
      AsParsed(parsed, members, done, r)
    }

    /** An extension is left in struct `j`. */
    ghost predicate LeftAt(j: nat)
      reads this
    {
      j < |members| && j < |parsed.rank| && !Flat(members[j])
    }

    /** One member of struct `i`, the one at position `p` of its list. */
    method ConsolidateMember(i: nat, p: nat, ghost acc: seq<Member>, ghost k: nat)
      returns (out: Outcome)
      requires Valid() && i < |names| && i !in done && p < |members[i]|
      requires Visiting(parsed, i, members[i], p, acc, k)
      requires forall j: nat | j < |names| && j !in done && j != i && parsed.rank[j] <= parsed.rank[i] ::
                 members[j] == parsed.members[j]
      modifies this`members, this`done
      ensures !out.Consolidated? ==> !Good(parsed, i)
      ensures out.Unresolved? ==> Dangling(parsed)
      ensures out.Leftover? ==> LeftAt(out.at) && parsed.rank[out.at] < parsed.rank[i]
      ensures out.Consolidated? ==> Valid() && i !in done
      ensures out.Consolidated? ==> Framed(parsed, i, old(members), old(done), members, done)
      ensures out.Consolidated? ==>
                VisitStep(parsed, i, old(members[i]), members[i], p, acc, k)
      decreases parsed.rank[i], 0
    {
      var member := members[i][p];
      if !IsExtension(member) {
        return Consolidated;
      }
      VisitingMeets(parsed, i, members[i], p, acc, k);
      var target := Lookup(names, member.typename);
      if target.None? {
        return Unresolved;
      }
      var t := target.value;
      if t !in done {
        out := ConsolidateStruct(t);
        if !out.Consolidated? {
          return;
        }
      }
      ExpandFlat(parsed, t);
      var spliced := Splice(members[i], member, members[t], p);
      members := members[i := spliced];
      out := Consolidated;
    }

    /** The loop over struct `i` has reached position `p`; `before` and `finished` are the state it began in. */
    ghost predicate At(i: nat, p: nat, acc: seq<Member>, k: nat, before: seq<seq<Member>>, finished: set<nat>)
      reads this
    {
      && Valid() && i < |names| && i !in done
      && Underway(parsed, i, members[i], p, acc, k)
      && Framed(parsed, i, before, finished, members, done)
    }

    /** One turn of the loop over the member list of struct `i`. */
    method VisitNext(i: nat, p: nat, ghost acc: seq<Member>, ghost k: nat,
                     ghost before: seq<seq<Member>>, ghost finished: set<nat>)
      returns (out: Outcome, ghost acc': seq<Member>, ghost k': nat)
      requires At(i, p, acc, k, before, finished) && p < |members[i]|
      requires AsParsed(parsed, before, finished, parsed.rank[i])
      modifies this`members, this`done
      ensures !out.Consolidated? ==> !Good(parsed, i)
      ensures out.Unresolved? ==> Dangling(parsed)
      ensures out.Leftover? ==> LeftAt(out.at) && parsed.rank[out.at] < parsed.rank[i]
      ensures out.Consolidated? ==> At(i, p + 1, acc', k', before, finished)
      ensures k < k' || (k == k' && acc == acc')
      decreases parsed.rank[i], 1
    {
      ghost var now, ended := members, done;
      out := ConsolidateMember(i, p, acc, k);
      acc', k' := acc, k;
      if out.Consolidated? {
        FramedTwice(parsed, i, before, finished, now, ended, members, done);
        acc', k' := Advance(parsed, i, now[i], members[i], p, acc, k);
      }
    }

    /** The loop over the live member list of struct `i`. */
    method VisitMembers(i: nat) returns (out: Outcome, p: nat, ghost acc: seq<Member>, ghost k: nat)
      requires Valid() && i < |names| && i !in done && Pending(parsed.rank[i])
      modifies this`members, this`done
      ensures !out.Consolidated? ==> !Good(parsed, i)
      ensures out.Unresolved? ==> Dangling(parsed)
      ensures out.Leftover? ==> LeftAt(out.at) && parsed.rank[out.at] < parsed.rank[i]
      ensures out.Consolidated? ==> At(i, p, acc, k, old(members), old(done)) && p >= |members[i]|
      decreases parsed.rank[i], 2
    {
      out, p, acc, k := Consolidated, 0, [], 0;
      VisitingStarts(parsed, i);
      while p < |members[i]|
        invariant out.Consolidated? <==> At(i, p, acc, k, old(members), old(done))
        invariant out.Consolidated?
        decreases |parsed.members[i]| - k, |acc| + 1 - p
      {
        out, acc, k := VisitNext(i, p, acc, k, old(members), old(done));
        if !out.Consolidated? {
          return;
        }
        p := p + 1;
      }
    }

    /** Visits the members of struct `i`, and looks whether an extension is left. */
    method ConsolidateMembers(i: nat) returns (out: Outcome)
      requires Valid() && i < |names| && i !in done && Pending(parsed.rank[i])
      modifies this`members, this`done
      ensures !out.Leftover? ==> (out.Consolidated? <==> Good(parsed, i))
      ensures out.Unresolved? ==> Dangling(parsed)
      ensures out.Leftover? ==> LeftAt(out.at) && parsed.rank[out.at] <= parsed.rank[i] && !Good(parsed, i)
      ensures out.Consolidated? || out == Leftover(i) ==> |members| == |names| && Visited(parsed, i, members[i])
      ensures out.Consolidated? ==> Valid() && i !in done && members[i] == Expand(parsed, i)
      ensures out.Consolidated? ==> Framed(parsed, i, old(members), old(done), members, done)
      decreases parsed.rank[i], 3
    {
      var p;
      ghost var acc, k;
      out, p, acc, k := VisitMembers(i);
      if out.Consolidated? {
        GoodExactly(parsed, i, members[i], p, acc, k);
        if HasExtension(members[i]) {
          out := Leftover(i);
        }
      }
    }

    /**
      * Consolidates struct `i` unless it is done. `Leftover` marks the moment a struct is finished
      * with an extension still in it.
      */
    method ConsolidateStruct(i: nat) returns (out: Outcome)
      requires Valid() && i < |names| && Pending(parsed.rank[i])
      modifies this`members, this`done
      ensures out.Consolidated? <==> Good(parsed, i)
      ensures out.Unresolved? ==> Dangling(parsed)
      ensures out.Leftover? ==> LeftAt(out.at) && parsed.rank[out.at] <= parsed.rank[i]
      ensures out.Consolidated? ==> Valid() && i in done && old(done) <= done
      ensures out.Consolidated? ==>
                forall j | j in done && j !in old(done) :: parsed.rank[j] <= parsed.rank[i]
      ensures out.Consolidated? ==>
                forall j: nat | j < |names| && (j !in done || j in old(done)) ::
                  members[j] == old(members)[j]
      decreases parsed.rank[i], 4
    {
      if i in done {
        return Consolidated;
      }
      out := ConsolidateMembers(i);
      if out.Consolidated? {
        done := done + {i};
      }
    }

    /**
      * The pass over all structs, in the order they were declared. It succeeds exactly when every
      * struct is good, and then each struct is its full expansion.
      */
    method Consolidate() returns (out: Outcome)
      requires Valid() && members == parsed.members
      modifies this`members, this`done
      ensures out.Consolidated? <==> forall i: nat | i < |names| :: Good(parsed, i)
      ensures out.Consolidated? ==> Valid() && |members| == |names|
      ensures out.Consolidated? ==> forall i: nat | i < |names| ::
                                      members[i] == Expand(parsed, i) && Flat(members[i])
      ensures out.Unresolved? ==> Dangling(parsed)
      ensures out.Leftover? ==> LeftAt(out.at)
    {
      done := {};
      var i := 0;
      while i < |names|
        invariant i <= |names| && Valid()
        invariant forall j: nat | j < i :: j in done
        invariant forall j: nat | j < |names| && j !in done :: members[j] == parsed.members[j]
      {
        out := ConsolidateStruct(i);
        if !out.Consolidated? {
          return;
        }
        i := i + 1;
      }
      forall j: nat | j < |names|
        ensures Flat(Expand(parsed, j))
      {
        ExpandFlat(parsed, j);
      }
      out := Consolidated;
    }
  }

  /** The pass run on its own result: it succeeds, and changes nothing. */
  method ConsolidateTwice(names: seq<string>, members: seq<seq<Member>>, ghost parsed: Structs)
    returns (first: Outcome, once: seq<seq<Member>>, second: Outcome, twice: seq<seq<Member>>)
    requires parsed.Valid() && parsed.names == names && parsed.members == members
    ensures first.Consolidated? <==> forall i: nat | i < |names| :: Good(parsed, i)
    ensures first.Consolidated? ==> second.Consolidated? && twice == once
  {
    var service := new Service(names, members, parsed);
    first := service.Consolidate();
    once, second, twice := service.members, first, service.members;
    if first.Consolidated? {
      ghost var flattened := Structs(names, once, parsed.rank);
      assert flattened.Valid();
      forall i: nat | i < |names|
        ensures Good(flattened, i) && Expand(flattened, i) == once[i]
      {
        ConsolidatedStays(flattened, i);
      }
      var again := new Service(names, once, flattened);
      second := again.Consolidate();
      twice := again.members;
    }
  }
}
