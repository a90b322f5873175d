/** Strings as the protocol compiler uses them. */
module Text {
  function LowerChar(c: char): (d: char)
  {
    if 'A' <= c <= 'Z' then c - 'A' + 'a' else c
  }

  /** Lower case, for the letters that identifiers are made of. */
  function Lower(s: string): (t: string)
    ensures |t| == |s|
  {
    if s == "" then "" else [LowerChar(s[0])] + Lower(s[1..])
  }

  /** Two characters that are the same letter, or the same anyway. */
  predicate SameLetter(c: char, d: char)
  {
    || c == d
    || ('A' <= c <= 'Z' && d as int == c as int + 32)
    || ('A' <= d <= 'Z' && c as int == d as int + 32)
  }

  /** Lower case forgets the case of letters and nothing else. */
  lemma {:induction false} SameIgnoringCase(s: string, t: string)
    ensures Lower(s) == Lower(t) <==> |s| == |t| && forall i | 0 <= i < |s| :: SameLetter(s[i], t[i])
    decreases |s|
  {
    if |s| == |t| > 0 {
      SameIgnoringCase(s[1..], t[1..]);
      assert Lower(s)[0] == LowerChar(s[0]) && Lower(s)[1..] == Lower(s[1..]);
      assert Lower(t)[0] == LowerChar(t[0]) && Lower(t)[1..] == Lower(t[1..]);
      assert Lower(s) == Lower(t) <==> LowerChar(s[0]) == LowerChar(t[0]) && Lower(s[1..]) == Lower(t[1..]);
      assert forall i | 0 < i < |s| :: s[i] == s[1..][i - 1] && t[i] == t[1..][i - 1];
    }
  }

  lemma {:induction false} LowerStays(s: string)
    requires forall i | 0 <= i < |s| :: !('A' <= s[i] <= 'Z')
    ensures Lower(s) == s
    decreases |s|
  {
    if s != "" {
      LowerStays(s[1..]);
    }
  }
}
