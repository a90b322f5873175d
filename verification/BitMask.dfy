/**
  * Bitwise AND on unsigned machine words, written on naturals so that the masks
  * `x & (2^k - 1)` and `x & ~(2^k - 1)` of the C runtime can be related to
  * remainders.
  */
module BitMask {

  function Pow2(k: nat): (r: nat)
    ensures r >= 1
  {
    if k == 0 then 1 else 2 * Pow2(k - 1)
  }

  /** Bitwise AND of two naturals, least significant bit first. */
  function And(a: nat, b: nat): (r: nat)
    ensures r <= b
  {
    if a == 0 || b == 0 then 0
    else 2 * And(a / 2, b / 2) + (if a % 2 == 1 && b % 2 == 1 then 1 else 0)
  }

  lemma {:induction false} DoubleRemainder(a: nat, m: nat)
    requires m > 0
    ensures a % (2 * m) == 2 * ((a / 2) % m) + a % 2
  {
    var q, r := (a / 2) / m, (a / 2) % m;
    assert a == 2 * (a / 2) + a % 2;
    assert a / 2 == m * q + r;
    assert a == (2 * m) * q + (2 * r + a % 2) by {
      assert 2 * (m * q) == (2 * m) * q;
    }
    RemainderUnique(a, 2 * m, q, 2 * r + a % 2);
  }

  lemma {:induction false} RemainderUnique(a: nat, m: nat, q: nat, r: nat)
    requires m > 0 && r < m && a == m * q + r
    ensures a % m == r && a / m == q
  {
    var d := q - a / m;
    assert m * d == m * q - m * (a / m) == a % m - r;
    if d >= 1 {
      MulAtLeast(m, d);
    } else if d <= -1 {
      MulAtLeast(m, -d);
    }
  }

  lemma {:induction false} MulAtLeast(m: nat, d: int)
    requires d >= 1
    ensures m * d >= m
  {
  }

  lemma {:induction false} AndOdd(a: nat, b: nat)
    requires a > 0
    ensures And(a, 2 * b + 1) == 2 * And(a / 2, b) + a % 2
  {
    assert (2 * b + 1) / 2 == b && (2 * b + 1) % 2 == 1;
  }

  lemma {:induction false} MaskBit(a: nat, m: nat)
    requires m > 0 && And(a / 2, m - 1) == (a / 2) % m
    ensures And(a, 2 * m - 1) == a % (2 * m)
  {
    if a == 0 {
      RemainderUnique(0, 2 * m, 0, 0);
    } else {
      DoubleRemainder(a, m);
      AndOdd(a, m - 1);
    }
  }

  /** A modulus whose remainders are what masking with one less keeps. */
  ghost predicate MasksRemainder(m: nat)
  {
    m > 0 && forall a: nat :: And(a, m - 1) == a % m
  }

  /** One more bit of the mask doubles the modulus. */
  lemma {:induction false} MaskDoubles(m: nat)
    requires MasksRemainder(m)
    ensures MasksRemainder(2 * m)
  {
    forall a: nat
      ensures And(a, 2 * m - 1) == a % (2 * m)
    {
      MaskBit(a, m);
    }
  }

  lemma {:induction false} PowersMask(k: nat)
    ensures MasksRemainder(Pow2(k))
    decreases k
  {
    if k == 0 {
      assert MasksRemainder(1);
    } else {
      PowersMask(k - 1);
      MaskDoubles(Pow2(k - 1));
    }
  }

  /** Masking with 2^k - 1 is the remainder modulo 2^k. */
  lemma {:induction false} MaskIsRemainder(a: nat, k: nat)
    ensures And(a, Pow2(k) - 1) == a % Pow2(k)
  {
    PowersMask(k);
  }

  /** Stepping an index under the mask of a power-of-two capacity wraps to zero at the end. */
  lemma {:induction false} MaskedStep(i: nat, cap: nat, k: nat)
    requires cap == Pow2(k) && i < cap
    ensures And(i + 1, cap - 1) == if i + 1 == cap then 0 else i + 1
  {
    MaskIsRemainder(i + 1, k);
    if i + 1 == cap {
      RemainderUnique(i + 1, cap, 1, 0);
    } else {
      RemainderUnique(i + 1, cap, 0, i + 1);
    }
  }
}
