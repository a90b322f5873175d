/**
  * The table-driven CRC-32 and CRC-16 of the runtime, against long division of the message
  * bits by the generator polynomial. CRC-32 is the algorithm of section 8 of RFC 1952.
  */
module Crc {
  import opened BitMask
  import opened Machine

  // ---------------------------------------------------------------- words

  function ToNat(w: Bits): (n: nat)
    ensures n < Pow2(|w|)
  {
    if w == [] then 0 else (if w[0] then 1 else 0) + 2 * ToNat(w[1..])
  }

  function FromNat(n: nat, width: nat): (w: Bits)
    ensures |w| == width
  {
    if width == 0 then [] else [n % 2 == 1] + FromNat(n / 2, width - 1)
  }

  function Zeros(n: nat): (w: Bits)
  {
    seq(n, _ => false)
  }

  function Xor(a: Bits, b: Bits): (r: Bits)
    requires |a| == |b|
    ensures |r| == |a|
  {
    seq(|a|, i requires 0 <= i < |a| => a[i] != b[i])
  }

  /** `w >> n`. */
  function ShiftRight(w: Bits, n: nat): (r: Bits)
    requires n <= |w|
    ensures |r| == |w|
  {
    w[n..] + Zeros(n)
  }

  /** A word extended with zeros. */
  function Extend(w: Bits, width: nat): (r: Bits)
    requires |w| <= width
    ensures |r| == width
  {
    w + Zeros(width - |w|)
  }

  // ---------------------------------------------------------------- messages and long division

  function ByteBits(b: Byte): (bits: Bits)
    ensures |bits| == 8
  {
    FromNat(b, 8)
  }

  /** A message as the bits of its bytes in order, each least significant first. */
  function MessageBits(data: seq<Byte>): (bits: seq<bool>)
    ensures |bits| == 8 * |data|
  {
    if data == [] then [] else ByteBits(data[0]) + MessageBits(data[1..])
  }

  /** `w` with `g` subtracted modulo two from its leading coefficients. */
  function Minus(w: seq<bool>, g: seq<bool>): (r: seq<bool>)
    requires |g| <= |w|
    ensures |r| == |w|
  {
    Xor(w[..|g|], g) + w[|g|..]
  }

  /**
    * Schoolbook division modulo two: the remainder of `w`, highest coefficient first, by the monic
    * polynomial whose other coefficients are `g`.
    */
  function Remainder(w: seq<bool>, g: seq<bool>): (r: seq<bool>)
    requires |g| <= |w|
    ensures |r| == |g|
    decreases |w|
  {
    if |w| == |g| then w
    else Remainder(if w[0] then Minus(w[1..], g) else w[1..], g)
  }

  // ---------------------------------------------------------------- the shift register

  /** One step of the reflected division: shift right, subtracting the polynomial if a one fell out. */
  function Shift(poly: Bits, r: Bits): (s: Bits)
    requires |r| == |poly| > 0
    ensures |s| == |poly|
  {
    if r[0] then Xor(ShiftRight(r, 1), poly) else ShiftRight(r, 1)
  }

  function Shifts(poly: Bits, r: Bits, n: nat): (s: Bits)
    requires |r| == |poly| > 0
    ensures |s| == |poly|
    decreases n
  {
    if n == 0 then r else Shifts(poly, Shift(poly, r), n - 1)
  }

  /** The register after one more message bit. */
  function Absorb(poly: Bits, r: Bits, bit: bool): (s: Bits)
    requires |r| == |poly| > 0
    ensures |s| == |poly|
  {
    if r[0] != bit then Xor(ShiftRight(r, 1), poly) else ShiftRight(r, 1)
  }

  function AbsorbAll(poly: Bits, r: Bits, bits: seq<bool>): (s: Bits)
    requires |r| == |poly| > 0
    ensures |s| == |poly|
    decreases |bits|
  {
    if bits == [] then r else AbsorbAll(poly, Absorb(poly, r, bits[0]), bits[1..])
  }

  lemma {:induction false} AbsorbConcat(poly: Bits, r: Bits, a: seq<bool>, b: seq<bool>)
    requires |r| == |poly| > 0
    ensures AbsorbAll(poly, r, a + b) == AbsorbAll(poly, AbsorbAll(poly, r, a), b)
    decreases |a|
  {
    if a == [] {
      assert a + b == b;
    } else {
      assert (a + b)[1..] == a[1..] + b;
      AbsorbConcat(poly, Absorb(poly, r, a[0]), a[1..], b);
    }
  }

  /** Bits still to come, followed by zeros, with the register subtracted from the front. */
  function Dividend(r: Bits, bits: seq<bool>): (w: seq<bool>)
    ensures |w| == |bits| + |r|
  {
    Minus(bits + Zeros(|r|), r)
  }

  lemma {:induction false} MinusAt(w: seq<bool>, g: seq<bool>, i: nat)
    requires |g| <= |w| && i < |w|
    ensures Minus(w, g)[i] == if i < |g| then w[i] != g[i] else w[i]
  {
  }

  lemma {:induction false} AbsorbAt(poly: Bits, r: Bits, bit: bool, i: nat)
    requires |r| == |poly| > 0 && i < |r|
    ensures Absorb(poly, r, bit)[i] ==
            ((i + 1 < |r| && r[i + 1]) != (r[0] != bit && poly[i]))
  {
  }

  lemma {:induction false} ShiftAt(poly: Bits, r: Bits, i: nat)
    requires |r| == |poly| > 0 && i < |r|
    ensures Shift(poly, r)[i] == ((i + 1 < |r| && r[i + 1]) != (r[0] && poly[i]))
  {
  }

  lemma {:induction false} DividendAt(r: Bits, bits: seq<bool>, i: nat)
    requires i < |bits| + |r|
    ensures Dividend(r, bits)[i] == ((i < |bits| && bits[i]) != (i < |r| && r[i]))
  {
    MinusAt(bits + Zeros(|r|), r, i);
  }

  lemma {:induction false} DividendStep(poly: Bits, r: Bits, bits: seq<bool>)
    requires |r| == |poly| > 0 && bits != []
    ensures var w := Dividend(r, bits);
            Dividend(Absorb(poly, r, bits[0]), bits[1..]) == if w[0] then Minus(w[1..], poly) else w[1..]
  {
    var w := Dividend(r, bits);
    var s := Absorb(poly, r, bits[0]);
    var next := if w[0] then Minus(w[1..], poly) else w[1..];
    DividendAt(r, bits, 0);
    forall i | 0 <= i < |next|
      ensures Dividend(s, bits[1..])[i] == next[i]
    {
      DividendAt(s, bits[1..], i);
      DividendAt(r, bits, i + 1);
      if i < |r| {
        AbsorbAt(poly, r, bits[0], i);
      }
      if w[0] {
        MinusAt(w[1..], poly, i);
      }
    }
  }

  /** Feeding a message through the register is dividing it, offset by the start value, by the polynomial. */
  lemma {:induction false} RegisterIsRemainder(poly: Bits, r: Bits, bits: seq<bool>)
    requires |r| == |poly| > 0
    ensures AbsorbAll(poly, r, bits) == Remainder(Dividend(r, bits), poly)
    decreases |bits|
  {
    if bits == [] {
      assert Dividend(r, bits) == r;
    } else {
      DividendStep(poly, r, bits);
      RegisterIsRemainder(poly, Absorb(poly, r, bits[0]), bits[1..]);
    }
  }

  // ---------------------------------------------------------------- a byte at a time, by table

  lemma {:induction false} ShiftsLinear(poly: Bits, a: Bits, b: Bits, n: nat)
    requires |a| == |b| == |poly| > 0
    ensures Shifts(poly, Xor(a, b), n) == Xor(Shifts(poly, a, n), Shifts(poly, b, n))
    decreases n
  {
    if n > 0 {
      forall i | 0 <= i < |poly|
        ensures Shift(poly, Xor(a, b))[i] == Xor(Shift(poly, a), Shift(poly, b))[i]
      {
        ShiftAt(poly, Xor(a, b), i);
        ShiftAt(poly, a, i);
        ShiftAt(poly, b, i);
      }
      assert Shift(poly, Xor(a, b)) == Xor(Shift(poly, a), Shift(poly, b));
      ShiftsLinear(poly, Shift(poly, a), Shift(poly, b), n - 1);
    }
  }

  lemma {:induction false} ShiftAbsorbs(poly: Bits, r: Bits, w: Bits)
    requires |r| == |poly| > 0 && 0 < |w| <= |poly|
    ensures Shift(poly, Minus(r, w)) == Minus(Absorb(poly, r, w[0]), w[1..])
  {
    var s := Absorb(poly, r, w[0]);
    MinusAt(r, w, 0);
    forall i | 0 <= i < |poly|
      ensures Shift(poly, Minus(r, w))[i] == Minus(s, w[1..])[i]
    {
      ShiftAt(poly, Minus(r, w), i);
      AbsorbAt(poly, r, w[0], i);
      MinusAt(s, w[1..], i);
      if i + 1 < |r| {
        MinusAt(r, w, i + 1);
      }
    }
  }

  /** Absorbing the bits of a word no wider than the register is shifting the register with the word subtracted. */
  lemma {:induction false} AbsorbWord(poly: Bits, r: Bits, w: Bits)
    requires |r| == |poly| > 0 && |w| <= |poly|
    ensures AbsorbAll(poly, r, w) == Shifts(poly, Minus(r, w), |w|)
    decreases |w|
  {
    if w == [] {
      assert Minus(r, w) == r;
    } else {
      ShiftAbsorbs(poly, r, w);
      AbsorbWord(poly, Absorb(poly, r, w[0]), w[1..]);
    }
  }

  lemma {:induction false} ZerosJustShift(poly: Bits, r: Bits, n: nat)
    requires |r| == |poly| > 0 && n <= |r| && r[..n] == Zeros(n)
    ensures Shifts(poly, r, n) == ShiftRight(r, n)
    decreases n
  {
    if n > 0 {
      var s := ShiftRight(r, 1);
      assert r[..n][0] == false;
      assert s[..n - 1] == r[..n][1..];
      ZerosJustShift(poly, s, n - 1);
      assert ShiftRight(s, n - 1) == ShiftRight(r, n);
    } else {
      assert ShiftRight(r, 0) == r;
    }
  }

  /** Eight shifts are one lookup: the low byte is shifted out and its table entry subtracted. */
  lemma {:induction false} EightShifts(poly: Bits, x: Bits)
    requires |x| == |poly| >= 8
    ensures Shifts(poly, x, 8) == Xor(ShiftRight(x, 8), Shifts(poly, Extend(x[..8], |poly|), 8))
  {
    var high, low := Zeros(8) + x[8..], Extend(x[..8], |poly|);
    assert x == Xor(high, low);
    ShiftsLinear(poly, high, low, 8);
    ZerosJustShift(poly, high, 8);
    assert ShiftRight(high, 8) == ShiftRight(x, 8);
  }

  lemma {:induction false} NatRoundTrip(w: Bits, width: nat)
    requires |w| <= width
    ensures FromNat(ToNat(w), width) == Extend(w, width)
    decreases width
  {
    if width > 0 {
      if w == [] {
        NatRoundTrip([], width - 1);
        assert Zeros(width) == [false] + Zeros(width - 1);
      } else {
        NatRoundTrip(w[1..], width - 1);
        assert ToNat(w) / 2 == ToNat(w[1..]) && (ToNat(w) % 2 == 1) == w[0];
        assert Extend(w, width) == [w[0]] + Extend(w[1..], width - 1);
      }
    }
  }

  lemma {:induction false} BitsRoundTrip(n: nat, width: nat)
    requires n < Pow2(width)
    ensures ToNat(FromNat(n, width)) == n
    decreases width
  {
    if width > 0 {
      BitsRoundTrip(n / 2, width - 1);
      assert FromNat(n, width)[1..] == FromNat(n / 2, width - 1);
    }
  }

  lemma {:induction false} ByteRoundTrip(b: Byte)
    ensures ToNat(ByteBits(b)) == b
  {
    assert Pow2(8) == 256 by {
      assert Pow2(4) == 16;
    }
    BitsRoundTrip(b, 8);
  }

  /** The entry of the lookup table for a byte value. */
  function TableEntry(poly: Bits, i: nat): (e: Bits)
    requires |poly| > 0
    ensures |e| == |poly|
  {
    Shifts(poly, FromNat(i, |poly|), 8)
  }

  ghost predicate IsTable(poly: Bits, table: seq<Bits>)
  {
    |poly| >= 8 && |table| == 256 && forall i | 0 <= i < 256 :: table[i] == TableEntry(poly, i)
  }

  /** The position in the table of a byte met with register `r`: `(r ^ b) & 0xFF`. */
  function TableIndex(r: Bits, b: Byte): (i: nat)
    requires |r| >= 8
    ensures i < 256
  {
    assert Pow2(8) == 256 by {
      assert Pow2(4) == 16;
    }
    ToNat(Xor(r, Extend(ByteBits(b), |r|))[..8])
  }

  /** `(r >> 8) ^ table[(r ^ b) & 0xFF]`. */
  function UpdateByte(table: seq<Bits>, r: Bits, b: Byte): (s: Bits)
    requires |table| == 256 && |r| >= 8 && forall i | 0 <= i < 256 :: |table[i]| == |r|
  {
    Xor(ShiftRight(r, 8), table[TableIndex(r, b)])
  }

  /** The table update absorbs the eight bits of a byte. */
  lemma {:induction false} UpdateAbsorbs(poly: Bits, table: seq<Bits>, r: Bits, b: Byte)
    requires IsTable(poly, table) && |r| == |poly|
    ensures UpdateByte(table, r, b) == AbsorbAll(poly, r, ByteBits(b))
  {
    var w := ByteBits(b);
    var x := Minus(r, w);
    AbsorbWord(poly, r, w);
    EightShifts(poly, x);
    NatRoundTrip(x[..8], |poly|);
    MinusLowByte(r, w);
    assert table[TableIndex(r, b)] == TableEntry(poly, ToNat(x[..8]));
  }

  lemma {:induction false} MinusLowByte(r: Bits, w: Bits)
    requires |w| == 8 <= |r|
    ensures Minus(r, w) == Xor(r, Extend(w, |r|)) && ShiftRight(Minus(r, w), 8) == ShiftRight(r, 8)
  {
  }

  // ---------------------------------------------------------------- the codes

  const Poly32: Bits := FromNat(0xEDB88320, 32)
  const Start32: Bits := FromNat(0xFFFFFFFF, 32)
  const Poly16: Bits := FromNat(0xA001, 16)
  const Start16: Bits := FromNat(0x0000, 16)
  const StartModbus: Bits := FromNat(0xFFFF, 16)

  /** The remainder of a message by a polynomial, from a start value. */
  function Code(poly: Bits, start: Bits, data: seq<Byte>): (r: Bits)
    requires |start| == |poly|
    ensures |r| == |poly|
  {
    Remainder(Dividend(start, MessageBits(data)), poly)
  }

  function Crc32(data: seq<Byte>): (r: Bits)
    ensures |r| == 32
  {
    Xor(Code(Poly32, Start32, data), FromNat(0xFFFFFFFF, 32))
  }

  // ---------------------------------------------------------------- the published parameters

  /** The coefficients of a polynomial below its leading one, highest first, as its exponents give them. */
  ghost predicate HasTerms(poly: Bits, exponents: set<nat>)
  {
    forall i | 0 <= i < |poly| :: poly[i] <==> |poly| - 1 - i in exponents
  }

  /** The number of a polynomial, one binary digit for each exponent from zero up. */
  function Number(exponents: set<nat>, width: nat): (n: nat)
  {
    if width == 0 then 0 else 2 * Number(exponents, width - 1) + if width - 1 in exponents then 1 else 0
  }

  lemma {:induction false} NumberHasTerms(exponents: set<nat>, width: nat)
    ensures HasTerms(FromNat(Number(exponents, width), width), exponents)
    decreases width
  {
    if width > 0 {
      var n, h := Number(exponents, width), Number(exponents, width - 1);
      NumberHasTerms(exponents, width - 1);
      assert n / 2 == h && (n % 2 == 1) == (width - 1 in exponents);
      assert FromNat(n, width) == [n % 2 == 1] + FromNat(h, width - 1);
    }
  }

  /** Four binary digits are a hexadecimal one. */
  lemma {:induction false} NextDigit(exponents: set<nat>, width: nat)
    ensures Number(exponents, width + 4) ==
            16 * Number(exponents, width) + Weight(width in exponents, 8) + Weight(width + 1 in exponents, 4) +
            Weight(width + 2 in exponents, 2) + Weight(width + 3 in exponents, 1)
  {
    assert Number(exponents, width + 2) == 2 * Number(exponents, width + 1) + Weight(width + 1 in exponents, 1);
    assert Number(exponents, width + 3) == 2 * Number(exponents, width + 2) + Weight(width + 2 in exponents, 1);
  }

  function Weight(bit: bool, n: nat): (r: nat)
  {
    if bit then n else 0
  }

  /** The digit that four exponents from `e` on make. */
  ghost function DigitOf(es: set<nat>, e: nat): (d: nat)
  {
    Weight(e in es, 8) + Weight(e + 1 in es, 4) + Weight(e + 2 in es, 2) + Weight(e + 3 in es, 1)
  }

  lemma {:induction false} TwoDigits(es: set<nat>, width: nat, n: nat)
    requires Number(es, width) == n
    ensures Number(es, width + 8) == 256 * n + 16 * DigitOf(es, width) + DigitOf(es, width + 4)
  {
    NextDigit(es, width);
    NextDigit(es, width + 4);
  }

  lemma {:induction false} FourDigits(es: set<nat>, a: nat, b: nat, c: nat, d: nat)
    requires a == DigitOf(es, 0) && b == DigitOf(es, 4) && c == DigitOf(es, 8) && d == DigitOf(es, 12)
    ensures Number(es, 16) == 4096 * a + 256 * b + 16 * c + d
  {
    TwoDigits(es, 0, 0);
    TwoDigits(es, 8, 16 * a + b);
  }

  /** The generator of the CRC-16 is x^16 + x^15 + x^2 + 1. */
  lemma {:induction false} Poly16Terms()
    ensures HasTerms(Poly16, {15, 2, 0})
  {
    var es: set<nat> := {15, 2, 0};
    FourDigits(es, 0xA, 0x0, 0x0, 0x1);
    NumberHasTerms(es, 16);
  }

  lemma {:induction false} LowBitsFirst(l: nat, h: nat, low: nat, high: nat)
    requires l < Pow2(low)
    ensures FromNat(l + Pow2(low) * h, low + high) == FromNat(l, low) + FromNat(h, high)
    decreases low
  {
    if low > 0 {
      var n, k := l + Pow2(low) * h, Pow2(low - 1) * h;
      assert n == l + 2 * k;
      assert n / 2 == l / 2 + k && n % 2 == l % 2;
      LowBitsFirst(l / 2, h, low - 1, high);
      assert FromNat(n, low + high) == [l % 2 == 1] + FromNat(l / 2 + k, low - 1 + high);
    }
  }

  /** The upper half of the exponents is in the lower half of the number. */
  lemma {:induction false} HalvesHaveTerms(low: Bits, high: Bits, upper: set<nat>, lower: set<nat>, es: set<nat>)
    requires HasTerms(low, upper) && HasTerms(high, lower) && |low| == |high|
    requires forall e: nat | e < |high| :: e in es <==> e in lower
    requires forall e: nat | e < |low| :: |high| + e in es <==> e in upper
    ensures HasTerms(low + high, es)
  {
    var poly, n := low + high, |high|;
    forall i | 0 <= i < |poly|
      ensures poly[i] <==> |poly| - 1 - i in es
    {
      if i < n {
        assert poly[i] == low[i] && |poly| - 1 - i == n + (n - 1 - i);
      } else {
        assert poly[i] == high[i - n];
      }
    }
  }

  lemma {:induction false} Poly32Halves()
    ensures Poly32 == FromNat(0x8320, 16) + FromNat(0xEDB8, 16)
  {
    assert Pow2(8) == 256 && Pow2(16) == 0x1_0000;
    LowBitsFirst(0x8320, 0xEDB8, 16, 16);
  }

  lemma {:induction false} UpperTerms()
    ensures HasTerms(FromNat(0x8320, 16), {10, 7, 6, 0})
  {
    var es: set<nat> := {10, 7, 6, 0};
    FourDigits(es, 0x8, 0x3, 0x2, 0x0);
    NumberHasTerms(es, 16);
  }

  lemma {:induction false} LowerTerms()
    ensures HasTerms(FromNat(0xEDB8, 16), {12, 11, 10, 8, 7, 5, 4, 2, 1, 0})
  {
    var es: set<nat> := {12, 11, 10, 8, 7, 5, 4, 2, 1, 0};
    FourDigits(es, 0xE, 0xD, 0xB, 0x8);
    NumberHasTerms(es, 16);
  }

  /** The generator of CRC-32, of which section 8 of RFC 1952 gives the number. */
  lemma {:induction false} Poly32Terms()
    ensures HasTerms(Poly32, {26, 23, 22, 16, 12, 11, 10, 8, 7, 5, 4, 2, 1, 0})
  {
    Poly32Halves();
    UpperTerms();
    LowerTerms();
    HalvesHaveTerms(FromNat(0x8320, 16), FromNat(0xEDB8, 16), {10, 7, 6, 0}, {12, 11, 10, 8, 7, 5, 4, 2, 1, 0},
                    {26, 23, 22, 16, 12, 11, 10, 8, 7, 5, 4, 2, 1, 0});
  }

  lemma {:induction false} AllZeros(width: nat)
    ensures ToNat(Zeros(width)) == 0 && FromNat(0, width) == Zeros(width)
    decreases width
  {
    if width > 0 {
      AllZeros(width - 1);
      assert Zeros(width)[1..] == Zeros(width - 1) && Zeros(width) == [false] + Zeros(width - 1);
    }
  }

  lemma {:induction false} AllOnes(width: nat)
    ensures FromNat(Pow2(width) - 1, width) == seq(width, _ => true)
    decreases width
  {
    if width > 0 {
      AllOnes(width - 1);
      assert (Pow2(width) - 1) / 2 == Pow2(width - 1) - 1 && (Pow2(width) - 1) % 2 == 1;
      assert seq(width, _ => true) == [true] + seq(width - 1, _ => true);
    }
  }

  lemma {:induction false} SixteenOnes()
    ensures FromNat(0xFFFF, 16) == seq(16, _ => true)
  {
    assert Pow2(8) == 256 && Pow2(16) == 0x1_0000;
    AllOnes(16);
  }

  lemma {:induction false} Ones32Halves()
    ensures FromNat(0xFFFFFFFF, 32) == FromNat(0xFFFF, 16) + FromNat(0xFFFF, 16)
  {
    assert Pow2(8) == 256 && Pow2(16) == 0x1_0000;
    LowBitsFirst(0xFFFF, 0xFFFF, 16, 16);
  }

  /** CRC-32 and the MODBUS code start from all ones, the other CRC-16 from zeros. */
  lemma {:induction false} StartValues()
    ensures Start32 == seq(32, _ => true) && StartModbus == seq(16, _ => true) && Start16 == Zeros(16)
  {
    SixteenOnes();
    Ones32Halves();
    AllZeros(16);
  }

  /** CRC-32 is the complement of the remainder. */
  lemma {:induction false} Crc32Complements(data: seq<Byte>, i: nat)
    requires i < 32
    ensures Crc32(data)[i] == !Code(Poly32, Start32, data)[i]
  {
    StartValues();
  }

  lemma {:induction false} MessageBitsConcat(a: seq<Byte>, b: seq<Byte>)
    ensures MessageBits(a + b) == MessageBits(a) + MessageBits(b)
    decreases |a|
  {
    if a == [] {
      assert a + b == b;
    } else {
      assert (a + b)[1..] == a[1..] + b;
      MessageBitsConcat(a[1..], b);
    }
  }

  /** Updating byte by byte from any register computes the code of the whole message. */
  lemma {:induction false} CodeAppend(poly: Bits, start: Bits, data: seq<Byte>, b: Byte)
    requires |start| == |poly| > 0
    ensures Code(poly, start, data + [b]) == AbsorbAll(poly, Code(poly, start, data), ByteBits(b))
  {
    MessageBitsConcat(data, [b]);
    assert MessageBits([b]) == ByteBits(b) by {
      assert [b][1..] == [];
      assert ByteBits(b) + [] == ByteBits(b);
    }
    RegisterIsRemainder(poly, start, MessageBits(data));
    RegisterIsRemainder(poly, start, MessageBits(data + [b]));
    AbsorbConcat(poly, start, MessageBits(data), ByteBits(b));
  }

  // ---------------------------------------------------------------- bursts

  lemma {:induction false} AbsorbInjective(poly: Bits, a: Bits, b: Bits, bit: bool)
    requires |a| == |b| == |poly| > 0 && poly[|poly| - 1]
    requires Absorb(poly, a, bit) == Absorb(poly, b, bit)
    ensures a == b
  {
    var n := |poly| - 1;
    assert Absorb(poly, a, bit)[n] == (a[0] != bit);
    assert Absorb(poly, b, bit)[n] == (b[0] != bit);
    forall i | 0 < i < |a|
      ensures a[i] == b[i]
    {
      assert Absorb(poly, a, bit)[i - 1] == Absorb(poly, b, bit)[i - 1];
    }
  }

  lemma {:induction false} AbsorbAllInjective(poly: Bits, a: Bits, b: Bits, bits: seq<bool>)
    requires |a| == |b| == |poly| > 0 && poly[|poly| - 1]
    requires AbsorbAll(poly, a, bits) == AbsorbAll(poly, b, bits)
    ensures a == b
    decreases |bits|
  {
    if bits != [] {
      AbsorbAllInjective(poly, Absorb(poly, a, bits[0]), Absorb(poly, b, bits[0]), bits[1..]);
      AbsorbInjective(poly, a, b, bits[0]);
    }
  }

  lemma {:induction false} ShiftsInjective(poly: Bits, a: Bits, b: Bits, n: nat)
    requires |a| == |b| == |poly| > 0 && poly[|poly| - 1]
    requires Shifts(poly, a, n) == Shifts(poly, b, n)
    ensures a == b
    decreases n
  {
    if n > 0 {
      ShiftsInjective(poly, Shift(poly, a), Shift(poly, b), n - 1);
      assert Shift(poly, a) == Absorb(poly, a, false) && Shift(poly, b) == Absorb(poly, b, false);
      AbsorbInjective(poly, a, b, false);
    }
  }

  lemma {:induction false} WindowInjective(poly: Bits, r: Bits, x: seq<bool>, y: seq<bool>)
    requires |r| == |poly| > 0 && poly[|poly| - 1]
    requires |x| == |y| <= |poly| && AbsorbAll(poly, r, x) == AbsorbAll(poly, r, y)
    ensures x == y
  {
    AbsorbWord(poly, r, x);
    AbsorbWord(poly, r, y);
    ShiftsInjective(poly, Minus(r, x), Minus(r, y), |x|);
    forall i | 0 <= i < |x|
      ensures x[i] == y[i]
    {
      assert Minus(r, x)[i] == Minus(r, y)[i];
    }
  }

  /** Two bit strings that agree outside `n` consecutive bits. */
  ghost predicate AgreeOutside(a: seq<bool>, b: seq<bool>, start: nat, n: nat)
  {
    |a| == |b| && start + n <= |a| && a[..start] == b[..start] && a[start + n..] == b[start + n..]
  }

  lemma {:induction false} WindowChangesRegister(poly: Bits, r: Bits, before: seq<bool>, x: seq<bool>,
                                                 y: seq<bool>, after: seq<bool>)
    requires |r| == |poly| > 0 && poly[|poly| - 1] && |x| == |y| <= |poly|
    requires AbsorbAll(poly, r, before + (x + after)) == AbsorbAll(poly, r, before + (y + after))
    ensures x == y
  {
    var s := AbsorbAll(poly, r, before);
    AbsorbConcat(poly, r, before, x + after);
    AbsorbConcat(poly, r, before, y + after);
    AbsorbConcat(poly, s, x, after);
    AbsorbConcat(poly, s, y, after);
    AbsorbAllInjective(poly, AbsorbAll(poly, s, x), AbsorbAll(poly, s, y), after);
    WindowInjective(poly, s, x, y);
  }

  lemma {:induction false} WindowSplit(a: seq<bool>, start: nat, n: nat)
    requires start + n <= |a|
    ensures a == a[..start] + (a[start..start + n] + a[start + n..])
  {
  }

  /** Messages that agree outside a window no wider than the register leave the same register only when equal. */
  lemma {:induction false} BurstChangesRegister(poly: Bits, r: Bits, a: seq<bool>, b: seq<bool>, start: nat, n: nat)
    requires |r| == |poly| > 0 && poly[|poly| - 1]
    requires AgreeOutside(a, b, start, n) && n <= |poly| && AbsorbAll(poly, r, a) == AbsorbAll(poly, r, b)
    ensures a == b
  {
    var before, after := a[..start], a[start + n..];
    var x, y := a[start..start + n], b[start..start + n];
    WindowSplit(a, start, n);
    WindowSplit(b, start, n);
    WindowChangesRegister(poly, r, before, x, y, after);
  }

  lemma {:induction false} MessageBitsInjective(a: seq<Byte>, b: seq<Byte>)
    requires |a| == |b| && MessageBits(a) == MessageBits(b)
    ensures a == b
    decreases |a|
  {
    if a != [] {
      assert MessageBits(a)[..8] == ByteBits(a[0]) && MessageBits(b)[..8] == ByteBits(b[0]);
      assert MessageBits(a)[8..] == MessageBits(a[1..]) && MessageBits(b)[8..] == MessageBits(b[1..]);
      ByteRoundTrip(a[0]);
      ByteRoundTrip(b[0]);
      MessageBitsInjective(a[1..], b[1..]);
    }
  }

  lemma {:induction false} TopBit(n: nat, width: nat)
    requires width > 0 && Pow2(width - 1) <= n < Pow2(width)
    ensures FromNat(n, width)[width - 1]
    decreases width
  {
    if width > 1 {
      TopBit(n / 2, width - 1);
    }
  }

  lemma {:induction false} Poly32Monic()
    ensures Poly32[31]
  {
    assert Pow2(10) == 1024 && Pow2(20) == 1048576 && Pow2(31) == 0x8000_0000 && Pow2(32) == 0x1_0000_0000;
    TopBit(0xEDB88320, 32);
  }

  lemma {:induction false} XorCancels(x: Bits, y: Bits, m: Bits)
    requires |x| == |y| == |m| && Xor(x, m) == Xor(y, m)
    ensures x == y
  {
    forall i | 0 <= i < |x|
      ensures x[i] == y[i]
    {
      assert Xor(x, m)[i] == Xor(y, m)[i];
    }
  }

  lemma {:induction false} BurstChangesCode(poly: Bits, r: Bits, a: seq<Byte>, b: seq<Byte>, start: nat, n: nat)
    requires |r| == |poly| > 0 && poly[|poly| - 1] && |a| == |b| && n <= |poly|
    requires AgreeOutside(MessageBits(a), MessageBits(b), start, n) && Code(poly, r, a) == Code(poly, r, b)
    ensures a == b
  {
    RegisterIsRemainder(poly, r, MessageBits(a));
    RegisterIsRemainder(poly, r, MessageBits(b));
    BurstChangesRegister(poly, r, MessageBits(a), MessageBits(b), start, n);
    MessageBitsInjective(a, b);
  }

  /** CRC-32 tells apart any two messages of one length that differ only within 32 consecutive bits. */
  lemma {:induction false} BurstDetected(a: seq<Byte>, b: seq<Byte>, start: nat, n: nat)
    requires |a| == |b| && a != b && n <= 32
    requires AgreeOutside(MessageBits(a), MessageBits(b), start, n)
    ensures Crc32(a) != Crc32(b)
  {
    if Crc32(a) == Crc32(b) {
      XorCancels(Code(Poly32, Start32, a), Code(Poly32, Start32, b), FromNat(0xFFFFFFFF, 32));
      Poly32Monic();
      BurstChangesCode(Poly32, Start32, a, b, start, n);
    }
  }

  /** In particular any two that differ only within four consecutive bytes. */
  lemma {:induction false} FourBytesDetected(before: seq<Byte>, x: seq<Byte>, y: seq<Byte>, after: seq<Byte>)
    requires |x| == |y| <= 4 && x != y
    ensures Crc32(before + x + after) != Crc32(before + y + after)
  {
    var a, b := before + x + after, before + y + after;
    MessageBitsConcat(before + x, after);
    MessageBitsConcat(before, x);
    MessageBitsConcat(before + y, after);
    MessageBitsConcat(before, y);
    assert a[|before|..|before| + |x|] == x && b[|before|..|before| + |x|] == y;
    BurstDetected(a, b, 8 * |before|, 8 * |x|);
  }
}
