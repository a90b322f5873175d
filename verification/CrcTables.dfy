/** The lazily built lookup tables and the routines that use them. */
module CrcTables {
  import opened Crc
  import opened Machine
  import opened Options

  /** The inner loop of the CRC-32 table: eight shifts from the byte value itself. */
  method ShiftByte(poly: Bits, b: Byte) returns (crc: Bits)
    requires |poly| >= 8
    ensures crc == TableEntry(poly, b)
  {
    crc := FromNat(b, |poly|);
    for j := 0 to 8
      invariant |crc| == |poly| && Shifts(poly, crc, 8 - j) == TableEntry(poly, b)
    {
      if crc[0] {
        crc := Xor(ShiftRight(crc, 1), poly);
      } else {
        crc := ShiftRight(crc, 1);
      }
    }
  }

  method FillByShifting(poly: Bits, table: array<Bits>)
    requires |poly| >= 8 && table.Length == 256
    modifies table
    ensures IsTable(poly, table[..])
  {
    for i := 0 to 256
      invariant forall k | 0 <= k < i :: table[k] == TableEntry(poly, k)
    {
      var crc := ShiftByte(poly, i);
      table[i] := crc;
    }
  }

  /** One bit absorbed, with the others still to come in the low bits of `c`. */
  lemma {:induction false} AbsorbOne(poly: Bits, crc: Bits, c: Bits, rest: seq<bool>)
    requires |crc| == |c| == |poly| && 0 < |rest| <= |c| && c[..|rest|] == rest
    ensures c[0] == rest[0] && ShiftRight(c, 1)[..|rest| - 1] == rest[1..]
    ensures AbsorbAll(poly, Absorb(poly, crc, c[0]), rest[1..]) == AbsorbAll(poly, crc, rest)
  {
    assert c[0] == c[..|rest|][0];
    assert ShiftRight(c, 1)[..|rest| - 1] == c[1..|rest|] == c[..|rest|][1..];
  }

  /** The inner loop of the CRC-16 table: eight bits of the byte value absorbed by a zero register. */
  method AbsorbByte(poly: Bits, b: Byte) returns (crc: Bits)
    requires |poly| >= 8
    ensures crc == TableEntry(poly, b)
  {
    var c := FromNat(b, |poly|);
    crc := Zeros(|poly|);
    AbsorbFromZero(poly, b);
    ghost var rest := ByteBits(b);
    for j := 0 to 8
      invariant |crc| == |c| == |poly| && |rest| == 8 - j && c[..8 - j] == rest
      invariant AbsorbAll(poly, crc, rest) == TableEntry(poly, b)
    {
      AbsorbOne(poly, crc, c, rest);
      if crc[0] != c[0] {
        crc := Xor(ShiftRight(crc, 1), poly);
      } else {
        crc := ShiftRight(crc, 1);
      }
      c := ShiftRight(c, 1);
      rest := rest[1..];
    }
  }

  method FillByAbsorbing(poly: Bits, table: array<Bits>)
    requires |poly| >= 8 && table.Length == 256
    modifies table
    ensures IsTable(poly, table[..])
  {
    for i := 0 to 256
      invariant forall k | 0 <= k < i :: table[k] == TableEntry(poly, k)
    {
      var crc := AbsorbByte(poly, i);
      table[i] := crc;
    }
  }

  /** Subtracting from zero only widens. */
  lemma {:induction false} MinusFromZero(w: Bits, width: nat)
    requires |w| <= width
    ensures Minus(Zeros(width), w) == Extend(w, width)
  {
    forall i | 0 <= i < width
      ensures Minus(Zeros(width), w)[i] == Extend(w, width)[i]
    {
      MinusAt(Zeros(width), w, i);
    }
  }

  lemma {:induction false} AbsorbFromZero(poly: Bits, b: Byte)
    requires |poly| >= 8
    ensures AbsorbAll(poly, Zeros(|poly|), ByteBits(b)) == TableEntry(poly, b)
    ensures FromNat(b, |poly|)[..8] == ByteBits(b)
  {
    AbsorbWord(poly, Zeros(|poly|), ByteBits(b));
    ByteRoundTrip(b);
    NatRoundTrip(ByteBits(b), |poly|);
    MinusFromZero(ByteBits(b), |poly|);
  }

  /** The register after each byte of the data in turn. */
  method Fold(table: array<Bits>, ghost poly: Bits, start: Bits, data: Option<seq<Byte>>) returns (crc: Bits)
    requires IsTable(poly, table[..]) && |start| == |poly|
    ensures crc == Code(poly, start, if data.Some? then data.value else [])
  {
    crc := start;
    CodeOfNothing(poly, start);
    if data.Some? {
      ghost var bytes := data.value;
      for a := 0 to |data.value|
        invariant |crc| == |poly| && crc == Code(poly, start, bytes[..a])
      {
        assert bytes[..a + 1] == bytes[..a] + [bytes[a]];
        CodeAppend(poly, start, bytes[..a], bytes[a]);
        UpdateAbsorbs(poly, table[..], crc, bytes[a]);
        crc := Xor(ShiftRight(crc, 8), table[TableIndex(crc, data.value[a])]);
      }
      assert bytes[..|bytes|] == bytes;
    }
  }

  lemma {:induction false} CodeOfNothing(poly: Bits, start: Bits)
    requires |start| == |poly|
    ensures Code(poly, start, []) == start
  {
    assert Dividend(start, []) == start;
  }

  class Tables {
    var tab16Initialized: bool
    var tab32Initialized: bool
    const tab16: array<Bits>
    const tab32: array<Bits>

    ghost predicate Valid()
      reads this, tab16, tab32
    {
      && tab16.Length == tab32.Length == 256 && tab16 != tab32
      && (tab16Initialized ==> IsTable(Poly16, tab16[..]))
      && (tab32Initialized ==> IsTable(Poly32, tab32[..]))
    }

    constructor ()
      ensures Valid() && fresh(tab16) && fresh(tab32)
    {
      tab16 := new Bits[256](_ => []);
      tab32 := new Bits[256](_ => []);
      tab16Initialized, tab32Initialized := false, false;
    }

    method Initialize16()
      requires Valid()
      modifies this`tab16Initialized, tab16
      ensures Valid() && tab16Initialized
    {
      FillByAbsorbing(Poly16, tab16);
      tab16Initialized := true;
    }

    method Initialize32()
      requires Valid()
      modifies this`tab32Initialized, tab32
      ensures Valid() && tab32Initialized
    {
      FillByShifting(Poly32, tab32);
      tab32Initialized := true;
    }

    /** The CRC-16 of the data, a missing buffer counting as empty. */
    method Generate16(data: Option<seq<Byte>>) returns (crc: Bits)
      requires Valid()
      modifies this`tab16Initialized, tab16
      ensures Valid()
      ensures crc == Code(Poly16, Start16, if data.Some? then data.value else [])
    {
      if !tab16Initialized {
        Initialize16();
      }
      crc := Fold(tab16, Poly16, Start16, data);
    }

    method Modbus(data: Option<seq<Byte>>) returns (crc: Bits)
      requires Valid()
      modifies this`tab16Initialized, tab16
      ensures Valid()
      ensures crc == Code(Poly16, StartModbus, if data.Some? then data.value else [])
    {
      if !tab16Initialized {
        Initialize16();
      }
      crc := Fold(tab16, Poly16, StartModbus, data);
    }

    /** The CRC-32 of the data, a missing buffer counting as empty. */
    method Generate32(data: Option<seq<Byte>>) returns (crc: Bits)
      requires Valid()
      modifies this`tab32Initialized, tab32
      ensures Valid()
      ensures crc == Crc32(if data.Some? then data.value else [])
    {
      if !tab32Initialized {
        Initialize32();
      }
      crc := Fold(tab32, Poly32, Start32, data);
      crc := Xor(crc, FromNat(0xFFFFFFFF, 32));
    }

    /** Given the register of some data, the register of that data and one more byte. */
    method Update16(crc: Bits, c: Byte) returns (r: Bits)
      requires Valid() && |crc| == 16
      modifies this`tab16Initialized, tab16
      ensures Valid()
      ensures forall start, data | |start| == 16 && crc == Code(Poly16, start, data) ::
                r == Code(Poly16, start, data + [c])
    {
      if !tab16Initialized {
        Initialize16();
      }
      r := Step(tab16, Poly16, crc, c);
    }

    method Update32(crc: Bits, c: Byte) returns (r: Bits)
      requires Valid() && |crc| == 32
      modifies this`tab32Initialized, tab32
      ensures Valid()
      ensures forall start, data | |start| == 32 && crc == Code(Poly32, start, data) ::
                r == Code(Poly32, start, data + [c])
    {
      if !tab32Initialized {
        Initialize32();
      }
      r := Step(tab32, Poly32, crc, c);
    }
  }

  method Step(table: array<Bits>, ghost poly: Bits, crc: Bits, c: Byte) returns (r: Bits)
    requires IsTable(poly, table[..]) && |crc| == |poly|
    ensures forall start, data | |start| == |poly| && crc == Code(poly, start, data) ::
              r == Code(poly, start, data + [c])
  {
    UpdateAbsorbs(poly, table[..], crc, c);
    r := Xor(ShiftRight(crc, 8), table[TableIndex(crc, c)]);
    forall start, data | |start| == |poly| && crc == Code(poly, start, data)
      ensures r == Code(poly, start, data + [c])
    {
      CodeAppend(poly, start, data, c);
    }
  }
}
