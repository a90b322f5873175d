/**
  * The wire format that the C generator emits: the bytes its serializers write for a value of a
  * protocol type, and what its three deserializers read back.
  */
module WireFormat {
  import opened BitMask
  import opened Machine
  import opened Options

  // ---------------------------------------------------------------- types and values

  /**
    * A protocol type. A scalar is any C type copied as its `size` bytes; `Struct(i)` is the `i`-th
    * struct of the schema. A variant selects one of its entries by a tag counted from one.
    */
  datatype Type =
    | Scalar(size: nat) | Enum | Text | Struct(id: nat)
    | Array(element: Type) | Variant(entries: seq<Type>)

  /** The member types of each struct. */
  type Schema = seq<seq<Type>>

  /** A scalar is its object representation as a number; a string may be null. */
  datatype Value =
    | Number(n: nat) | String(chars: Option<seq<Byte>>) | Record(fields: seq<Value>)
    | List(items: seq<Value>) | Choice(tag: nat, payload: seq<Value>)

  /** Types that a plain member, an array element or a variant entry may have. */
  predicate Simple(schema: Schema, ty: Type)
  {
    ty.Scalar? || ty.Enum? || (ty.Struct? && ty.id < |schema|)
  }

  predicate ValidType(schema: Schema, ty: Type)
  {
    match ty
    case Array(e) => Simple(schema, e)
    case Variant(es) => forall i | 0 <= i < |es| :: Simple(schema, es[i])
    case Text => true
    case _ => Simple(schema, ty)
  }

  /** As in C, a struct contained by value is declared before the struct that contains it. */
  predicate ValidMembers(schema: Schema, members: seq<Type>, bound: nat)
  {
    forall i | 0 <= i < |members| :: ValidType(schema, members[i]) && (members[i].Struct? ==> members[i].id < bound)
  }

  ghost predicate ValidSchema(schema: Schema)
  {
    forall i | 0 <= i < |schema| :: ValidMembers(schema, schema[i], i)
  }

  function Pow256(k: nat): (r: nat)
    ensures r >= 1
  {
    if k == 0 then 1 else 256 * Pow256(k - 1)
  }

  predicate NulFree(s: seq<Byte>)
  {
    forall i | 0 <= i < |s| :: s[i] != 0
  }

  predicate WellTyped(schema: Schema, ty: Type, v: Value)
    decreases v, 1
  {
    match ty
    case Scalar(k) => v.Number? && v.n < Pow256(k)
    case Enum => v.Number? && v.n < Pow256(4)
    case Text => v.String? && (v.chars.Some? ==> |v.chars.value| < WORD && NulFree(v.chars.value))
    case Struct(id) => v.Record? && id < |schema| && AllWellTyped(schema, schema[id], v.fields)
    case Array(e) => v.List? && |v.items| < WORD && EachWellTyped(schema, e, v.items)
    case Variant(es) =>
      && v.Choice? && v.tag < 256
      && if 1 <= v.tag <= |es| then |v.payload| == 1 && WellTyped(schema, es[v.tag - 1], v.payload[0])
         else v.payload == []
  }

  predicate AllWellTyped(schema: Schema, tys: seq<Type>, vs: seq<Value>)
    decreases vs, 0
  {
    |tys| == |vs| && (vs != [] ==> WellTyped(schema, tys[0], vs[0]) && AllWellTyped(schema, tys[1..], vs[1..]))
  }

  predicate EachWellTyped(schema: Schema, ty: Type, vs: seq<Value>)
    decreases vs, 0
  {
    vs != [] ==> WellTyped(schema, ty, vs[0]) && EachWellTyped(schema, ty, vs[1..])
  }

  // ---------------------------------------------------------------- what the serializers write

  /** The `k` bytes of a number in memory, lowest first. */
  function Bytes(n: nat, k: nat): (b: seq<Byte>)
    ensures |b| == k
  {
    if k == 0 then [] else [n % 256] + Bytes(n / 256, k - 1)
  }

  function FromBytes(b: seq<Byte>): (n: nat)
  {
    if b == [] then 0 else b[0] + 256 * FromBytes(b[1..])
  }

  function Chars(s: Option<seq<Byte>>): (c: seq<Byte>)
  {
    if s.Some? then s.value else []
  }

  /** Length, contents, terminator; a null string is written as an empty one. */
  function EncodeString(s: Option<seq<Byte>>): (b: seq<Byte>)
  {
    Bytes(|Chars(s)|, 4) + Chars(s) + [0]
  }

  function Encode(schema: Schema, ty: Type, v: Value): (b: seq<Byte>)
    requires WellTyped(schema, ty, v)
    decreases v, 1
  {
    match ty
    case Scalar(k) => Bytes(v.n, k)
    case Enum => Bytes(v.n, 4)
    case Text => EncodeString(v.chars)
    case Struct(id) => EncodeAll(schema, schema[id], v.fields)
    case Array(e) => Bytes(|v.items|, 4) + EncodeEach(schema, e, v.items)
    case Variant(es) => [v.tag] + if 1 <= v.tag <= |es| then Encode(schema, es[v.tag - 1], v.payload[0]) else []
  }

  /** Members or parameters in order. */
  function EncodeAll(schema: Schema, tys: seq<Type>, vs: seq<Value>): (b: seq<Byte>)
    requires AllWellTyped(schema, tys, vs)
    decreases vs, 0
  {
    if vs == [] then [] else Encode(schema, tys[0], vs[0]) + EncodeAll(schema, tys[1..], vs[1..])
  }

  function EncodeEach(schema: Schema, ty: Type, vs: seq<Value>): (b: seq<Byte>)
    requires EachWellTyped(schema, ty, vs)
    decreases vs, 0
  {
    if vs == [] then [] else Encode(schema, ty, vs[0]) + EncodeEach(schema, ty, vs[1..])
  }

  lemma {:induction false} EachHead(schema: Schema, ty: Type, vs: seq<Value>)
    requires EachWellTyped(schema, ty, vs) && vs != []
    ensures WellTyped(schema, ty, vs[0]) && EachWellTyped(schema, ty, vs[1..])
    ensures EncodeEach(schema, ty, vs) == Encode(schema, ty, vs[0]) + EncodeEach(schema, ty, vs[1..])
  {
  }

  lemma {:induction false} AllHead(schema: Schema, tys: seq<Type>, vs: seq<Value>)
    requires AllWellTyped(schema, tys, vs) && vs != []
    ensures |tys| == |vs| && WellTyped(schema, tys[0], vs[0]) && AllWellTyped(schema, tys[1..], vs[1..])
    ensures EncodeAll(schema, tys, vs) == Encode(schema, tys[0], vs[0]) + EncodeAll(schema, tys[1..], vs[1..])
  {
  }

  // ---------------------------------------------------------------- what the deserializers read

  /** A read result and the bytes not yet read; `None` when the buffer is too short. */
  type Read<T> = Option<(T, seq<Byte>)>

  /** The C string at the start of a byte sequence: up to the first zero. */
  function CString(b: seq<Byte>): (s: seq<Byte>)
  {
    if b == [] || b[0] == 0 then [] else [b[0]] + CString(b[1..])
  }

  function Minimum(a: nat, b: nat): (m: nat)
  {
    if a < b then a else b
  }

  /** `maxLength - 1` in unsigned 32-bit arithmetic: no limit for zero. */
  function Limit(maxLength: nat): (n: nat)
  {
    if maxLength == 0 then WORD - 1 else maxLength - 1
  }

  function ReadNumber(b: seq<Byte>, k: nat): (r: Read<nat>)
  {
    if |b| < k then None else Some((FromBytes(b[..k]), b[k..]))
  }

  /** The string as copied to a caller's buffer of `maxLength` bytes. */
  function ReadStringCopy(b: seq<Byte>, maxLength: nat): (r: Read<seq<Byte>>)
  {
    if |b| < 4 then None else
      var length := FromBytes(b[..4]);
      if |b| < 4 + length + 1 then None else
        Some((CString(b[4..4 + Minimum(length, Limit(maxLength))] + [0]), b[4 + length + 1..]))
  }

  /** The string as a pointer into the message. */
  function ReadStringInPlace(b: seq<Byte>): (r: Read<seq<Byte>>)
  {
    if |b| < 4 then None else
      var length := FromBytes(b[..4]);
      if |b| < 4 + length + 1 then None else
        Some((CString(b[4..]), b[4 + length + 1..]))
  }

  /** The deserializer of struct members. */
  function Decode(schema: Schema, ty: Type, b: seq<Byte>): (r: Read<Value>)
    requires ValidSchema(schema) && ValidType(schema, ty)
    ensures r.Some? ==> |r.value.1| <= |b|
    decreases |b|, if ty.Struct? then 2 * ty.id + 1 else 0, 0
  {
    match ty
    case Scalar(k) =>
      var r := ReadNumber(b, k);
      if r.None? then None else Some((Number(r.value.0), r.value.1))
    case Enum =>
      var r := ReadNumber(b, 4);
      if r.None? then None else Some((Number(r.value.0), r.value.1))
    case Text =>
      var r := ReadStringCopy(b, 0);
      if r.None? then None else Some((String(Some(r.value.0)), r.value.1))
    case Struct(id) =>
      var r := DecodeAll(schema, schema[id], id, b);
      if r.None? then None else Some((Record(r.value.0), r.value.1))
    case Array(e) =>
      var c := ReadNumber(b, 4);
      if c.None? then None else
        var r := DecodeEach(schema, e, c.value.0, c.value.1);
        if r.None? then None else Some((List(r.value.0), r.value.1))
    case Variant(es) =>
      var t := ReadNumber(b, 1);
      if t.None? then None
      else if 1 <= t.value.0 <= |es| then
        var r := Decode(schema, es[t.value.0 - 1], t.value.1);
        if r.None? then None else Some((Choice(t.value.0, [r.value.0]), r.value.1))
      else Some((Choice(t.value.0, []), t.value.1))
  }

  function DecodeAll(schema: Schema, tys: seq<Type>, bound: nat, b: seq<Byte>): (r: Read<seq<Value>>)
    requires ValidSchema(schema) && ValidMembers(schema, tys, bound)
    ensures r.Some? ==> |r.value.1| <= |b|
    decreases |b|, 2 * bound, |tys|
  {
    if tys == [] then Some(([], b)) else
      var r := Decode(schema, tys[0], b);
      if r.None? then None else
        var rs := DecodeAll(schema, tys[1..], bound, r.value.1);
        if rs.None? then None else Some(([r.value.0] + rs.value.0, rs.value.1))
  }

  function DecodeEach(schema: Schema, ty: Type, n: nat, b: seq<Byte>): (r: Read<seq<Value>>)
    requires ValidSchema(schema) && Simple(schema, ty)
    ensures r.Some? ==> |r.value.1| <= |b|
    decreases |b|, 2 * |schema| + 2, n
  {
    if n == 0 then Some(([], b)) else
      var r := Decode(schema, ty, b);
      if r.None? then None else
        var rs := DecodeEach(schema, ty, n - 1, r.value.1);
        if rs.None? then None else Some(([r.value.0] + rs.value.0, rs.value.1))
  }

  lemma {:induction false} EachReadHead(schema: Schema, ty: Type, n: nat, b: seq<Byte>)
    requires ValidSchema(schema) && Simple(schema, ty) && n > 0 && DecodeEach(schema, ty, n, b).Some?
    ensures Decode(schema, ty, b).Some?
    ensures var (v, rest) := Decode(schema, ty, b).value;
            var tail := DecodeEach(schema, ty, n - 1, rest);
            && tail.Some?
            && DecodeEach(schema, ty, n, b) == Some(([v] + tail.value.0, tail.value.1))
  {
  }

  // ---------------------------------------------------------------- round trips

  /** The value as read back: a null string comes back empty. */
  function Normal(v: Value): (w: Value)
    decreases v, 1
  {
    match v
    case Number(_) => v
    case String(s) => String(Some(Chars(s)))
    case Record(fs) => Record(NormalAll(fs))
    case List(vs) => List(NormalAll(vs))
    case Choice(t, p) => Choice(t, NormalAll(p))
  }

  function NormalAll(vs: seq<Value>): (ws: seq<Value>)
    ensures |ws| == |vs|
    decreases vs, 0
  {
    if vs == [] then [] else [Normal(vs[0])] + NormalAll(vs[1..])
  }

  lemma {:induction false} NumberRoundTrip(n: nat, k: nat)
    requires n < Pow256(k)
    ensures FromBytes(Bytes(n, k)) == n
    decreases k
  {
    if k > 0 {
      NumberRoundTrip(n / 256, k - 1);
      assert Bytes(n, k)[1..] == Bytes(n / 256, k - 1);
    }
  }

  /** Digit by digit to the base 256, the lowest first. */
  lemma {:induction false} BytesAre(n: nat, k: nat, i: nat)
    requires i < k
    ensures Bytes(n, k)[i] == n / Pow256(i) % 256
    decreases k
  {
    if i > 0 {
      BytesAre(n / 256, k - 1, i - 1);
      assert Bytes(n, k)[i] == Bytes(n / 256, k - 1)[i - 1];
      DivideTwice(n, Pow256(i - 1));
    }
  }

  lemma {:induction false} DivideTwice(n: nat, d: nat)
    requires d > 0
    ensures n / 256 / d == n / (256 * d)
    ensures n % (256 * d) == 256 * (n / 256 % d) + n % 256
  {
    var q, r := n / 256 / d, n / 256 % d;
    assert n / 256 == d * q + r;
    assert n == (256 * d) * q + (256 * r + n % 256) by {
      assert 256 * (d * q) == (256 * d) * q;
    }
    RemainderUnique(n, 256 * d, q, 256 * r + n % 256);
  }

  /** A number that is too wide loses its high bytes. */
  lemma {:induction false} NumberTruncated(n: nat, k: nat)
    ensures FromBytes(Bytes(n, k)) == n % Pow256(k)
    decreases k
  {
    if k > 0 {
      NumberTruncated(n / 256, k - 1);
      assert Bytes(n, k)[1..] == Bytes(n / 256, k - 1);
      DivideTwice(n, Pow256(k - 1));
    }
  }

  lemma {:induction false} ReadWrittenNumber(n: nat, k: nat, rest: seq<Byte>)
    requires n < Pow256(k)
    ensures ReadNumber(Bytes(n, k) + rest, k) == Some((n, rest))
  {
    var b := Bytes(n, k) + rest;
    assert b[..k] == Bytes(n, k) && b[k..] == rest;
    NumberRoundTrip(n, k);
  }

  lemma {:induction false} CStringReads(s: seq<Byte>, rest: seq<Byte>)
    requires NulFree(s)
    ensures CString(s + [0] + rest) == s
    decreases |s|
  {
    var b := s + [0] + rest;
    if s != [] {
      assert b[1..] == s[1..] + [0] + rest;
      CStringReads(s[1..], rest);
      assert s == [s[0]] + s[1..];
    }
  }

  lemma {:induction false} WordIsFourBytes()
    ensures Pow256(4) == WORD
  {
    assert Pow256(2) == 65536;
  }

  /** The shape of a written string in a message. */
  lemma {:induction false} WrittenString(s: seq<Byte>, rest: seq<Byte>)
    requires |s| < WORD
    ensures var b := EncodeString(Some(s)) + rest;
            && |b| == 4 + |s| + 1 + |rest| && FromBytes(b[..4]) == |s|
            && b[4..] == s + [0] + rest && b[4 + |s| + 1..] == rest
            && forall n | 0 <= n <= |s| :: b[4..4 + n] == s[..n]
  {
    var b := EncodeString(Some(s)) + rest;
    WordIsFourBytes();
    NumberRoundTrip(|s|, 4);
    assert b[..4] == Bytes(|s|, 4);
  }

  /** The copying reader gives the prefix that fits, and always steps over the whole string. */
  lemma {:induction false} StringCopied(s: Option<seq<Byte>>, maxLength: nat, rest: seq<Byte>)
    requires |Chars(s)| < WORD && NulFree(Chars(s))
    ensures ReadStringCopy(EncodeString(s) + rest, maxLength)
            == Some((Chars(s)[..Minimum(|Chars(s)|, Limit(maxLength))], rest))
  {
    var c := Chars(s);
    WrittenString(c, rest);
    var p := c[..Minimum(|c|, Limit(maxLength))];
    CStringReads(p, []);
    assert p + [0] + [] == p + [0];
  }

  lemma {:induction false} StringInPlace(s: Option<seq<Byte>>, rest: seq<Byte>)
    requires |Chars(s)| < WORD && NulFree(Chars(s))
    ensures ReadStringInPlace(EncodeString(s) + rest) == Some((Chars(s), rest))
  {
    WrittenString(Chars(s), rest);
    CStringReads(Chars(s), rest);
  }

  /** Deserializing what was serialized, with anything after it, gives the value and leaves the rest. */
  lemma {:induction false} RoundTrip(schema: Schema, ty: Type, v: Value, rest: seq<Byte>)
    requires ValidSchema(schema) && ValidType(schema, ty) && WellTyped(schema, ty, v)
    ensures Decode(schema, ty, Encode(schema, ty, v) + rest) == Some((Normal(v), rest))
    decreases v, 1
  {
    match ty {
      case Scalar(k) =>
        ReadWrittenNumber(v.n, k, rest);
      case Enum =>
        ReadWrittenNumber(v.n, 4, rest);
      case Text =>
        StringCopied(v.chars, 0, rest);
        assert Chars(v.chars)[..|Chars(v.chars)|] == Chars(v.chars);
      case Struct(id) =>
        RoundTripAll(schema, schema[id], id, v.fields, rest);
      case Array(e) =>
        var items := EncodeEach(schema, e, v.items);
        assert Encode(schema, ty, v) + rest == Bytes(|v.items|, 4) + (items + rest);
        WordIsFourBytes();
        ReadWrittenNumber(|v.items|, 4, items + rest);
        RoundTripEach(schema, e, v.items, rest);
      case Variant(es) =>
        RoundTripVariant(schema, es, v, rest);
    }
  }

  lemma {:induction false} RoundTripVariant(schema: Schema, es: seq<Type>, v: Value, rest: seq<Byte>)
    requires ValidSchema(schema) && ValidType(schema, Variant(es)) && WellTyped(schema, Variant(es), v)
    ensures Decode(schema, Variant(es), Encode(schema, Variant(es), v) + rest) == Some((Normal(v), rest))
    decreases v, 0
  {
    var b := Encode(schema, Variant(es), v) + rest;
    assert b[..1] == [v.tag] && FromBytes([v.tag]) == v.tag by {
      assert [v.tag][1..] == [];
    }
    if 1 <= v.tag <= |es| {
      var e, w := es[v.tag - 1], v.payload[0];
      assert b[1..] == Encode(schema, e, w) + rest;
      RoundTrip(schema, e, w, rest);
      assert v.payload == [w];
      assert NormalAll(v.payload) == [Normal(w)];
    } else {
      assert b[1..] == rest;
    }
  }

  lemma {:induction false} RoundTripAll(schema: Schema, tys: seq<Type>, bound: nat, vs: seq<Value>, rest: seq<Byte>)
    requires ValidSchema(schema) && ValidMembers(schema, tys, bound) && AllWellTyped(schema, tys, vs)
    ensures DecodeAll(schema, tys, bound, EncodeAll(schema, tys, vs) + rest) == Some((NormalAll(vs), rest))
    decreases vs, 0
  {
    if vs == [] {
      assert EncodeAll(schema, tys, vs) + rest == rest;
    } else {
      var first, others := Encode(schema, tys[0], vs[0]), EncodeAll(schema, tys[1..], vs[1..]);
      assert EncodeAll(schema, tys, vs) + rest == first + (others + rest);
      RoundTrip(schema, tys[0], vs[0], others + rest);
      RoundTripAll(schema, tys[1..], bound, vs[1..], rest);
    }
  }

  lemma {:induction false} RoundTripEach(schema: Schema, ty: Type, vs: seq<Value>, rest: seq<Byte>)
    requires ValidSchema(schema) && Simple(schema, ty) && EachWellTyped(schema, ty, vs)
    ensures DecodeEach(schema, ty, |vs|, EncodeEach(schema, ty, vs) + rest) == Some((NormalAll(vs), rest))
    decreases vs, 0
  {
    if vs == [] {
      assert EncodeEach(schema, ty, vs) + rest == rest;
    } else {
      var first, others := Encode(schema, ty, vs[0]), EncodeEach(schema, ty, vs[1..]);
      assert EncodeEach(schema, ty, vs) + rest == first + (others + rest);
      RoundTrip(schema, ty, vs[0], others + rest);
      RoundTripEach(schema, ty, vs[1..], rest);
    }
  }
}
