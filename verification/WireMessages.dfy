/**
  * Whole messages: the header, the parameters, the server's and the client's way of reading them
  * back, and the size that generated code asks for before it writes.
  */
module WireMessages {
  import opened Collections
  import opened Machine
  import opened Options
  import opened StreamPools
  import opened WireFormat

  /** Parameters are not variants, and arrays of strings are not generated. */
  predicate ValidParams(schema: Schema, tys: seq<Type>)
  {
    forall i | 0 <= i < |tys| :: ValidType(schema, tys[i]) && !tys[i].Variant?
  }

  // ---------------------------------------------------------------- arguments, read by the server

  /** The deserializer of arguments: strings are left in the message. */
  function DecodeArg(schema: Schema, ty: Type, b: seq<Byte>): (r: Read<Value>)
    requires ValidSchema(schema) && ValidType(schema, ty)
  {
    if ty.Text? then
      var r := ReadStringInPlace(b);
      if r.None? then None else Some((String(Some(r.value.0)), r.value.1))
    else Decode(schema, ty, b)
  }

  function DecodeArgs(schema: Schema, tys: seq<Type>, b: seq<Byte>): (r: Read<seq<Value>>)
    requires ValidSchema(schema) && ValidParams(schema, tys)
    decreases |tys|
  {
    if tys == [] then Some(([], b)) else
      var r := DecodeArg(schema, tys[0], b);
      if r.None? then None else
        var rs := DecodeArgs(schema, tys[1..], r.value.1);
        if rs.None? then None else Some(([r.value.0] + rs.value.0, rs.value.1))
  }

  /** The server reads the arguments the client wrote. */
  lemma {:induction false} ArgsRoundTrip(schema: Schema, tys: seq<Type>, vs: seq<Value>, rest: seq<Byte>)
    requires ValidSchema(schema) && ValidParams(schema, tys) && AllWellTyped(schema, tys, vs)
    ensures DecodeArgs(schema, tys, EncodeAll(schema, tys, vs) + rest) == Some((NormalAll(vs), rest))
    decreases |tys|
  {
    if tys == [] {
      assert EncodeAll(schema, tys, vs) + rest == rest;
    } else {
      var first, others := Encode(schema, tys[0], vs[0]), EncodeAll(schema, tys[1..], vs[1..]);
      assert EncodeAll(schema, tys, vs) + rest == first + (others + rest);
      if tys[0].Text? {
        StringInPlace(vs[0].chars, others + rest);
      } else {
        RoundTrip(schema, tys[0], vs[0], others + rest);
      }
      ArgsRoundTrip(schema, tys[1..], vs[1..], rest);
    }
  }

  // ---------------------------------------------------------------- results, read by the client

  /** The bytes of one element of an array that is copied as a block. */
  function ElementSize(ty: Type): (n: nat)
  {
    if ty.Scalar? then ty.size else 4
  }

  /**
    * The deserializer of results into the caller's buffers, of which `limit` gives the length of a
    * string buffer or the number of elements of an array.
    */
  function DecodeResult(schema: Schema, ty: Type, limit: nat, b: seq<Byte>): (r: Read<Value>)
    requires ValidSchema(schema) && ValidType(schema, ty)
  {
    match ty
    case Text =>
      var r := ReadStringCopy(b, limit);
      if r.None? then None else Some((String(Some(r.value.0)), r.value.1))
    case Array(e) =>
      var c := ReadNumber(b, 4);
      if c.None? then None else
        var (count, data) := c.value;
        var r := DecodeEach(schema, e, Minimum(count, limit), data);
        if r.None? then None
        else if e.Struct? then Some((List(r.value.0), r.value.1))
        else if |data| < ElementSize(e) * count then None
        else Some((List(r.value.0), data[ElementSize(e) * count..]))
    case _ => Decode(schema, ty, b)
  }

  function DecodeResults(schema: Schema, tys: seq<Type>, limits: seq<nat>, b: seq<Byte>): (r: Read<seq<Value>>)
    requires ValidSchema(schema) && ValidParams(schema, tys) && |limits| == |tys|
    decreases |tys|
  {
    if tys == [] then Some(([], b)) else
      var r := DecodeResult(schema, tys[0], limits[0], b);
      if r.None? then None else
        var rs := DecodeResults(schema, tys[1..], limits[1..], r.value.1);
        if rs.None? then None else Some(([r.value.0] + rs.value.0, rs.value.1))
  }

  /** What fits the caller's buffer: a prefix of the string, leaving room for its terminator, or of the array. */
  function Clamp(ty: Type, limit: nat, v: Value): (w: Value)
  {
    if ty.Text? && v.String? then
      String(Some(Chars(v.chars)[..Minimum(|Chars(v.chars)|, Limit(limit))]))
    else if ty.Array? && v.List? then
      List(NormalAll(v.items[..Minimum(|v.items|, limit)]))
    else Normal(v)
  }

  function ClampAll(tys: seq<Type>, limits: seq<nat>, vs: seq<Value>): (ws: seq<Value>)
    requires |tys| == |limits| == |vs|
    decreases |tys|
  {
    if tys == [] then [] else [Clamp(tys[0], limits[0], vs[0])] + ClampAll(tys[1..], limits[1..], vs[1..])
  }

  lemma {:induction false} PartsWellTyped(schema: Schema, ty: Type, a: seq<Value>, b: seq<Value>)
    requires EachWellTyped(schema, ty, a + b)
    ensures EachWellTyped(schema, ty, a) && EachWellTyped(schema, ty, b)
    decreases |a|
  {
    if a == [] {
      assert a + b == b;
    } else {
      assert (a + b)[0] == a[0] && (a + b)[1..] == a[1..] + b;
      PartsWellTyped(schema, ty, a[1..], b);
    }
  }

  lemma {:induction false} EachConcat(schema: Schema, ty: Type, a: seq<Value>, b: seq<Value>)
    requires EachWellTyped(schema, ty, a + b) && EachWellTyped(schema, ty, a) && EachWellTyped(schema, ty, b)
    ensures EncodeEach(schema, ty, a + b) == EncodeEach(schema, ty, a) + EncodeEach(schema, ty, b)
    decreases |a|
  {
    if a == [] {
      assert a + b == b;
    } else {
      var ab, tail := a + b, a[1..];
      assert ab[0] == a[0] && ab[1..] == tail + b;
      EachHead(schema, ty, ab);
      EachHead(schema, ty, a);
      EachConcat(schema, ty, tail, b);
      Associate(Encode(schema, ty, a[0]), EncodeEach(schema, ty, tail), EncodeEach(schema, ty, b));
    }
  }

  lemma {:induction false} EachSize(schema: Schema, ty: Type, vs: seq<Value>)
    requires (ty.Scalar? || ty.Enum?) && EachWellTyped(schema, ty, vs)
    ensures |EncodeEach(schema, ty, vs)| == ElementSize(ty) * |vs|
    decreases |vs|
  {
    if vs != [] {
      EachSize(schema, ty, vs[1..]);
      assert ElementSize(ty) * |vs| == ElementSize(ty) + ElementSize(ty) * (|vs| - 1);
    }
  }

  /** Reading fewer elements than were written gives a prefix and stops before the others. */
  lemma {:induction false} PrefixRead(schema: Schema, e: Type, items: seq<Value>, m: nat, rest: seq<Byte>)
    requires ValidSchema(schema) && Simple(schema, e) && EachWellTyped(schema, e, items) && m <= |items|
    ensures EachWellTyped(schema, e, items[m..])
    ensures DecodeEach(schema, e, m, EncodeEach(schema, e, items) + rest)
            == Some((NormalAll(items[..m]), EncodeEach(schema, e, items[m..]) + rest))
  {
    var read, left := items[..m], items[m..];
    assert items == read + left;
    PartsWellTyped(schema, e, read, left);
    EachConcat(schema, e, read, left);
    Associate(EncodeEach(schema, e, read), EncodeEach(schema, e, left), rest);
    RoundTripEach(schema, e, read, EncodeEach(schema, e, left) + rest);
  }

  /** What the client reads of an array: the prefix that fits, and what it leaves unread of a struct array. */
  lemma {:induction false} ArrayResult(schema: Schema, e: Type, limit: nat, v: Value, rest: seq<Byte>)
    requires ValidSchema(schema) && Simple(schema, e) && WellTyped(schema, Array(e), v)
    ensures var m := Minimum(|v.items|, limit);
            EachWellTyped(schema, e, v.items[m..])
            && DecodeResult(schema, Array(e), limit, Encode(schema, Array(e), v) + rest)
               == Some((Clamp(Array(e), limit, v),
                        if e.Struct? then EncodeEach(schema, e, v.items[m..]) + rest else rest))
  {
    var data := EncodeEach(schema, e, v.items) + rest;
    assert Encode(schema, Array(e), v) + rest == Bytes(|v.items|, 4) + data;
    WordIsFourBytes();
    ReadWrittenNumber(|v.items|, 4, data);
    PrefixRead(schema, e, v.items, Minimum(|v.items|, limit), rest);
    if !e.Struct? {
      EachSize(schema, e, v.items);
      assert data[ElementSize(e) * |v.items|..] == rest;
    }
  }

  /** A type whose values occupy no bytes: structs of such members, down to empty structs. */
  predicate Weightless(schema: Schema, ty: Type)
    requires ValidSchema(schema) && ValidType(schema, ty)
    decreases if ty.Struct? then 2 * ty.id + 1 else 0, 0
  {
    match ty
    case Scalar(size) => size == 0
    case Struct(id) => WeightlessAll(schema, schema[id], id)
    case _ => false
  }

  predicate WeightlessAll(schema: Schema, tys: seq<Type>, bound: nat)
    requires ValidSchema(schema) && ValidMembers(schema, tys, bound)
    decreases 2 * bound, |tys|
  {
    tys != [] ==> Weightless(schema, tys[0]) && WeightlessAll(schema, tys[1..], bound)
  }

  /** Whether a value is written as nothing depends on its type alone. */
  lemma {:induction false} WeightlessExactly(schema: Schema, ty: Type, v: Value)
    requires ValidSchema(schema) && ValidType(schema, ty) && WellTyped(schema, ty, v)
    ensures Encode(schema, ty, v) == [] <==> Weightless(schema, ty)
    decreases v, 1
  {
    if ty.Struct? {
      WeightlessAllExactly(schema, schema[ty.id], ty.id, v.fields);
    }
  }

  lemma {:induction false} WeightlessAllExactly(schema: Schema, tys: seq<Type>, bound: nat, vs: seq<Value>)
    requires ValidSchema(schema) && ValidMembers(schema, tys, bound) && AllWellTyped(schema, tys, vs)
    ensures EncodeAll(schema, tys, vs) == [] <==> WeightlessAll(schema, tys, bound)
    decreases vs, 0
  {
    if vs != [] {
      AllHead(schema, tys, vs);
      WeightlessExactly(schema, tys[0], vs[0]);
      WeightlessAllExactly(schema, tys[1..], bound, vs[1..]);
    }
  }

  lemma {:induction false} WeightlessEach(schema: Schema, e: Type, vs: seq<Value>)
    requires ValidSchema(schema) && Simple(schema, e) && EachWellTyped(schema, e, vs)
    ensures EncodeEach(schema, e, vs) == [] <==> vs == [] || Weightless(schema, e)
    decreases |vs|
  {
    if vs != [] {
      EachHead(schema, e, vs);
      WeightlessExactly(schema, e, vs[0]);
      WeightlessEach(schema, e, vs[1..]);
    }
  }

  /**
    * A struct array is read without shifting what follows if and only if it fits the caller's array or
    * its elements are of a type that occupies no bytes.
    */
  lemma {:induction false} StructArrayShifts(schema: Schema, e: Type, limit: nat, v: Value, rest: seq<Byte>)
    requires ValidSchema(schema) && Simple(schema, e) && e.Struct? && WellTyped(schema, Array(e), v)
    ensures DecodeResult(schema, Array(e), limit, Encode(schema, Array(e), v) + rest)
              == Some((Clamp(Array(e), limit, v), rest))
            <==> |v.items| <= limit || Weightless(schema, e)
  {
    var m := Minimum(|v.items|, limit);
    ArrayResult(schema, e, limit, v, rest);
    WeightlessEach(schema, e, v.items[m..]);
    var unread := EncodeEach(schema, e, v.items[m..]);
    assert |unread + rest| == |unread| + |rest|;
    assert unread == [] ==> unread + rest == rest;
  }

  /** Two one-byte structs read into an array of one: the second is taken for what follows. */
  lemma {:induction false} SecondElementLeft(x: Byte, y: Byte, rest: seq<Byte>)
    ensures var schema: Schema := [[Scalar(1)]];
            var v := List([Record([Number(x)]), Record([Number(y)])]);
            && ValidSchema(schema) && WellTyped(schema, Array(Struct(0)), v)
            && DecodeResult(schema, Array(Struct(0)), 1, Encode(schema, Array(Struct(0)), v) + rest)
               == Some((List([Record([Number(x)])]), [y] + rest))
  {
    var schema: Schema := [[Scalar(1)]];
    var first, second := Record([Number(x)]), Record([Number(y)]);
    ByteStruct(x);
    ByteStruct(y);
    var v := List([first, second]);
    assert v.items[1..] == [second] && v.items[..1] == [first] && [second][1..] == [] && [first][1..] == [];
    assert EachWellTyped(schema, Struct(0), [second]);
    assert EachWellTyped(schema, Struct(0), v.items);
    ArrayResult(schema, Struct(0), 1, v, rest);
    EachHead(schema, Struct(0), [second]);
    assert [y] + [] == [y];
    assert NormalAll([first]) == [first];
  }

  /** A struct of one byte is written as that byte. */
  lemma {:induction false} ByteStruct(x: Byte)
    ensures var schema: Schema := [[Scalar(1)]];
            var v := Record([Number(x)]);
            && ValidSchema(schema) && WellTyped(schema, Struct(0), v)
            && Encode(schema, Struct(0), v) == [x] && Normal(v) == v
  {
    var schema: Schema := [[Scalar(1)]];
    var fields := [Number(x)];
    assert Pow256(1) == 256 * Pow256(0) == 256;
    assert fields[1..] == [] && schema[0][1..] == [];
    assert WellTyped(schema, Scalar(1), Number(x));
    assert AllWellTyped(schema, schema[0], fields);
    assert Bytes(x, 1) == [x] + Bytes(x / 256, 0) == [x];
    assert Encode(schema, Scalar(1), Number(x)) == [x];
    assert EncodeAll(schema, schema[0], fields) == [x] + [];
    assert NormalAll(fields) == fields;
  }

  /** No result is a struct array that would leave bytes unread. */
  predicate StructArraysFit(schema: Schema, tys: seq<Type>, limits: seq<nat>, vs: seq<Value>)
    requires ValidSchema(schema) && ValidParams(schema, tys) && |tys| == |limits| == |vs|
  {
    forall i | 0 <= i < |tys| :: StructArrayFits(schema, tys[i], limits[i], vs[i])
  }

  predicate StructArrayFits(schema: Schema, ty: Type, limit: nat, v: Value)
    requires ValidSchema(schema) && ValidType(schema, ty)
  {
    ty.Array? && ty.element.Struct? && v.List? ==> |v.items| <= limit || Weightless(schema, ty.element)
  }

  lemma {:induction false} ResultClamped(schema: Schema, ty: Type, limit: nat, v: Value, rest: seq<Byte>)
    requires ValidSchema(schema) && ValidType(schema, ty) && !ty.Variant? && WellTyped(schema, ty, v)
    requires StructArrayFits(schema, ty, limit, v)
    ensures DecodeResult(schema, ty, limit, Encode(schema, ty, v) + rest) == Some((Clamp(ty, limit, v), rest))
  {
    match ty {
      case Text => StringCopied(v.chars, limit, rest);
      case Array(e) =>
        ArrayResult(schema, e, limit, v, rest);
        if e.Struct? {
          StructArrayShifts(schema, e, limit, v, rest);
        }
      case Scalar(_) => RoundTrip(schema, ty, v, rest);
      case Enum => RoundTrip(schema, ty, v, rest);
      case Struct(_) => RoundTrip(schema, ty, v, rest);
    }
  }

  /** Clamping one result never shifts the next: the client reads all of them, each cut to its buffer. */
  lemma {:induction false} ResultsClamped(schema: Schema, tys: seq<Type>, limits: seq<nat>,
                                          vs: seq<Value>, rest: seq<Byte>)
    requires ValidSchema(schema) && ValidParams(schema, tys) && |limits| == |tys|
    requires AllWellTyped(schema, tys, vs) && StructArraysFit(schema, tys, limits, vs)
    ensures DecodeResults(schema, tys, limits, EncodeAll(schema, tys, vs) + rest)
            == Some((ClampAll(tys, limits, vs), rest))
    decreases |tys|
  {
    if tys == [] {
      assert EncodeAll(schema, tys, vs) + rest == rest;
    } else {
      var first, others := Encode(schema, tys[0], vs[0]), EncodeAll(schema, tys[1..], vs[1..]);
      assert EncodeAll(schema, tys, vs) + rest == first + (others + rest);
      ResultClamped(schema, tys[0], limits[0], vs[0], others + rest);
      assert StructArraysFit(schema, tys[1..], limits[1..], vs[1..]);
      ResultsClamped(schema, tys[1..], limits[1..], vs[1..], rest);
    }
  }

  /** With its terminator the clamped string fits the caller's buffer if and only if the buffer is not empty. */
  lemma {:induction false} ClampedStringFits(s: seq<Byte>, maxLength: nat)
    requires maxLength < WORD
    ensures Minimum(|s|, Limit(maxLength)) + 1 <= maxLength <==> maxLength >= 1
  {
  }

  // ---------------------------------------------------------------- sizes

  const HEADER_SIZE: nat := 11

  /** The header as the prologue writes it: id and length are filled in when the message is sent. */
  function Header(service: Byte, action: Byte, flags: Byte): (b: seq<Byte>)
    ensures |b| == HEADER_SIZE
  {
    Bytes(0, 4) + Bytes(0, 4) + [service] + [action] + [flags]
  }

  function Message(schema: Schema, service: Byte, action: Byte, flags: Byte, tys: seq<Type>, vs: seq<Value>)
    : (b: seq<Byte>)
    requires AllWellTyped(schema, tys, vs)
  {
    Header(service, action, flags) + EncodeAll(schema, tys, vs)
  }

  // ---------------------------------------------------------------- headers

  /** What the runtime knows of a message without its protocol. */
  datatype Envelope = Envelope(id: nat, length: nat, service: Byte, action: Byte, flags: Byte)

  const INDEX_ID: nat := 0
  const INDEX_LENGTH: nat := 4
  const INDEX_SERVICE: nat := 8
  const INDEX_ACTION: nat := 9
  const INDEX_FLAGS: nat := 10

  /** The header fields where the runtime looks for them. */
  function ReadEnvelope(b: seq<Byte>): (e: Option<Envelope>)
  {
    if |b| < HEADER_SIZE then None
    else Some(Envelope(FromBytes(b[INDEX_ID..INDEX_ID + 4]), FromBytes(b[INDEX_LENGTH..INDEX_LENGTH + 4]),
                       b[INDEX_SERVICE], b[INDEX_ACTION], b[INDEX_FLAGS]))
  }

  /** A message with its id and its length filled in. */
  function Stamped(b: seq<Byte>, id: nat): (r: seq<Byte>)
    requires |b| >= HEADER_SIZE
    ensures |r| == |b|
  {
    Bytes(id, 4) + Bytes(|b|, 4) + b[8..]
  }

  lemma {:induction false} WordTruncated(n: nat)
    ensures FromBytes(Bytes(n, 4)) == n % WORD
  {
    WordIsFourBytes();
    NumberTruncated(n, 4);
  }

  /** A header is read back where it was written, whatever the parameters. */
  lemma {:induction false} HeaderRead(id: nat, length: nat, service: Byte, action: Byte, flags: Byte, rest: seq<Byte>)
    ensures ReadEnvelope(Bytes(id, 4) + Bytes(length, 4) + ([service, action, flags] + rest)) ==
            Some(Envelope(id % WORD, length % WORD, service, action, flags))
  {
    var b := Bytes(id, 4) + Bytes(length, 4) + ([service, action, flags] + rest);
    assert b[0..4] == Bytes(id, 4) && b[4..8] == Bytes(length, 4);
    WordTruncated(id);
    WordTruncated(length);
  }

  lemma {:induction false} MessageShape(schema: Schema, service: Byte, action: Byte, flags: Byte,
                                        tys: seq<Type>, vs: seq<Value>)
    requires AllWellTyped(schema, tys, vs)
    ensures var b, args := Message(schema, service, action, flags, tys, vs), EncodeAll(schema, tys, vs);
            && b == Bytes(0, 4) + Bytes(0, 4) + ([service, action, flags] + args)
            && b[8..] == [service, action, flags] + args && b[11..] == args
  {
  }

  /** Before it is sent a message has its service, action and flags in place, and neither id nor length. */
  lemma {:induction false} UnsentHeader(schema: Schema, service: Byte, action: Byte, flags: Byte,
                                        tys: seq<Type>, vs: seq<Value>)
    requires AllWellTyped(schema, tys, vs)
    ensures ReadEnvelope(Message(schema, service, action, flags, tys, vs)) ==
            Some(Envelope(0, 0, service, action, flags))
  {
    MessageShape(schema, service, action, flags, tys, vs);
    HeaderRead(0, 0, service, action, flags, EncodeAll(schema, tys, vs));
  }

  lemma {:induction false} SentHeader(schema: Schema, service: Byte, action: Byte, flags: Byte,
                                      tys: seq<Type>, vs: seq<Value>, id: Word)
    requires AllWellTyped(schema, tys, vs)
    ensures var b := Stamped(Message(schema, service, action, flags, tys, vs), id);
            && ReadEnvelope(b) == Some(Envelope(id, |b| % WORD, service, action, flags))
            && b[11..] == EncodeAll(schema, tys, vs) + []
  {
    var m := Message(schema, service, action, flags, tys, vs);
    MessageShape(schema, service, action, flags, tys, vs);
    HeaderRead(id, |m|, service, action, flags, EncodeAll(schema, tys, vs));
    assert Stamped(m, id)[11..] == m[11..];
  }

  /** A call arrives whole: its id, its length, what it calls, and the arguments. */
  lemma {:induction false} CallRead(schema: Schema, service: Byte, action: Byte, flags: Byte,
                                    tys: seq<Type>, vs: seq<Value>, id: Word)
    requires ValidSchema(schema) && ValidParams(schema, tys) && AllWellTyped(schema, tys, vs)
    ensures var b := Stamped(Message(schema, service, action, flags, tys, vs), id);
            && ReadEnvelope(b) == Some(Envelope(id, |b| % WORD, service, action, flags))
            && DecodeArgs(schema, tys, b[11..]) == Some((NormalAll(vs), []))
  {
    SentHeader(schema, service, action, flags, tys, vs, id);
    ArgsRoundTrip(schema, tys, vs, []);
  }

  /** So does a response, each result cut to the caller's buffer. */
  lemma {:induction false} ResponseRead(schema: Schema, service: Byte, action: Byte, flags: Byte,
                                        tys: seq<Type>, limits: seq<nat>, vs: seq<Value>, id: Word)
    requires ValidSchema(schema) && ValidParams(schema, tys) && |limits| == |tys|
    requires AllWellTyped(schema, tys, vs) && StructArraysFit(schema, tys, limits, vs)
    ensures var b := Stamped(Message(schema, service, action, flags, tys, vs), id);
            && ReadEnvelope(b) == Some(Envelope(id, |b| % WORD, service, action, flags))
            && DecodeResults(schema, tys, limits, b[11..]) == Some((ClampAll(tys, limits, vs), []))
  {
    SentHeader(schema, service, action, flags, tys, vs, id);
    ResultsClamped(schema, tys, limits, vs, []);
  }

  // ---------------------------------------------------------------- layout

  /** The encodings of the first parameters, then those of the others. */
  lemma {:induction false} AllConcat(schema: Schema, tys: seq<Type>, vs: seq<Value>, n: nat)
    requires AllWellTyped(schema, tys, vs) && |tys| == |vs| && n <= |vs|
    ensures AllWellTyped(schema, tys[..n], vs[..n]) && AllWellTyped(schema, tys[n..], vs[n..])
    ensures EncodeAll(schema, tys, vs) == EncodeAll(schema, tys[..n], vs[..n]) + EncodeAll(schema, tys[n..], vs[n..])
    decreases n
  {
    if n == 0 {
      assert tys[0..] == tys && vs[0..] == vs;
    } else {
      AllHead(schema, tys, vs);
      AllConcat(schema, tys[1..], vs[1..], n - 1);
      assert tys[1..][..n - 1] == tys[..n][1..] && vs[1..][..n - 1] == vs[..n][1..];
      assert tys[1..][n - 1..] == tys[n..] && vs[1..][n - 1..] == vs[n..];
      Associate(Encode(schema, tys[0], vs[0]), EncodeAll(schema, tys[..n][1..], vs[..n][1..]),
                EncodeAll(schema, tys[n..], vs[n..]));
    }
  }

  lemma {:induction false} EachSplit(schema: Schema, e: Type, vs: seq<Value>, i: nat)
    requires (e.Scalar? || e.Enum?) && EachWellTyped(schema, e, vs) && i < |vs|
    ensures EachWellTyped(schema, e, vs[..i]) && EachWellTyped(schema, e, vs[i + 1..]) && vs[i].Number?
    ensures |EncodeEach(schema, e, vs[..i])| == ElementSize(e) * i
    ensures EncodeEach(schema, e, vs) ==
            EncodeEach(schema, e, vs[..i]) + (Bytes(vs[i].n, ElementSize(e)) + EncodeEach(schema, e, vs[i + 1..]))
  {
    var before, rest := vs[..i], vs[i..];
    assert vs == before + rest && rest[1..] == vs[i + 1..];
    PartsWellTyped(schema, e, before, rest);
    EachConcat(schema, e, before, rest);
    EachSize(schema, e, before);
    EachHead(schema, e, rest);
  }

  lemma {:induction false} BlockAt<T>(all: seq<T>, a: seq<T>, b: seq<T>, block: seq<T>, rest: seq<T>, at: nat, n: nat)
    requires all == a + (b + (block + rest)) && at == |a| + |b| && n == |block|
    ensures at + n <= |all| && all[at..at + n] == block
  {
    assert all == a + b + block + rest;
  }

  /** In an array that is copied as a block, element `i` is at its own place after the count. */
  lemma {:induction false} ElementPlace(schema: Schema, e: Type, v: Value, i: nat)
    requires (e.Scalar? || e.Enum?) && WellTyped(schema, Array(e), v) && i < |v.items|
    ensures v.items[i].Number?
    ensures var b, k := Encode(schema, Array(e), v), ElementSize(e);
            var at := 4 + k * i;
            at + k <= |b| && b[at..at + k] == Bytes(v.items[i].n, k)
  {
    EachSplit(schema, e, v.items, i);
    var k := ElementSize(e);
    BlockAt(Encode(schema, Array(e), v), Bytes(|v.items|, 4), EncodeEach(schema, e, v.items[..i]),
            Bytes(v.items[i].n, k), EncodeEach(schema, e, v.items[i + 1..]), 4 + k * i, k);
  }

  // ---------------------------------------------------------------- size expressions

  /** Parameters that a size expression is generated for, given whether the argument is at hand. */
  predicate Sized(ty: Type, known: bool)
  {
    ty.Scalar? || ty.Enum? || (known && (ty.Text? || (ty.Array? && !ty.element.Struct?)))
  }

  /** An expression is generated exactly when every parameter has one. */
  lemma {:induction false} SizeGenerated(schema: Schema, tys: seq<Type>, vs: seq<Value>, ws: seq<Option<Value>>)
    requires ValidParams(schema, tys) && AllWellTyped(schema, tys, vs) && Known(vs, ws)
    ensures |tys| == |ws|
    ensures SizeExpression(tys, ws).Some? <==> forall i | 0 <= i < |tys| :: Sized(tys[i], ws[i].Some?)
    decreases |tys|
  {
    AllSameLength(schema, tys, vs);
    if tys != [] {
      SizeGenerated(schema, tys[1..], vs[1..], ws[1..]);
      assert MemberSize(tys[0], ws[0]).Some? <==> Sized(tys[0], ws[0].Some?);
      assert forall i | 0 < i < |tys| :: tys[i] == tys[1..][i - 1] && ws[i] == ws[1..][i - 1];
    }
  }

  /**
    * The value of the size expression generated for a parameter, its counts and lengths in 32 bits;
    * none is generated for a struct or an array of structs, and without the argument at hand none for a
    * string or an array.
    */
  function MemberSize(ty: Type, v: Option<Value>): (n: Option<nat>)
  {
    match ty
    case Scalar(k) => Some(k)
    case Enum => Some(4)
    case Text =>
      if v.Some? && v.value.String? then Some(4 + |Chars(v.value.chars)| % WORD + 1) else None
    case Array(e) =>
      if !e.Struct? && v.Some? && v.value.List? then Some(4 + (ElementSize(e) * |v.value.items|) % WORD) else None
    case _ => None
  }

  /** The sum of the member expressions, or none as soon as one is missing. */
  function ParamsSize(tys: seq<Type>, vs: seq<Option<Value>>): (n: Option<nat>)
    requires |tys| == |vs|
    decreases |tys|
  {
    if tys == [] then Some(0) else
      var first, others := MemberSize(tys[0], vs[0]), ParamsSize(tys[1..], vs[1..]);
      if first.None? || others.None? then None else Some(first.value + others.value)
  }

  /** The size passed to the buffer request, which takes 32 bits. */
  function SizeExpression(tys: seq<Type>, vs: seq<Option<Value>>): (n: Option<nat>)
    requires |tys| == |vs|
  {
    var n := ParamsSize(tys, vs);
    if n.None? then None else Some((HEADER_SIZE + n.value) % WORD)
  }

  /** The generator knows the arguments it knows. */
  predicate Known(vs: seq<Value>, ws: seq<Option<Value>>)
  {
    |vs| == |ws| && forall i | 0 <= i < |vs| :: ws[i] == None || ws[i] == Some(vs[i])
  }

  lemma {:induction false} AddWords(x: nat, k: int)
    requires x + k * 0x1_0000_0000 >= 0
    ensures (x + k * 0x1_0000_0000) % 0x1_0000_0000 == x % 0x1_0000_0000
  {
  }

  lemma {:induction false} CongruentSum(a: nat, b: nat, c: nat, d: nat)
    requires a % WORD == b % WORD && c % WORD == d % WORD
    ensures (a + c) % WORD == (b + d) % WORD
  {
    AddWords(b + d, (a / WORD - b / WORD) + (c / WORD - d / WORD));
  }

  lemma {:induction false} TextSizeExact(schema: Schema, v: Value)
    requires WellTyped(schema, Text, v)
    ensures MemberSize(Text, Some(v)) == Some(|Encode(schema, Text, v)|)
  {
  }

  lemma {:induction false} ArraySizeExact(schema: Schema, e: Type, v: Value)
    requires (e.Scalar? || e.Enum?) && WellTyped(schema, Array(e), v)
    ensures |Encode(schema, Array(e), v)| == 4 + ElementSize(e) * |v.items|
  {
    EachSize(schema, e, v.items);
  }

  lemma {:induction false} ReducedSum(a: nat, n: nat)
    ensures (a + n % WORD) % WORD == (a + n) % WORD
  {
    CongruentSum(a, a, n % WORD, n);
  }

  lemma {:induction false} MemberSizeExact(schema: Schema, ty: Type, v: Value, w: Option<Value>)
    requires ValidType(schema, ty) && WellTyped(schema, ty, v) && (w == None || w == Some(v))
    ensures MemberSize(ty, w).Some? ==> MemberSize(ty, w).value % WORD == |Encode(schema, ty, v)| % WORD
  {
    if MemberSize(ty, w).Some? {
      match ty {
        case Text => TextSizeExact(schema, v);
        case Array(e) =>
          ArraySizeExact(schema, e, v);
          ReducedSum(4, ElementSize(e) * |v.items|);
        case _ =>
      }
    }
  }

  lemma {:induction false} ParamsSizeExact(schema: Schema, tys: seq<Type>, vs: seq<Value>, ws: seq<Option<Value>>)
    requires ValidParams(schema, tys) && AllWellTyped(schema, tys, vs) && Known(vs, ws)
    ensures ParamsSize(tys, ws).Some? ==> ParamsSize(tys, ws).value % WORD == |EncodeAll(schema, tys, vs)| % WORD
    decreases |tys|
  {
    if ParamsSize(tys, ws).Some? && tys != [] {
      MemberSizeExact(schema, tys[0], vs[0], ws[0]);
      ParamsSizeExact(schema, tys[1..], vs[1..], ws[1..]);
      CongruentSum(MemberSize(tys[0], ws[0]).value, |Encode(schema, tys[0], vs[0])|,
                   ParamsSize(tys[1..], ws[1..]).value, |EncodeAll(schema, tys[1..], vs[1..])|);
    }
  }

  /**
    * Whenever a size expression is generated, it is the length of the message modulo 2^32, and so the
    * exact length if and only if the message is shorter than 2^32 bytes.
    */
  lemma {:induction false} SizeExpressionExact(schema: Schema, service: Byte, action: Byte, flags: Byte,
                            tys: seq<Type>, vs: seq<Value>, ws: seq<Option<Value>>)
    requires ValidParams(schema, tys) && AllWellTyped(schema, tys, vs) && Known(vs, ws)
    requires SizeExpression(tys, ws).Some?
    ensures var n := |Message(schema, service, action, flags, tys, vs)|;
            && SizeExpression(tys, ws).value == n % WORD
            && (SizeExpression(tys, ws).value == n <==> n < WORD)
  {
    ParamsSizeExact(schema, tys, vs, ws);
    CongruentSum(HEADER_SIZE, HEADER_SIZE, ParamsSize(tys, ws).value, |EncodeAll(schema, tys, vs)|);
  }

  lemma {:induction false} ZerosWellTyped(n: nat, size: nat)
    ensures EachWellTyped([], Scalar(size), seq(n, _ => Number(0)))
    decreases n
  {
    if n > 0 {
      ZerosWellTyped(n - 1, size);
      assert seq(n, _ => Number(0))[1..] == seq(n - 1, _ => Number(0));
    }
  }

  /** A message too long for its expression: an array of 2^29 numbers of eight bytes. */
  lemma {:induction false} OversizedMessage(service: Byte, action: Byte, flags: Byte)
    ensures var v := List(seq(0x2000_0000, _ => Number(0)));
            && AllWellTyped([], [Array(Scalar(8))], [v])
            && SizeExpression([Array(Scalar(8))], [Some(v)]) == Some(15)
            && |Message([], service, action, flags, [Array(Scalar(8))], [v])| == WORD + 15
  {
    var ty, v := Array(Scalar(8)), List(seq(0x2000_0000, _ => Number(0)));
    ZerosWellTyped(0x2000_0000, 8);
    assert WellTyped([], ty, v);
    ArraySizeExact([], Scalar(8), v);
    AloneWellTyped(ty, v);
    OneParameter(service, action, flags, ty, v, 4 + 8 * 0x2000_0000);
    assert ParamsSize([ty], [Some(v)]).Some? && SizeExpression([ty], [Some(v)]).Some?;
    SizeExpressionExact([], service, action, flags, [ty], [v], [Some(v)]);
  }

  lemma {:induction false} AloneWellTyped(ty: Type, v: Value)
    requires WellTyped([], ty, v)
    ensures AllWellTyped([], [ty], [v])
  {
    assert [ty][1..] == [] && [v][1..] == [];
  }

  lemma {:induction false} OneParameter(service: Byte, action: Byte, flags: Byte, ty: Type, v: Value, n: nat)
    requires AllWellTyped([], [ty], [v]) && WellTyped([], ty, v) && |Encode([], ty, v)| == n
    ensures |Message([], service, action, flags, [ty], [v])| == HEADER_SIZE + n
  {
    AllHead([], [ty], [v]);
    assert [ty][1..] == [] && [v][1..] == [];
  }

  /** The stream buffer acquired for the size expression holds the message, with less than 256 bytes to spare. */
  lemma {:induction false} StreamBufferHolds(schema: Schema, service: Byte, action: Byte, flags: Byte,
                          tys: seq<Type>, vs: seq<Value>, ws: seq<Option<Value>>, fallback: nat)
    requires ValidParams(schema, tys) && AllWellTyped(schema, tys, vs) && Known(vs, ws)
    requires SizeExpression(tys, ws).Some? && |Message(schema, service, action, flags, tys, vs)| < WORD
    ensures var n := |Message(schema, service, action, flags, tys, vs)|;
            n <= NormalizeSize(SizeExpression(tys, ws).value, fallback) < n + 256
  {
    SizeExpressionExact(schema, service, action, flags, tys, vs, ws);
    NormalizedSize(SizeExpression(tys, ws).value, fallback);
  }

  /** The response size asked for without the results at hand is that of every response. */
  lemma {:induction false} ResponseSizeExact(schema: Schema, service: Byte, action: Byte, flags: Byte,
                                             tys: seq<Type>, vs: seq<Value>)
    requires ValidParams(schema, tys) && AllWellTyped(schema, tys, vs)
    requires SizeExpression(tys, seq(|tys|, _ => None)).Some?
    ensures var n := |Message(schema, service, action, flags, tys, vs)|;
            && SizeExpression(tys, seq(|tys|, _ => None)).value == n % WORD
            && (SizeExpression(tys, seq(|tys|, _ => None)).value == n <==> n < WORD)
  {
    AllSameLength(schema, tys, vs);
    SizeExpressionExact(schema, service, action, flags, tys, vs, seq(|tys|, _ => None));
  }

  lemma {:induction false} AllSameLength(schema: Schema, tys: seq<Type>, vs: seq<Value>)
    requires AllWellTyped(schema, tys, vs)
    ensures |tys| == |vs|
  {
  }
}
