/**
  * The emitted code itself: it writes a value at the buffer's index, or reads one from there, moving
  * the index along, with loops over the elements of struct arrays.
  */
module WireBuffer {
  import opened Collections
  import opened Machine
  import opened Options
  import opened WireFormat
  import opened WireMessages

  class Buffer {
    const data: array<Byte>
    var index: nat

    ghost predicate Valid()
      reads this, data
    {
      index <= data.Length
    }

    ghost function Written(): (b: seq<Byte>)
      reads this, data
      requires Valid()
    {
      data[..index]
    }

    ghost function Unread(): (b: seq<Byte>)
      reads this, data
      requires Valid()
    {
      data[index..]
    }

    constructor (data: array<Byte>)
      ensures Valid() && this.data == data && index == 0
    {
      this.data, index := data, 0;
    }

    // ---------------------------------------------------------------- writing

    /** Copies a block to the index and moves past it. */
    method Store(block: seq<Byte>)
      requires Valid() && index + |block| <= data.Length
      modifies this`index, data
      ensures Valid() && Written() == old(Written()) + block && data[index..] == old(data[..])[index..]
    {
      forall i | 0 <= i < |block| {
        data[index + i] := block[i];
      }
      index := index + |block|;
    }

    method SerializeString(s: Option<seq<Byte>>)
      requires Valid() && index + |EncodeString(s)| <= data.Length
      modifies this`index, data
      ensures Valid() && Written() == old(Written()) + EncodeString(s)
    {
      var length := if s.Some? then |s.value| else 0;
      ghost var before := Written();
      Store(Bytes(length, 4));
      if length == 0 {
        Store([0]);
        assert Chars(s) == [];
        assert Written() == before + (Bytes(length, 4) + Chars(s) + [0]);
        return;
      }
      Store(s.value);
      Store([0]);
      assert Written() == before + (Bytes(length, 4) + s.value + [0]);
    }

    method SerializeValue(schema: Schema, ty: Type, v: Value)
      requires Valid() && WellTyped(schema, ty, v) && index + |Encode(schema, ty, v)| <= data.Length
      modifies this`index, data
      ensures Valid() && Written() == old(Written()) + Encode(schema, ty, v)
      decreases v, 1
    {
      match ty {
        case Scalar(k) => Store(Bytes(v.n, k));
        case Enum => Store(Bytes(v.n, 4));
        case Text => SerializeString(v.chars);
        case Struct(id) => SerializeAll(schema, schema[id], v.fields);
        case Array(e) => SerializeArray(schema, e, v);
        case Variant(es) => SerializeVariant(schema, es, v);
      }
    }

    /** The type byte and, when it selects a member, that member. */
    method SerializeVariant(schema: Schema, es: seq<Type>, v: Value)
      requires Valid() && WellTyped(schema, Variant(es), v)
      requires index + |Encode(schema, Variant(es), v)| <= data.Length
      modifies this`index, data
      ensures Valid() && Written() == old(Written()) + Encode(schema, Variant(es), v)
      decreases v, 0
    {
      ghost var before := Written();
      Store([v.tag]);
      if 1 <= v.tag <= |es| {
        SerializeValue(schema, es[v.tag - 1], v.payload[0]);
        Associate(before, [v.tag], Encode(schema, es[v.tag - 1], v.payload[0]));
      } else {
        assert [v.tag] + [] == [v.tag];
      }
    }

    method SerializeArray(schema: Schema, e: Type, v: Value)
      requires Valid() && WellTyped(schema, Array(e), v) && index + |Encode(schema, Array(e), v)| <= data.Length
      modifies this`index, data
      ensures Valid() && Written() == old(Written()) + Encode(schema, Array(e), v)
      decreases v, 0
    {
      ghost var before := Written();
      Store(Bytes(|v.items|, 4));
      ghost var all := Written() + EncodeEach(schema, e, v.items);
      assert all == before + Encode(schema, Array(e), v);
      if e.Struct? {
        SerializeEach(schema, e, v.items);
      } else {
        Store(EncodeEach(schema, e, v.items));
      }
    }

    /** The loop over the elements of a struct array. */
    method SerializeEach(schema: Schema, e: Type, vs: seq<Value>)
      requires Valid() && EachWellTyped(schema, e, vs) && index + |EncodeEach(schema, e, vs)| <= data.Length
      modifies this`index, data
      ensures Valid() && Written() == old(Written()) + EncodeEach(schema, e, vs)
      decreases vs, 0
    {
      ghost var all := Written() + EncodeEach(schema, e, vs);
      assert vs[0..] == vs;
      for i := 0 to |vs|
        invariant Valid() && EachWellTyped(schema, e, vs[i..])
        invariant Written() + EncodeEach(schema, e, vs[i..]) == all && |all| <= data.Length
      {
        ghost var before, rest := Written(), vs[i..];
        assert rest[0] == vs[i] && rest[1..] == vs[i + 1..];
        EachHead(schema, e, rest);
        Associate(before, Encode(schema, e, vs[i]), EncodeEach(schema, e, vs[i + 1..]));
        SerializeValue(schema, e, vs[i]);
      }
    }

    method SerializeAll(schema: Schema, tys: seq<Type>, vs: seq<Value>)
      requires Valid() && AllWellTyped(schema, tys, vs) && index + |EncodeAll(schema, tys, vs)| <= data.Length
      modifies this`index, data
      ensures Valid() && Written() == old(Written()) + EncodeAll(schema, tys, vs)
      decreases vs, 0
    {
      if vs != [] {
        AllHead(schema, tys, vs);
        Associate(Written(), Encode(schema, tys[0], vs[0]), EncodeAll(schema, tys[1..], vs[1..]));
        SerializeValue(schema, tys[0], vs[0]);
        SerializeAll(schema, tys[1..], vs[1..]);
      }
    }

    /** The body of a generated call, event or response: header, then every parameter. */
    method SerializeMessage(schema: Schema, service: Byte, action: Byte, flags: Byte, tys: seq<Type>, vs: seq<Value>)
      requires Valid() && index == 0 && AllWellTyped(schema, tys, vs)
      requires |Message(schema, service, action, flags, tys, vs)| <= data.Length
      modifies this`index, data
      ensures Valid() && Written() == Message(schema, service, action, flags, tys, vs)
      ensures ReadEnvelope(Written()) == Some(Envelope(0, 0, service, action, flags))
    {
      Store(Bytes(0, 4));
      Store(Bytes(0, 4));
      Store([service]);
      Store([action]);
      Store([flags]);
      assert Written() == Header(service, action, flags);
      UnsentHeader(schema, service, action, flags, tys, vs);
      SerializeAll(schema, tys, vs);
    }

    /** Overwrites four bytes at a fixed place. */
    method Patch(at: nat, n: nat)
      requires Valid() && at + 4 <= data.Length
      modifies data
      ensures data[..] == old(data[..at]) + Bytes(n, 4) + old(data[at + 4..])
    {
      ghost var before := data[..];
      var block := Bytes(n, 4);
      forall i | 0 <= i < 4 {
        data[at + i] := block[i];
      }
      assert data[..at] == before[..at] && data[at..at + 4] == block && data[at + 4..] == before[at + 4..];
      assert data[..] == data[..at] + data[at..at + 4] + data[at + 4..];
    }

    /** What sending fills in: the message's id, and its length, which is where the writing stopped. */
    method Stamp(id: Word)
      requires Valid() && index >= HEADER_SIZE
      modifies data
      ensures Valid() && Written() == Stamped(old(Written()), id) && data[index..] == old(data[index..])
    {
      ghost var before := data[..];
      Patch(0, id);
      assert data[..] == Bytes(id, 4) + before[4..];
      Patch(4, index);
      assert data[..] == Bytes(id, 4) + Bytes(index, 4) + before[8..];
    }

    // ---------------------------------------------------------------- reading

    method DeserializeNumber(k: nat) returns (n: nat)
      requires Valid() && ReadNumber(Unread(), k).Some?
      modifies this`index
      ensures Valid() && ReadNumber(old(Unread()), k) == Some((n, Unread()))
    {
      n := FromBytes(data[index..index + k]);
      assert Unread()[..k] == data[index..index + k];
      index := index + k;
    }

    /** The header of a received message; what is read next are its parameters. */
    method OpenMessage() returns (e: Envelope)
      requires Valid() && |Unread()| >= HEADER_SIZE
      modifies this`index
      ensures Valid() && ReadEnvelope(old(Unread())) == Some(e) && Unread() == old(Unread())[11..]
    {
      ghost var b := Unread();
      e := Envelope(FromBytes(data[index..index + 4]), FromBytes(data[index + 4..index + 8]),
                    data[index + 8], data[index + 9], data[index + 10]);
      assert b[0..4] == data[index..index + 4] && b[4..8] == data[index + 4..index + 8];
      index := index + HEADER_SIZE;
    }

    /** Where the string begins in the message. */
    method DeserializeStringInPlace() returns (start: nat)
      requires Valid() && ReadStringInPlace(Unread()).Some?
      modifies this`index
      ensures Valid() && start <= data.Length
      ensures ReadStringInPlace(old(Unread())) == Some((CString(data[start..]), Unread()))
    {
      ghost var all := data[..];
      assert Unread() == all[index..] && Unread()[..4] == data[index..index + 4];
      var length := FromBytes(data[index..index + 4]);
      start := index + 4;
      DropTwice(all, index, 4);
      DropTwice(all, index, 4 + length + 1);
      assert data[start..] == all[start..];
      index := index + 4 + length + 1;
      assert Unread() == all[index..];
    }

    /** Copies the string to the caller's buffer, which the terminated copy must fit. */
    method DeserializeStringCopy(out: array<Byte>, maxLength: nat)
      requires Valid() && out != data && ReadStringCopy(Unread(), maxLength).Some?
      requires Minimum(FromBytes(Unread()[..4]), Limit(maxLength)) < out.Length
      modifies this`index, out
      ensures Valid() && ReadStringCopy(old(Unread()), maxLength) == Some((CString(out[..]), Unread()))
    {
      ghost var all, b := data[..], Unread();
      assert b == all[index..];
      assert b[..4] == data[index..index + 4];
      var length := FromBytes(data[index..index + 4]);
      var clampedLength := Minimum(length, Limit(maxLength));
      ghost var copied := b[4..4 + clampedLength];
      assert copied == data[index + 4..index + 4 + clampedLength];
      DropTwice(all, index, 4 + length + 1);
      ghost var beyond := out[clampedLength + 1..];
      CopyTerminated(data, index + 4, out, clampedLength);
      CStringEnds(copied, beyond);
      index := index + 4 + length + 1;
      assert data[..] == all;
      assert Unread() == all[index..];
    }

    /** The deserializer of struct members; the message must hold what it reads. */
    method DeserializeValue(schema: Schema, ty: Type) returns (v: Value)
      requires Valid() && ValidSchema(schema) && ValidType(schema, ty) && Decode(schema, ty, Unread()).Some?
      modifies this`index
      ensures Valid() && Decode(schema, ty, old(Unread())) == Some((v, Unread()))
      decreases |Unread()|, if ty.Struct? then 2 * ty.id + 1 else 0, 0
    {
      match ty {
        case Scalar(k) =>
          var n := DeserializeNumber(k);
          v := Number(n);
        case Enum =>
          var n := DeserializeNumber(4);
          v := Number(n);
        case Text =>
          var length := FromBytes(data[index..index + 4]);
          assert Unread()[..4] == data[index..index + 4];
          var out := new Byte[length + 1];
          DeserializeStringCopy(out, 0);
          v := String(Some(CString(out[..])));
        case Struct(id) =>
          var fields := DeserializeAll(schema, schema[id], id);
          v := Record(fields);
        case Array(e) =>
          var count := DeserializeNumber(4);
          var items := DeserializeEach(schema, e, count);
          v := List(items);
        case Variant(es) =>
          var tag := DeserializeNumber(1);
          if 1 <= tag <= |es| {
            var w := DeserializeValue(schema, es[tag - 1]);
            v := Choice(tag, [w]);
          } else {
            v := Choice(tag, []);
          }
      }
    }

    method DeserializeAll(schema: Schema, tys: seq<Type>, ghost bound: nat) returns (vs: seq<Value>)
      requires Valid() && ValidSchema(schema) && ValidMembers(schema, tys, bound)
      requires DecodeAll(schema, tys, bound, Unread()).Some?
      modifies this`index
      ensures Valid() && DecodeAll(schema, tys, bound, old(Unread())) == Some((vs, Unread()))
      decreases |Unread()|, 2 * bound, |tys|
    {
      if tys == [] {
        return [];
      }
      var v := DeserializeValue(schema, tys[0]);
      var rest := DeserializeAll(schema, tys[1..], bound);
      vs := [v] + rest;
    }

    /** The deserializer of arguments, which leaves strings in the message. */
    method DeserializeArgs(schema: Schema, tys: seq<Type>) returns (vs: seq<Value>)
      requires Valid() && ValidSchema(schema) && ValidParams(schema, tys) && DecodeArgs(schema, tys, Unread()).Some?
      modifies this`index
      ensures Valid() && DecodeArgs(schema, tys, old(Unread())) == Some((vs, Unread()))
      decreases |tys|
    {
      if tys == [] {
        return [];
      }
      var v;
      if tys[0].Text? {
        var start := DeserializeStringInPlace();
        v := String(Some(CString(data[start..])));
      } else {
        v := DeserializeValue(schema, tys[0]);
      }
      var rest := DeserializeArgs(schema, tys[1..]);
      vs := [v] + rest;
    }

    /** The loop over the elements of an array. */
    method DeserializeEach(schema: Schema, e: Type, count: nat) returns (vs: seq<Value>)
      requires Valid() && ValidSchema(schema) && Simple(schema, e) && DecodeEach(schema, e, count, Unread()).Some?
      modifies this`index
      ensures Valid() && DecodeEach(schema, e, count, old(Unread())) == Some((vs, Unread()))
      decreases |Unread()|, 2 * |schema| + 2, count
    {
      ghost var all := DecodeEach(schema, e, count, Unread());
      vs := [];
      StillToRead(schema, e, count, Unread());
      for i := 0 to count
        invariant Valid() && |Unread()| <= old(|Unread()|)
        invariant ToRead(schema, e, count - i, Unread(), vs, all)
      {
        ReadOne(schema, e, count - i, Unread(), vs, all);
        var v := DeserializeValue(schema, e);
        vs := vs + [v];
      }
      assert vs + [] == vs;
    }
  }

  /** With `vs` read, the other `n` elements complete what is to be read. */
  ghost predicate ToRead(schema: Schema, e: Type, n: nat, b: seq<Byte>, vs: seq<Value>, all: Read<seq<Value>>)
    requires ValidSchema(schema) && Simple(schema, e)
  {
    var r := DecodeEach(schema, e, n, b);
    r.Some? && all == Some((vs + r.value.0, r.value.1))
  }

  lemma {:induction false} StillToRead(schema: Schema, e: Type, n: nat, b: seq<Byte>)
    requires ValidSchema(schema) && Simple(schema, e) && DecodeEach(schema, e, n, b).Some?
    ensures ToRead(schema, e, n, b, [], DecodeEach(schema, e, n, b))
  {
    var vs := DecodeEach(schema, e, n, b).value.0;
    assert [] + vs == vs;
  }

  lemma {:induction false} ReadOne(schema: Schema, e: Type, n: nat, b: seq<Byte>, vs: seq<Value>,
                                   all: Read<seq<Value>>)
    requires ValidSchema(schema) && Simple(schema, e) && n > 0 && ToRead(schema, e, n, b, vs, all)
    ensures Decode(schema, e, b).Some?
    ensures var (v, rest) := Decode(schema, e, b).value;
            ToRead(schema, e, n - 1, rest, vs + [v], all)
  {
    EachReadHead(schema, e, n, b);
    var (v, rest) := Decode(schema, e, b).value;
    Associate(vs, [v], DecodeEach(schema, e, n - 1, rest).value.0);
  }

  /** Copies `n` bytes and a terminator after them. */
  method CopyTerminated(src: array<Byte>, start: nat, dst: array<Byte>, n: nat)
    requires src != dst && start + n <= src.Length && n < dst.Length
    modifies dst
    ensures dst[..] == src[start..start + n] + [0] + old(dst[n + 1..])
  {
    ghost var beyond := dst[n + 1..];
    if n > 0 {
      forall i | 0 <= i < n {
        dst[i] := src[start + i];
      }
    }
    dst[n] := 0;
    assert dst[..n] == src[start..start + n] && dst[n + 1..] == beyond;
    assert dst[..] == dst[..n] + [dst[n]] + dst[n + 1..];
  }

  /** A C string ends at its terminator, whatever follows. */
  lemma {:induction false} CStringEnds(s: seq<Byte>, rest: seq<Byte>)
    ensures CString(s + [0]) == CString(s + [0] + rest)
    decreases |s|
  {
    if s != [] {
      assert (s + [0])[1..] == s[1..] + [0];
      assert (s + [0] + rest)[1..] == s[1..] + [0] + rest;
      CStringEnds(s[1..], rest);
    }
  }

  /** A call written, sent and read at the other end: the header and the arguments arrive. */
  method Deliver(schema: Schema, service: Byte, action: Byte, flags: Byte, tys: seq<Type>, vs: seq<Value>, id: Word)
    returns (e: Envelope, args: seq<Value>)
    requires ValidSchema(schema) && ValidParams(schema, tys) && AllWellTyped(schema, tys, vs)
    ensures e == Envelope(id, |Message(schema, service, action, flags, tys, vs)| % WORD, service, action, flags)
    ensures args == NormalAll(vs)
  {
    var data := new Byte[|Message(schema, service, action, flags, tys, vs)|];
    var sender := new Buffer(data);
    sender.SerializeMessage(schema, service, action, flags, tys, vs);
    sender.Stamp(id);
    CallRead(schema, service, action, flags, tys, vs, id);
    assert data[..] == sender.Written();
    var receiver := new Buffer(data);
    assert receiver.Unread() == data[..];
    e := receiver.OpenMessage();
    args := receiver.DeserializeArgs(schema, tys);
  }
}
