/** The decoder object: a cursor over a read-only buffer that parses one
    data item per `ParseValue` call, advancing the cursor as it reads. Every
    method is proved to agree with the pure grammar of module Grammar. */
module Decoders {
  import opened Base
  import opened Values
  import opened Grammar

  /** A parse step agrees with the pure reading `spec`: it returns the same
      value and leaves the cursor where the reading ends, or it fails with the
      same error. */
  ghost predicate Agrees<T>(spec: Result<(T, nat)>, r: Result<T>, pos: nat)
  {
    match spec
    case Ok((v, q)) => r == Ok(v) && pos == q
    case Err(e) => r == Err(e)
  }

  class Decoder {
    const view: seq<byte>
    var pos: nat

    ghost predicate Valid()
      reads this
    {
      pos <= |view|
    }

    constructor (buffer: seq<byte>)
      ensures view == buffer && pos == 0 && Valid()
    {
      view := buffer;
      pos := 0;
    }

    method ParseU8() returns (r: Result<nat>)
      requires Valid()
      modifies this
      ensures Valid()
      ensures Agrees(ReadUint(view, old(pos), 1), r, pos)
      ensures r.Err? ==> pos == old(pos)
    {
      if pos + 1 > |view| {
        return Err(EndOfInput);
      }
      r := Ok(BigEndian(view[pos..pos + 1]));
      pos := pos + 1;
    }

    method ParseU16() returns (r: Result<nat>)
      requires Valid()
      modifies this
      ensures Valid()
      ensures Agrees(ReadUint(view, old(pos), 2), r, pos)
      ensures r.Err? ==> pos == old(pos)
    {
      if pos + 2 > |view| {
        return Err(EndOfInput);
      }
      r := Ok(BigEndian(view[pos..pos + 2]));
      pos := pos + 2;
    }

    method ParseU32() returns (r: Result<nat>)
      requires Valid()
      modifies this
      ensures Valid()
      ensures Agrees(ReadUint(view, old(pos), 4), r, pos)
      ensures r.Err? ==> pos == old(pos)
    {
      if pos + 4 > |view| {
        return Err(EndOfInput);
      }
      r := Ok(BigEndian(view[pos..pos + 4]));
      pos := pos + 4;
    }

    method ParseU64() returns (r: Result<nat>)
      requires Valid()
      modifies this
      ensures Valid()
      ensures Agrees(ReadUint(view, old(pos), 8), r, pos)
      ensures r.Err? ==> pos == old(pos)
    {
      if pos + 8 > |view| {
        return Err(EndOfInput);
      }
      r := Ok(BigEndian(view[pos..pos + 8]));
      pos := pos + 8;
    }

    /** Copies out the `len` payload bytes of a byte string. */
    method ParseBytes(len: nat, vis: Visitor) returns (r: Result<Value>)
      requires Valid()
      modifies this
      ensures Valid()
      ensures Agrees(DecodeString(vis, view, old(pos), len, false), r, pos)
    {
      if len > I32_MAX {
        return Err(LengthOutOfRange);
      }
      if pos + len > |view| {
        return Err(EndOfInput);
      }
      var v := view[pos..pos + len];
      pos := pos + len;
      r := Visit(vis, BytesEv(v));
    }

    /** Copies out the `len` UTF-8 payload bytes of a text string. */
    method ParseString(len: nat, vis: Visitor) returns (r: Result<Value>)
      requires Valid()
      modifies this
      ensures Valid()
      ensures Agrees(DecodeString(vis, view, old(pos), len, true), r, pos)
    {
      if len > I32_MAX {
        return Err(LengthOutOfRange);
      }
      if pos + len > |view| {
        return Err(EndOfInput);
      }
      var v := view[pos..pos + len];
      pos := pos + len;
      r := Visit(vis, StringEv(v));
    }

    /** Fills a new array of `len` slots with the next `len` data items. */
    method ParseArray(len: nat, vis: Visitor) returns (r: Result<Value>)
      requires Valid()
      modifies this
      ensures Valid()
      ensures Agrees(DecodeArray(vis, view, old(pos), len), r, pos)
      decreases |view| - pos, 1
    {
      if len > I32_MAX {
        return Err(LengthOutOfRange);
      }
      var v := new Value[len];
      ghost var start := pos;
      PrependNothing(DecodeItems(vis, view, pos, len));
      for i := 0 to len
        invariant Valid() && start <= pos
        invariant Prepend(v[..i], DecodeItems(vis, view, pos, len - i)) == DecodeItems(vis, view, start, len)
      {
        var item :- ParseValue(vis);
        v[i] := item;
        assert v[..i + 1] == v[..i] + [item];
        PrependTwice(v[..i], [item], DecodeItems(vis, view, pos, len - i - 1));
      }
      assert v[..] == v[..len] + [];
      r := Visit(vis, ArrayEv(v[..]));
    }

    /** Collects the next `len` key/value pairs; duplicate keys are kept. */
    method ParseMap(len: nat, vis: Visitor) returns (r: Result<Value>)
      requires Valid()
      modifies this
      ensures Valid()
      ensures Agrees(DecodeMap(vis, view, old(pos), len), r, pos)
      decreases |view| - pos, 1
    {
      if len > I32_MAX {
        return Err(LengthOutOfRange);
      }
      var v: seq<(Value, Value)> := [];
      ghost var start := pos;
      PrependNothing(DecodeEntries(vis, view, pos, len));
      for i := 0 to len
        invariant Valid() && start <= pos
        invariant Prepend(v, DecodeEntries(vis, view, pos, len - i)) == DecodeEntries(vis, view, start, len)
      {
        var key :- ParseValue(vis);
        var value :- ParseValue(vis);
        PrependTwice(v, [(key, value)], DecodeEntries(vis, view, pos, len - i - 1));
        v := v + [(key, value)];
      }
      assert v == v + [];
      r := Visit(vis, MapEv(v));
    }

    /** Indefinite-length strings, arrays and maps are not supported. */
    method ParseIndefinite() returns (r: Result<Value>)
      ensures r == Err(StreamingNotSupported)
    {
      r := Err(StreamingNotSupported);
    }

    /** Parses one data item: reads the initial byte and dispatches on its
        range. The branches for each major type are in the method that follows. */
    method ParseValue(vis: Visitor) returns (r: Result<Value>)
      requires Valid()
      modifies this
      ensures Valid()
      ensures Agrees(Decode(vis, view, old(pos)), r, pos)
      decreases |view| - pos, 0
    {
      var byte :- ParseU8();
      if byte <= 0x1F {
        r := ParseUnsigned(byte, vis);
      } else if byte <= 0x3F {
        r := ParseNegative(byte, vis);
      } else if byte <= 0x5F {
        r := ParseByteString(byte, vis);
      } else if byte <= 0x7F {
        r := ParseTextString(byte, vis);
      } else if byte <= 0x9F {
        r := ParseArrayHead(byte, vis);
      } else if byte <= 0xBF {
        r := ParseMapHead(byte, vis);
      } else if byte <= 0xDB { // major type 6: tags
        r := Err(TagsNotSupported);
      } else if byte <= 0xDF {
        r := Err(UnassignedCode(byte));
      } else {
        r := ParseSimple(byte, vis);
      }
    }

    /** Major type 0: unsigned integer. */
    method ParseUnsigned(byte: byte, vis: Visitor) returns (r: Result<Value>)
      requires Valid() && byte <= 0x1F
      modifies this
      ensures Valid()
      ensures Agrees(DecodeInitial(vis, view, old(pos), byte), r, pos)
    {
      Pow256Values();
      assert byte / 32 == 0 && byte % 32 == byte - 0x00;
      if byte <= 0x17 {
        r := Visit(vis, UnsignedEv(W8, byte));
      } else if byte == 0x18 {
        var value :- ParseU8();
        r := Visit(vis, UnsignedEv(W8, value));
      } else if byte == 0x19 {
        var value :- ParseU16();
        r := Visit(vis, UnsignedEv(W16, value));
      } else if byte == 0x1A {
        var value :- ParseU32();
        r := Visit(vis, UnsignedEv(W32, value));
      } else if byte == 0x1B {
        var value :- ParseU64();
        r := Visit(vis, UnsignedEv(W64, value));
      } else {
        r := Err(UnassignedCode(byte));
      }
    }

    /** Major type 1: negative integer -1 - n, computed one width wider than n. */
    method ParseNegative(byte: byte, vis: Visitor) returns (r: Result<Value>)
      requires Valid() && 0x20 <= byte <= 0x3F
      modifies this
      ensures Valid()
      ensures Agrees(DecodeInitial(vis, view, old(pos), byte), r, pos)
    {
      assert byte / 32 == 1 && byte % 32 == byte - 0x20;
      if byte <= 0x37 {
        r := Visit(vis, SignedEv(W8, -1 - (byte - 0x20)));
      } else if byte <= 0x3B {
        r := ParseNegativeArgument(byte, vis);
      } else {
        r := Err(UnassignedCode(byte));
      }
    }

    /** Major type 1 with a 1, 2, 4 or 8 byte argument. */
    method ParseNegativeArgument(byte: byte, vis: Visitor) returns (r: Result<Value>)
      requires Valid() && 0x38 <= byte <= 0x3B
      modifies this
      ensures Valid()
      ensures Agrees(DecodeInitial(vis, view, old(pos), byte), r, pos)
    {
      Pow256Values();
      assert byte / 32 == 1 && byte % 32 == byte - 0x20;
      if byte == 0x38 {
        var value :- ParseU8();
        r := Visit(vis, SignedEv(W16, -1 - value as int));
      } else if byte == 0x39 {
        var value :- ParseU16();
        r := Visit(vis, SignedEv(W32, -1 - value as int));
      } else if byte == 0x3A {
        var value :- ParseU32();
        r := Visit(vis, SignedEv(W64, -1 - value as int));
      } else {
        var value :- ParseU64();
        if value > I64_MAX {
          r := Err(NegativeOverflow);
        } else {
          r := Visit(vis, SignedEv(W64, -1 - value as int));
        }
      }
    }

    /** Major type 2: byte string. */
    method ParseByteString(byte: byte, vis: Visitor) returns (r: Result<Value>)
      requires Valid() && 0x40 <= byte <= 0x5F
      modifies this
      ensures Valid()
      ensures Agrees(DecodeInitial(vis, view, old(pos), byte), r, pos)
    {
      Pow256Values();
      assert byte / 32 == 2 && byte % 32 == byte - 0x40;
      if byte <= 0x57 {
        r := ParseBytes(byte - 0x40, vis);
      } else if byte == 0x58 {
        var len :- ParseU8();
        r := ParseBytes(len, vis);
      } else if byte == 0x59 {
        var len :- ParseU16();
        r := ParseBytes(len, vis);
      } else if byte == 0x5A {
        var len :- ParseU32();
        r := ParseBytes(len, vis);
      } else if byte == 0x5B {
        var len :- ParseU64();
        if len >= U32_MAX {
          r := Err(LengthOutOfRange);
        } else {
          r := ParseBytes(len, vis);
        }
      } else if byte <= 0x5E {
        r := Err(UnassignedCode(byte));
      } else {
        r := ParseIndefinite();
      }
    }

    /** Major type 3: text string. */
    method ParseTextString(byte: byte, vis: Visitor) returns (r: Result<Value>)
      requires Valid() && 0x60 <= byte <= 0x7F
      modifies this
      ensures Valid()
      ensures Agrees(DecodeInitial(vis, view, old(pos), byte), r, pos)
    {
      Pow256Values();
      assert byte / 32 == 3 && byte % 32 == byte - 0x60;
      if byte <= 0x77 {
        r := ParseString(byte - 0x60, vis);
      } else if byte == 0x78 {
        var len :- ParseU8();
        r := ParseString(len, vis);
      } else if byte == 0x79 {
        var len :- ParseU16();
        r := ParseString(len, vis);
      } else if byte == 0x7A {
        var len :- ParseU32();
        r := ParseString(len, vis);
      } else if byte == 0x7B {
        var len :- ParseU64();
        if len >= U32_MAX {
          r := Err(LengthOutOfRange);
        } else {
          r := ParseString(len, vis);
        }
      } else if byte <= 0x7E {
        r := Err(UnassignedCode(byte));
      } else {
        r := ParseIndefinite();
      }
    }

    /** Major type 4: array. */
    method ParseArrayHead(byte: byte, vis: Visitor) returns (r: Result<Value>)
      requires Valid() && 0x80 <= byte <= 0x9F
      modifies this
      ensures Valid()
      ensures Agrees(DecodeInitial(vis, view, old(pos), byte), r, pos)
      decreases |view| - pos, 2
    {
      Pow256Values();
      assert byte / 32 == 4 && byte % 32 == byte - 0x80;
      if byte <= 0x97 {
        r := ParseArray(byte - 0x80, vis);
      } else if byte == 0x98 {
        var len :- ParseU8();
        r := ParseArray(len, vis);
      } else if byte == 0x99 {
        var len :- ParseU16();
        r := ParseArray(len, vis);
      } else if byte == 0x9A {
        var len :- ParseU32();
        r := ParseArray(len, vis);
      } else if byte == 0x9B {
        var len :- ParseU64();
        if len >= U32_MAX {
          r := Err(LengthOutOfRange);
        } else {
          r := ParseArray(len, vis);
        }
      } else if byte <= 0x9E {
        r := Err(UnassignedCode(byte));
      } else {
        r := ParseIndefinite();
      }
    }

    /** Major type 5: map. */
    method ParseMapHead(byte: byte, vis: Visitor) returns (r: Result<Value>)
      requires Valid() && 0xA0 <= byte <= 0xBF
      modifies this
      ensures Valid()
      ensures Agrees(DecodeInitial(vis, view, old(pos), byte), r, pos)
      decreases |view| - pos, 2
    {
      Pow256Values();
      assert byte / 32 == 5 && byte % 32 == byte - 0xA0;
      if byte <= 0xB7 {
        r := ParseMap(byte - 0xA0, vis);
      } else if byte == 0xB8 {
        var len :- ParseU8();
        r := ParseMap(len, vis);
      } else if byte == 0xB9 {
        var len :- ParseU16();
        r := ParseMap(len, vis);
      } else if byte == 0xBA {
        var len :- ParseU32();
        r := ParseMap(len, vis);
      } else if byte == 0xBB {
        var len :- ParseU64();
        if len >= U32_MAX {
          r := Err(LengthOutOfRange);
        } else {
          r := ParseMap(len, vis);
        }
      } else if byte <= 0xBE {
        r := Err(UnassignedCode(byte));
      } else {
        r := ParseIndefinite();
      }
    }

    /** Major type 7: simple values and floats; single and double floats are
        kept as their raw bits, a half float is 0.0 and its two bytes are left unread. */
    method ParseSimple(byte: byte, vis: Visitor) returns (r: Result<Value>)
      requires Valid() && 0xE0 <= byte
      modifies this
      ensures Valid()
      ensures Agrees(DecodeInitial(vis, view, old(pos), byte), r, pos)
    {
      Pow256Values();
      assert byte / 32 == 7 && byte % 32 == byte - 0xE0;
      assert DecodeInitial(vis, view, pos, byte) == DecodeSimple(vis, view, pos, byte - 0xE0);
      if byte <= 0xF3 {
        r := Err(UnassignedCode(byte));
      } else if byte == 0xF4 {
        r := Visit(vis, BoolEv(false));
      } else if byte == 0xF5 {
        r := Visit(vis, BoolEv(true));
      } else if byte == 0xF6 { // null
        r := Visit(vis, NullEv);
      } else if byte == 0xF7 { // undefined
        r := Visit(vis, NullEv);
      } else if byte == 0xF8 {
        r := Err(UnassignedCode(byte));
      } else if byte == 0xF9 { // the half-precision reader is a stub: it reads nothing and yields 0.0
        r := Visit(vis, FloatEv(W16, 0));
      } else if byte == 0xFA {
        var bits :- ParseU32();
        r := Visit(vis, FloatEv(W32, bits));
      } else if byte == 0xFB {
        var bits :- ParseU64();
        r := Visit(vis, FloatEv(W64, bits));
      } else if byte <= 0xFE {
        r := Err(UnassignedCode(byte));
      } else {
        // every initial byte is handled by some branch: the final
        // "unreachable" throw is dead and only the break byte is left
        assert byte == 0xFF;
        r := Err(UnexpectedCode);
      }
    }
  }
}
