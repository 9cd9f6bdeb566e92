/** The encoder: an append-only byte buffer with one write method per kind of
    item, each integer write choosing the shortest head for its argument. */
module Encoding {
  import opened Base

  /** The initial byte of major type `major` with additional information `info`. */
  function InitialByte(major: nat, info: nat): (r: byte)
    requires major < 8 && info < 32
    ensures r / 32 == major && r % 32 == info
  {
    major * 32 + info
  }

  /** The canonical head of major type `major` with argument `v`: the argument
      inline below 24, otherwise in the fewest of 1, 2, 4 or 8 big-endian bytes
      that hold it (section 3.9 of RFC 7049). */
  function Head(major: nat, v: u64): (r: seq<byte>)
    requires major < 8
    ensures |r| >= 1 && r[0] / 32 == major
  {
    Pow256Values();
    if v <= 23 then [InitialByte(major, v)]
    else if v <= U8_MAX then [InitialByte(major, 24), v]
    else if v <= U16_MAX then [InitialByte(major, 25)] + ToBigEndian(v, 2)
    else if v <= U32_MAX then [InitialByte(major, 26)] + ToBigEndian(v, 4)
    else [InitialByte(major, 27)] + ToBigEndian(v, 8)
  }

  /** The head of a signed integer: major type 1 with magnitude -(v + 1) when
      v is negative, major type 0 with v itself otherwise. */
  function IntHead(v: i64): (r: seq<byte>)
    ensures |r| >= 1 && r[0] / 32 == (if v < 0 then 1 else 0)
  {
    if v < 0 then Head(1, -(v + 1)) else Head(0, v)
  }

  /** Minimal width: the head is 1, 2, 3, 5 or 9 bytes long according to the
      range of the argument, whatever the major type. */
  lemma HeadLength(major: nat, v: u64)
    requires major < 8
    ensures |Head(major, v)| == 1 <==> v <= 23
    ensures |Head(major, v)| == 2 <==> 23 < v <= U8_MAX
    ensures |Head(major, v)| == 3 <==> U8_MAX < v <= U16_MAX
    ensures |Head(major, v)| == 5 <==> U16_MAX < v <= U32_MAX
    ensures |Head(major, v)| == 9 <==> U32_MAX < v
  {
  }

  /** The argument sizes a head may use, and whether `v` fits one of them. */
  predicate Fits(v: nat, size: nat)
  {
    (size == 0 && v < 24) || (size in {1, 2, 4, 8} && v < Pow256(size))
  }

  /** No head of the format is shorter: whenever `v` fits an argument of
      `size` bytes, the canonical head spends at most `size` argument bytes. */
  lemma HeadMinimal(major: nat, v: u64, size: nat)
    requires major < 8 && Fits(v, size)
    ensures |Head(major, v)| <= 1 + size
  {
    Pow256Values();
  }

  /** Writes `src` into `buf` from index `offset` on (Uint8Array.set). */
  method SetBytes(buf: array<byte>, offset: nat, src: seq<byte>)
    requires offset + |src| <= buf.Length
    modifies buf
    ensures buf[..] == old(buf[..offset]) + src + old(buf[offset + |src|..])
  {
    for i := 0 to |src|
      invariant buf[..offset] == old(buf[..offset])
      invariant buf[offset..offset + i] == src[..i]
      invariant buf[offset + |src|..] == old(buf[offset + |src|..])
    {
      buf[offset + i] := src[i];
      assert buf[offset..offset + i + 1] == buf[offset..offset + i] + [src[i]];
    }
    assert buf[..] == buf[..offset] + buf[offset..offset + |src|] + buf[offset + |src|..];
  }

  /** Writes `v` as `k` big-endian bytes at `offset` (DataView.setUint16,
      setUint32, setUint64). */
  method SetUint(buf: array<byte>, offset: nat, v: nat, k: nat)
    requires offset + k <= buf.Length && v < Pow256(k)
    modifies buf
    ensures buf[..] == old(buf[..offset]) + ToBigEndian(v, k) + old(buf[offset + k..])
  {
    var bytes := ToBigEndian(v, k);
    forall i | offset <= i < offset + k {
      buf[i] := bytes[i - offset];
    }
    assert buf[..] == buf[..offset] + buf[offset..offset + k] + buf[offset + k..];
  }

  class Encoder {
    /** The bytes written so far; the `buffer` getter returns this field. */
    var buffer: seq<byte>

    constructor ()
      ensures buffer == []
    {
      buffer := [];
    }

    /** Replaces the buffer by a new one holding the old bytes followed by `other`. */
    method Concat(other: seq<byte>)
      modifies this
      ensures buffer == old(buffer) + other
    {
      var tmp := new byte[|buffer| + |other|];
      SetBytes(tmp, 0, buffer);
      SetBytes(tmp, |buffer|, other);
      buffer := tmp[..];
    }

    /** `m << 5` is computed in u8, so only the low three bits of `m` reach
        the initial byte. */
    method WriteU8(m: byte, v: byte)
      modifies this
      ensures buffer == old(buffer) + Head(m % 8, v)
    {
      if v <= 0x17 {
        Concat([InitialByte(m % 8, v)]);
      } else {
        Concat([InitialByte(m % 8, 24), v]);
      }
    }

    method WriteU16(m: byte, v: u16)
      modifies this
      ensures buffer == old(buffer) + Head(m % 8, v)
    {
      if v <= U8_MAX {
        WriteU8(m, v);
      } else {
        Pow256Values();
        var buf := new byte[3];
        buf[0] := InitialByte(m % 8, 25);
        SetUint(buf, 1, v, 2);
        Concat(buf[..]);
      }
    }

    method WriteU32(m: byte, v: u32)
      modifies this
      ensures buffer == old(buffer) + Head(m % 8, v)
    {
      if v <= U16_MAX {
        WriteU16(m, v);
      } else {
        Pow256Values();
        var buf := new byte[5];
        buf[0] := InitialByte(m % 8, 26);
        SetUint(buf, 1, v, 4);
        Concat(buf[..]);
      }
    }

    method WriteU64(m: byte, v: u64)
      modifies this
      ensures buffer == old(buffer) + Head(m % 8, v)
    {
      if v <= U32_MAX {
        WriteU32(m, v);
      } else {
        Pow256Values();
        var buf := new byte[9];
        buf[0] := InitialByte(m % 8, 27);
        SetUint(buf, 1, v, 8);
        Concat(buf[..]);
      }
    }

    method WriteI8(v: i8)
      modifies this
      ensures buffer == old(buffer) + IntHead(v)
    {
      if v < 0 {
        WriteU8(1, -(v + 1));
      } else {
        WriteU8(0, v);
      }
    }

    method WriteI16(v: i16)
      modifies this
      ensures buffer == old(buffer) + IntHead(v)
    {
      if v < 0 {
        WriteU16(1, -(v + 1));
      } else {
        WriteU16(0, v);
      }
    }

    method WriteI32(v: i32)
      modifies this
      ensures buffer == old(buffer) + IntHead(v)
    {
      if v < 0 {
        WriteU32(1, -(v + 1));
      } else {
        WriteU32(0, v);
      }
    }

    method WriteI64(v: i64)
      modifies this
      ensures buffer == old(buffer) + IntHead(v)
    {
      if v < 0 {
        WriteU64(1, -(v + 1));
      } else {
        WriteU64(0, v);
      }
    }

    method WriteBool(v: bool)
      modifies this
      ensures buffer == old(buffer) + [if v then 0xF5 else 0xF4]
    {
      if v {
        Concat([0xF5]);
      } else {
        Concat([0xF4]);
      }
    }

    method WriteNull()
      modifies this
      ensures buffer == old(buffer) + [0xF6]
    {
      Concat([0xF6]);
    }

    /** Appends the UTF-8 bytes of a string, without a length head. */
    method WriteString(utf8: seq<byte>)
      modifies this
      ensures buffer == old(buffer) + utf8
    {
      Concat(utf8);
    }

    /** Appends the bytes themselves, without a length head. */
    method WriteBytes(v: seq<byte>)
      modifies this
      ensures buffer == old(buffer) + v
    {
      Concat(v);
    }
  }
}
