/** What one call of the decoder does for each kind of initial byte, stated
    against the bytes themselves: the value it yields, where it stops, and
    which inputs it refuses. The examples of Appendix A of RFC 7049 that the
    decoder's unit tests use are checked as concrete instances. */
module DecodeProperties {
  import opened Base
  import opened Values
  import opened Grammar

  /** Where the argument of the initial byte at `pos` ends: just past the
      initial byte, plus the 1, 2, 4 or 8 bytes of an explicit argument. */
  function ArgumentEnd(bytes: seq<byte>, pos: nat): nat
    requires pos < |bytes|
  {
    pos + 1 + ArgumentSize(bytes[pos] % 32)
  }

  /** The argument of the initial byte at `pos`, read straight off the bytes:
      the low five bits below 24, else the big-endian number that follows. */
  function Argument(bytes: seq<byte>, pos: nat): (n: nat)
    requires pos < |bytes| && bytes[pos] % 32 < 28 && ArgumentEnd(bytes, pos) <= |bytes|
    ensures n <= U64_MAX
  {
    Pow256Values();
    var info := bytes[pos] % 32;
    if info < 24 then info else BigEndian(bytes[pos + 1..ArgumentEnd(bytes, pos)])
  }

  /** Decoding an initial byte of major type 0 to 5 reads its argument first
      and goes on from just past it. */
  lemma WithArgument(vis: Visitor, bytes: seq<byte>, pos: nat)
    requires pos < |bytes| && bytes[pos] / 32 < 6 && bytes[pos] % 32 < 28
    ensures ArgumentEnd(bytes, pos) > |bytes| ==> Decode(vis, bytes, pos) == Err(EndOfInput)
    ensures ArgumentEnd(bytes, pos) <= |bytes| ==>
      var info := bytes[pos] % 32;
      Argument(bytes, pos) <= UMax(UnsignedWidth(info)) &&
      Decode(vis, bytes, pos) ==
        DecodeWithArgument(vis, bytes, bytes[pos] / 32, info, Argument(bytes, pos), ArgumentEnd(bytes, pos))
  {
    var info := bytes[pos] % 32;
    var a := ReadArgument(bytes, pos + 1, info);
    if a.Ok? {
      InitialWithArgument(vis, bytes, pos + 1, bytes[pos], a.value.0, a.value.1);
    }
  }

  /** Major type 0: the argument itself, as U64, ending where the argument
      ends; a truncated argument fails. */
  lemma UnsignedItem(bytes: seq<byte>, pos: nat)
    requires pos < |bytes| && bytes[pos] / 32 == 0 && bytes[pos] % 32 < 28
    ensures Decode(Building, bytes, pos) ==
      if ArgumentEnd(bytes, pos) > |bytes| then Err(EndOfInput)
      else Ok((U64(Argument(bytes, pos)), ArgumentEnd(bytes, pos)))
  {
    WithArgument(Building, bytes, pos);
  }

  /** Major type 1: -1 - n for the argument n, as I64; a magnitude beyond
      i64 max fails instead of wrapping. */
  lemma NegativeItem(bytes: seq<byte>, pos: nat)
    requires pos < |bytes| && bytes[pos] / 32 == 1 && bytes[pos] % 32 < 28
    ensures Decode(Building, bytes, pos) ==
      if ArgumentEnd(bytes, pos) > |bytes| then Err(EndOfInput)
      else if Argument(bytes, pos) > I64_MAX then Err(NegativeOverflow)
      else Ok((I64(-1 - Argument(bytes, pos)), ArgumentEnd(bytes, pos)))
  {
    WithArgument(Building, bytes, pos);
  }

  /** A string payload of declared length `len` starting at `start`: exactly
      the next `len` bytes, unless the length is out of range or the buffer
      ends first. */
  lemma StringPayload(bytes: seq<byte>, start: nat, len: nat, text: bool)
    requires start <= |bytes|
    ensures DecodeString(Building, bytes, start, len, text) ==
      if len > I32_MAX then Err(LengthOutOfRange)
      else if start + len > |bytes| then Err(EndOfInput)
      else
        var payload := bytes[start..start + len];
        Ok((if text then Str(payload) else Bytes(payload), start + len))
  {
    if len <= I32_MAX && start + len <= |bytes| {
      assert Payload(bytes, start, len) == Ok(bytes[start..start + len]);
    }
  }

  /** Major type 2: the payload is exactly the `len` bytes after the head,
      and decoding stops right after them; a declared length above i32 max or
      a payload cut short fails. */
  lemma ByteStringItem(bytes: seq<byte>, pos: nat)
    requires pos < |bytes| && bytes[pos] / 32 == 2 && bytes[pos] % 32 < 28
    ensures Decode(Building, bytes, pos) ==
      var start := ArgumentEnd(bytes, pos);
      if start > |bytes| then Err(EndOfInput)
      else
        var len := Argument(bytes, pos);
        if len > I32_MAX then Err(LengthOutOfRange)
        else if start + len > |bytes| then Err(EndOfInput)
        else Ok((Bytes(bytes[start..start + len]), start + len))
  {
    WithArgument(Building, bytes, pos);
    var start := ArgumentEnd(bytes, pos);
    if start <= |bytes| {
      var len := Argument(bytes, pos);
      assert Decode(Building, bytes, pos) == DecodeString(Building, bytes, start, len, false);
      StringPayload(bytes, start, len, false);
    }
  }

  /** Major type 3: the same for text strings, whose UTF-8 payload is kept
      as it is. */
  lemma TextStringItem(bytes: seq<byte>, pos: nat)
    requires pos < |bytes| && bytes[pos] / 32 == 3 && bytes[pos] % 32 < 28
    ensures Decode(Building, bytes, pos) ==
      var start := ArgumentEnd(bytes, pos);
      if start > |bytes| then Err(EndOfInput)
      else
        var len := Argument(bytes, pos);
        if len > I32_MAX then Err(LengthOutOfRange)
        else if start + len > |bytes| then Err(EndOfInput)
        else Ok((Str(bytes[start..start + len]), start + len))
  {
    WithArgument(Building, bytes, pos);
    var start := ArgumentEnd(bytes, pos);
    if start <= |bytes| {
      var len := Argument(bytes, pos);
      assert Decode(Building, bytes, pos) == DecodeString(Building, bytes, start, len, true);
      StringPayload(bytes, start, len, true);
    }
  }

  /** Major type 4: an array of declared length `len` is the next `len` items. */
  lemma ArrayItem(bytes: seq<byte>, pos: nat)
    requires pos < |bytes| && bytes[pos] / 32 == 4 && bytes[pos] % 32 < 28
    ensures Decode(Building, bytes, pos) ==
      var start := ArgumentEnd(bytes, pos);
      if start > |bytes| then Err(EndOfInput)
      else if Argument(bytes, pos) > I32_MAX then Err(LengthOutOfRange)
      else
        match DecodeItems(Building, bytes, start, Argument(bytes, pos))
        case Ok((xs, q)) => Ok((Arr(xs), q))
        case Err(e) => Err(e)
  {
    WithArgument(Building, bytes, pos);
  }

  /** Major type 5: a map of declared length `len` is the next `len` pairs. */
  lemma MapItem(bytes: seq<byte>, pos: nat)
    requires pos < |bytes| && bytes[pos] / 32 == 5 && bytes[pos] % 32 < 28
    ensures Decode(Building, bytes, pos) ==
      var start := ArgumentEnd(bytes, pos);
      if start > |bytes| then Err(EndOfInput)
      else if Argument(bytes, pos) > I32_MAX then Err(LengthOutOfRange)
      else
        match DecodeEntries(Building, bytes, start, Argument(bytes, pos))
        case Ok((es, q)) => Ok((Map(es), q))
        case Err(e) => Err(e)
  {
    WithArgument(Building, bytes, pos);
  }

  /** `n` items are read in order: the first item from `pos`, the others from
      where it ends, and there are exactly `n` of them. */
  lemma ItemsInOrder(vis: Visitor, bytes: seq<byte>, pos: nat, n: nat, xs: seq<Value>, q: nat)
    requires pos <= |bytes| && n > 0 && DecodeItems(vis, bytes, pos, n) == Ok((xs, q))
    ensures |xs| == n
    ensures var first := Decode(vis, bytes, pos);
      first.Ok? && first.value.0 == xs[0] &&
      DecodeItems(vis, bytes, first.value.1, n - 1) == Ok((xs[1..], q))
  {
    var first := Decode(vis, bytes, pos);
    assert first.Ok?;
    var rest := DecodeItems(vis, bytes, first.value.1, n - 1);
    assert DecodeItems(vis, bytes, pos, n) == Prepend([first.value.0], rest);
    assert xs == [first.value.0] + rest.value.0;
  }

  /** `n` pairs are read in order, each key immediately followed by its value. */
  lemma EntriesInOrder(vis: Visitor, bytes: seq<byte>, pos: nat, n: nat, es: seq<(Value, Value)>, q: nat)
    requires pos <= |bytes| && n > 0 && DecodeEntries(vis, bytes, pos, n) == Ok((es, q))
    ensures |es| == n
    ensures var key := Decode(vis, bytes, pos);
      key.Ok? && key.value.0 == es[0].0 &&
      var value := Decode(vis, bytes, key.value.1);
      value.Ok? && value.value.0 == es[0].1 &&
      DecodeEntries(vis, bytes, value.value.1, n - 1) == Ok((es[1..], q))
  {
    var key := Decode(vis, bytes, pos);
    assert key.Ok?;
    var value := Decode(vis, bytes, key.value.1);
    assert value.Ok?;
    var rest := DecodeEntries(vis, bytes, value.value.1, n - 1);
    assert DecodeEntries(vis, bytes, pos, n) == Prepend([(key.value.0, value.value.0)], rest);
    assert es == [(key.value.0, value.value.0)] + rest.value.0;
  }

  /** F4 and F5 are false and true; F6 (null) and F7 (undefined) are both Null. */
  lemma SimpleItem(bytes: seq<byte>, pos: nat)
    requires pos < |bytes| && 0xF4 <= bytes[pos] <= 0xF7
    ensures Decode(Building, bytes, pos) ==
      Ok((if bytes[pos] <= 0xF5 then Bool(bytes[pos] == 0xF5) else Null, pos + 1))
  {
    assert DecodeInitial(Building, bytes, pos + 1, bytes[pos]) == DecodeSimple(Building, bytes, pos + 1, bytes[pos] - 0xE0);
  }

  /** FA and FB are followed by 4 and 8 bytes of float bits, kept unread as
      a number. */
  lemma FloatItem(bytes: seq<byte>, pos: nat)
    requires pos < |bytes| && 0xFA <= bytes[pos] <= 0xFB
    ensures var k := if bytes[pos] == 0xFA then 4 else 8;
      Decode(Building, bytes, pos) ==
        if pos + 1 + k > |bytes| then Err(EndOfInput)
        else Ok((Float(if k == 4 then W32 else W64, BigEndian(bytes[pos + 1..pos + 1 + k])), pos + 1 + k))
  {
    var info := bytes[pos] - 0xE0;
    assert ArgumentSize(info) == if bytes[pos] == 0xFA then 4 else 8;
    assert DecodeInitial(Building, bytes, pos + 1, bytes[pos]) == DecodeSimple(Building, bytes, pos + 1, info);
  }

  /** F9 gives a half float of value zero whatever follows, and the two
      bytes of the half float are not consumed: the next item is read from
      them. */
  lemma HalfFloatItem(bytes: seq<byte>, pos: nat)
    requires pos < |bytes| && bytes[pos] == 0xF9
    ensures Decode(Building, bytes, pos) == Ok((Float(W16, 0), pos + 1))
  {
    assert DecodeInitial(Building, bytes, pos + 1, 0xF9) == DecodeSimple(Building, bytes, pos + 1, 25);
  }

  /** The initial bytes the decoder refuses as reserved or unassigned. */
  predicate Reserved(ib: byte)
  {
    (0x1C <= ib <= 0x1F) || (0x3C <= ib <= 0x3F) || (0x5C <= ib <= 0x5E) ||
    (0x7C <= ib <= 0x7E) || (0x9C <= ib <= 0x9E) || (0xBC <= ib <= 0xBE) ||
    (0xDC <= ib <= 0xDF) || (0xE0 <= ib <= 0xF3) || ib == 0xF8 || (0xFC <= ib <= 0xFE)
  }

  /** Reserved codes, tags, indefinite lengths and the break byte fail, for
      any visitor, before anything after the initial byte is read. */
  lemma RejectedItem(vis: Visitor, bytes: seq<byte>, pos: nat)
    requires pos < |bytes|
    ensures var ib := bytes[pos];
      (Reserved(ib) ==> Decode(vis, bytes, pos) == Err(UnassignedCode(ib))) &&
      (0xC0 <= ib <= 0xDB ==> Decode(vis, bytes, pos) == Err(TagsNotSupported)) &&
      (ib in {0x5F, 0x7F, 0x9F, 0xBF} ==> Decode(vis, bytes, pos) == Err(StreamingNotSupported)) &&
      (ib == 0xFF ==> Decode(vis, bytes, pos) == Err(UnexpectedCode))
  {
    var ib := bytes[pos];
    if ib >= 0xE0 {
      assert DecodeInitial(vis, bytes, pos + 1, ib) == DecodeSimple(vis, bytes, pos + 1, ib - 0xE0);
    }
  }

  /** Nothing is left to read at the end of the buffer. */
  lemma EmptyInput(vis: Visitor, bytes: seq<byte>)
    ensures Decode(vis, bytes, |bytes|) == Err(EndOfInput)
  {
  }

  /** Once the argument is read, the base Visitor fails on whatever follows. */
  lemma RejectingWithArgument(bytes: seq<byte>, major: nat, info: nat, arg: nat, pos: nat)
    requires pos <= |bytes| && major < 6 && info < 28
    requires arg <= UMax(UnsignedWidth(info)) && (info < 24 ==> arg == info)
    ensures DecodeWithArgument(Rejecting, bytes, major, info, arg, pos).Err?
  {
    if major == 2 || major == 3 {
      assert DecodeWithArgument(Rejecting, bytes, major, info, arg, pos) == DecodeString(Rejecting, bytes, pos, arg, major == 3);
    } else if major == 4 {
      assert DecodeWithArgument(Rejecting, bytes, major, info, arg, pos) == DecodeArray(Rejecting, bytes, pos, arg);
    } else if major == 5 {
      assert DecodeWithArgument(Rejecting, bytes, major, info, arg, pos) == DecodeMap(Rejecting, bytes, pos, arg);
    }
  }

  /** The base Visitor accepts no event, so decoding with it always fails. */
  lemma RejectingFails(bytes: seq<byte>, pos: nat)
    requires pos <= |bytes|
    ensures Decode(Rejecting, bytes, pos).Err?
  {
    if pos < |bytes| {
      var ib := bytes[pos];
      if ib / 32 < 6 && ib % 32 < 28 {
        WithArgument(Rejecting, bytes, pos);
        if ArgumentEnd(bytes, pos) <= |bytes| {
          RejectingWithArgument(bytes, ib / 32, ib % 32, Argument(bytes, pos), ArgumentEnd(bytes, pos));
        }
      } else if ib / 32 == 7 {
        assert DecodeInitial(Rejecting, bytes, pos + 1, ib) == DecodeSimple(Rejecting, bytes, pos + 1, ib - 0xE0);
      }
    }
  }

  /** A two-byte argument is the big-endian number of the two bytes after
      the initial byte. */
  lemma TwoByteArgument(bytes: seq<byte>, pos: nat)
    requires pos + 3 <= |bytes| && bytes[pos] % 32 == 25
    ensures Argument(bytes, pos) == bytes[pos + 1] as int * 256 + bytes[pos + 2]
  {
    var s := bytes[pos + 1..pos + 3];
    assert Argument(bytes, pos) == BigEndian(s);
    assert BigEndian(s) == BigEndian(s[..1]) * 256 + s[1];
    assert BigEndian(s[..1]) == BigEndian(s[..1][..0]) * 256 + s[0];
  }

  /** 1000 from Appendix A of RFC 7049: a two-byte argument. */
  lemma UnsignedExample()
    ensures Decode(Building, [0x19, 0x03, 0xE8], 0) == Ok((U64(1000), 3))
  {
    var a: seq<byte> := [0x19, 0x03, 0xE8];
    UnsignedItem(a, 0);
    TwoByteArgument(a, 0);
  }

  /** 2^64 - 1 from Appendix A of RFC 7049: the largest eight-byte argument. */
  lemma LargestUnsignedExample()
    ensures Decode(Building, [0x1B, 0xFF, 0xFF, 0xFF, 0xFF, 0xFF, 0xFF, 0xFF, 0xFF], 0) == Ok((U64(U64_MAX), 9))
  {
    var b: seq<byte> := [0x1B, 0xFF, 0xFF, 0xFF, 0xFF, 0xFF, 0xFF, 0xFF, 0xFF];
    UnsignedItem(b, 0);
    assert ArgumentEnd(b, 0) == 9;
    assert b[1..9] == [0xFF, 0xFF, 0xFF, 0xFF, 0xFF, 0xFF, 0xFF, 0xFF];
    AllOnes();
    assert Argument(b, 0) == U64_MAX;
  }

  /** Eight 0xFF bytes read big-endian are u64 max. */
  lemma AllOnes()
    ensures BigEndian([0xFF, 0xFF, 0xFF, 0xFF, 0xFF, 0xFF, 0xFF, 0xFF]) == U64_MAX
  {
    assert BigEndian([0xFF]) == 0xFF by {
      assert [0xFF][..0] == [];
    }
    assert [0xFF, 0xFF][..1] == [0xFF];
    assert BigEndian([0xFF, 0xFF]) == 0xFFFF;
    assert [0xFF, 0xFF, 0xFF][..2] == [0xFF, 0xFF];
    assert BigEndian([0xFF, 0xFF, 0xFF]) == 0xFFFFFF;
    assert [0xFF, 0xFF, 0xFF, 0xFF][..3] == [0xFF, 0xFF, 0xFF];
    assert BigEndian([0xFF, 0xFF, 0xFF, 0xFF]) == 0xFFFFFFFF;
    assert [0xFF, 0xFF, 0xFF, 0xFF, 0xFF][..4] == [0xFF, 0xFF, 0xFF, 0xFF];
    assert BigEndian([0xFF, 0xFF, 0xFF, 0xFF, 0xFF]) == 0xFFFFFFFFFF;
    assert [0xFF, 0xFF, 0xFF, 0xFF, 0xFF, 0xFF][..5] == [0xFF, 0xFF, 0xFF, 0xFF, 0xFF];
    assert BigEndian([0xFF, 0xFF, 0xFF, 0xFF, 0xFF, 0xFF]) == 0xFFFFFFFFFFFF;
    assert [0xFF, 0xFF, 0xFF, 0xFF, 0xFF, 0xFF, 0xFF][..6] == [0xFF, 0xFF, 0xFF, 0xFF, 0xFF, 0xFF];
    assert BigEndian([0xFF, 0xFF, 0xFF, 0xFF, 0xFF, 0xFF, 0xFF]) == 0xFFFFFFFFFFFFFF;
    assert [0xFF, 0xFF, 0xFF, 0xFF, 0xFF, 0xFF, 0xFF, 0xFF][..7] == [0xFF, 0xFF, 0xFF, 0xFF, 0xFF, 0xFF, 0xFF];
    assert BigEndian([0xFF, 0xFF, 0xFF, 0xFF, 0xFF, 0xFF, 0xFF, 0xFF]) == 0xFFFFFFFFFFFFFFFF;
  }

  /** -1 and -1000 from Appendix A of RFC 7049. */
  lemma NegativeExamples()
    ensures Decode(Building, [0x20], 0) == Ok((I64(-1), 1))
    ensures Decode(Building, [0x39, 0x03, 0xE7], 0) == Ok((I64(-1000), 3))
  {
    NegativeItem([0x20], 0);
    var a: seq<byte> := [0x39, 0x03, 0xE7];
    NegativeItem(a, 0);
    TwoByteArgument(a, 0);
  }

  /** h'01020304' and h'' from Appendix A of RFC 7049. */
  lemma ByteStringExamples()
    ensures Decode(Building, [0x44, 0x01, 0x02, 0x03, 0x04], 0) == Ok((Bytes([1, 2, 3, 4]), 5))
    ensures Decode(Building, [0x40], 0) == Ok((Bytes([]), 1))
  {
    var a: seq<byte> := [0x44, 0x01, 0x02, 0x03, 0x04];
    ByteStringItem(a, 0);
    assert a[1..5] == [1, 2, 3, 4];
    ByteStringItem([0x40], 0);
  }

  /** Negative numbers have no unsigned view. */
  lemma NegativeHasNoUnsignedView()
    ensures AsU64(I64(-1)) == None && AsU64(I64(-1000)) == None
    ensures AsI64(I64(-1000)) == Some(-1000)
  {
  }

  /** A key and a value followed by `rest` pairs decode together as
      `[(key, value)] + rest`. */
  lemma EntriesCons(bytes: seq<byte>, pos: nat, key: Value, q1: nat, value: Value, q2: nat,
                    rest: seq<(Value, Value)>, end: nat)
    requires pos <= |bytes| && Decode(Building, bytes, pos) == Ok((key, q1))
    requires q1 <= |bytes| && Decode(Building, bytes, q1) == Ok((value, q2))
    requires q2 <= |bytes| && DecodeEntries(Building, bytes, q2, |rest|) == Ok((rest, end))
    ensures DecodeEntries(Building, bytes, pos, |rest| + 1) == Ok(([(key, value)] + rest, end))
  {
  }

  /** Map keys are not checked for uniqueness: both pairs with key 1 are kept,
      in order. */
  lemma DuplicateKeysKept()
    ensures Decode(Building, [0xA2, 0x01, 0x02, 0x01, 0x03], 0) ==
      Ok((Map([(U64(1), U64(2)), (U64(1), U64(3))]), 5))
  {
    var bytes: seq<byte> := [0xA2, 0x01, 0x02, 0x01, 0x03];
    UnsignedItem(bytes, 1);
    UnsignedItem(bytes, 2);
    UnsignedItem(bytes, 3);
    UnsignedItem(bytes, 4);
    EntriesCons(bytes, 3, U64(1), 4, U64(3), 5, [], 5);
    assert [(U64(1), U64(3))] + [] == [(U64(1), U64(3))];
    EntriesCons(bytes, 1, U64(1), 2, U64(2), 3, [(U64(1), U64(3))], 5);
    assert [(U64(1), U64(2))] + [(U64(1), U64(3))] == [(U64(1), U64(2)), (U64(1), U64(3))];
    MapItem(bytes, 0);
    assert ArgumentEnd(bytes, 0) == 1 && Argument(bytes, 0) == 2;
  }
}
