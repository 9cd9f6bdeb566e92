/** The CBOR grammar of RFC 7049 as the decoder implements it, written as a
    pure function of the buffer and a position: `Decode` reads one data item
    and returns the value the visitor built and the position just past it. */
module Grammar {
  import opened Base
  import opened Values

  /** Reads `k` bytes at `pos` as a big-endian unsigned number and returns it
      with the position after it; fails at the end of the buffer. */
  function ReadUint(bytes: seq<byte>, pos: nat, k: nat): (r: Result<(nat, nat)>)
    requires pos <= |bytes|
    ensures r.Ok? <==> pos + k <= |bytes|
    ensures r.Err? ==> r.error == EndOfInput
    ensures r.Ok? ==> r.value.1 == pos + k && r.value.0 < Pow256(k)
  {
    if pos + k <= |bytes| then
      Ok((BigEndian(bytes[pos..pos + k]), pos + k))
    else Err(EndOfInput)
  }

  /** Number of argument bytes that follow an initial byte with additional information `info`. */
  function ArgumentSize(info: nat): nat
  {
    if info < 24 then 0 else if info == 24 then 1 else if info == 25 then 2 else if info == 26 then 4 else 8
  }

  /** Width of the unsigned visitor event for additional information `info`. */
  function UnsignedWidth(info: nat): Width
  {
    if info <= 24 then W8 else if info == 25 then W16 else if info == 26 then W32 else W64
  }

  /** Width of the signed visitor event: one step wider than the magnitude, so that -1 - n fits. */
  function SignedWidth(info: nat): Width
  {
    if info < 24 then W8 else if info == 24 then W16 else if info == 25 then W32 else W64
  }

  /** The argument of an initial byte: the additional information itself
      below 24, otherwise the 1, 2, 4 or 8 big-endian bytes that follow. */
  function ReadArgument(bytes: seq<byte>, pos: nat, info: nat): (r: Result<(nat, nat)>)
    requires pos <= |bytes| && info < 28
    ensures r.Ok? <==> pos + ArgumentSize(info) <= |bytes|
    ensures r.Err? ==> r.error == EndOfInput
    ensures r.Ok? ==> r.value.1 == pos + ArgumentSize(info) && r.value.0 <= UMax(UnsignedWidth(info))
    ensures r.Ok? && info < 24 ==> r.value.0 == info
    ensures r.Ok? && info >= 24 ==> r.value.0 < Pow256(ArgumentSize(info))
  {
    Pow256Values();
    if info < 24 then Ok((info, pos)) else ReadUint(bytes, pos, ArgumentSize(info))
  }

  /** The value of a negative integer with magnitude `n`: -1 - n, which must not fall below i64 min. */
  function NegativeOf(n: nat): (r: Result<i64>)
    ensures r.Ok? <==> n <= I64_MAX
    ensures r.Err? ==> r.error == NegativeOverflow
    ensures r.Ok? ==> r.value < 0 && -(r.value + 1) == n
  {
    if n <= I64_MAX then Ok(-1 - n) else Err(NegativeOverflow)
  }

  /** The `len` bytes at `pos`, failing when the buffer ends first. */
  function Payload(bytes: seq<byte>, pos: nat, len: nat): (r: Result<seq<byte>>)
    requires pos <= |bytes|
    ensures r.Ok? <==> pos + len <= |bytes|
    ensures r.Err? ==> r.error == EndOfInput
    ensures r.Ok? ==> |r.value| == len && bytes[..pos] + r.value + bytes[pos + len..] == bytes
  {
    if pos + len <= |bytes| then
      assert bytes[..pos] + bytes[pos..pos + len] + bytes[pos + len..] == bytes;
      Ok(bytes[pos..pos + len])
    else Err(EndOfInput)
  }

  /** A byte or text string of declared length `len` whose payload starts at `pos`. */
  function DecodeString(vis: Visitor, bytes: seq<byte>, pos: nat, len: nat, text: bool): (r: Result<(Value, nat)>)
    requires pos <= |bytes|
    ensures r.Ok? ==> r.value.1 == pos + len <= |bytes|
    ensures len > I32_MAX ==> r == Err(LengthOutOfRange)
  {
    if len > I32_MAX then Err(LengthOutOfRange)
    else
      var s :- Payload(bytes, pos, len);
      var v :- Visit(vis, if text then StringEv(s) else BytesEv(s));
      Ok((v, pos + len))
  }

  /** The major type of the data item a value is read from and written as:
      a negative integer has major type 1, any other integer 0, and null,
      booleans and floats 7. */
  function MajorType(v: Value): nat
  {
    match v
    case U64(_) => 0
    case I64(i) => if i < 0 then 1 else 0
    case Bytes(_) => 2
    case Str(_) => 3
    case Arr(_) => 4
    case Map(_) => 5
    case _ => 7
  }

  /** Keeps the items decoded so far in front of the result of decoding the rest. */
  function Prepend<T>(done: seq<T>, rest: Result<(seq<T>, nat)>): Result<(seq<T>, nat)>
  {
    match rest
    case Ok((xs, q)) => Ok((done + xs, q))
    case Err(e) => Err(e)
  }

  lemma PrependNothing<T>(rest: Result<(seq<T>, nat)>)
    ensures Prepend([], rest) == rest
  {
    if rest.Ok? {
      assert [] + rest.value.0 == rest.value.0;
    }
  }

  lemma PrependTwice<T>(a: seq<T>, b: seq<T>, rest: Result<(seq<T>, nat)>)
    ensures Prepend(a, Prepend(b, rest)) == Prepend(a + b, rest)
  {
    if rest.Ok? {
      assert a + (b + rest.value.0) == a + b + rest.value.0;
    }
  }

  /** One data item at `pos`: reads the initial byte and dispatches on it. */
  function Decode(vis: Visitor, bytes: seq<byte>, pos: nat): (r: Result<(Value, nat)>)
    requires pos <= |bytes|
    ensures r.Ok? ==> pos < r.value.1 <= |bytes|
    ensures r.Ok? ==> vis.Building? && MajorType(r.value.0) == bytes[pos] / 32
    decreases |bytes| - pos, 0, 0
  {
    if pos == |bytes| then Err(EndOfInput)
    else DecodeInitial(vis, bytes, pos + 1, bytes[pos])
  }

  /** The rest of a data item whose initial byte `ib` has been read and whose
      argument, payload or items start at `pos`: the 256-way dispatch on the
      major type (top three bits) and additional information (low five bits). */
  function DecodeInitial(vis: Visitor, bytes: seq<byte>, pos: nat, ib: byte): (r: Result<(Value, nat)>)
    requires pos <= |bytes|
    ensures r.Ok? ==> pos <= r.value.1 <= |bytes|
    ensures r.Ok? ==> vis.Building? && ib / 32 != 6 && ib % 32 < 28 && MajorType(r.value.0) == ib / 32
    decreases |bytes| - pos, 4, 0
  {
    var major, info := ib / 32, ib % 32;
    if major == 6 then
      if info < 28 then Err(TagsNotSupported) else Err(UnassignedCode(ib))
    else if major == 7 then
      DecodeSimple(vis, bytes, pos, info)
    else if 28 <= info <= 30 || (info == 31 && major <= 1) then
      Err(UnassignedCode(ib))
    else if info == 31 then
      Err(StreamingNotSupported)
    else
      var a :- ReadArgument(bytes, pos, info);
      DecodeWithArgument(vis, bytes, major, info, a.0, a.1)
  }

  /** A data item of major type 0 to 5 once its argument `arg` has been read
      and `pos` is just past it: the integer itself, or the length of the
      string, array or map that follows. */
  function DecodeWithArgument(vis: Visitor, bytes: seq<byte>, major: nat, info: nat, arg: nat, pos: nat): (r: Result<(Value, nat)>)
    requires pos <= |bytes| && major < 6 && info < 28
    requires arg <= UMax(UnsignedWidth(info)) && (info < 24 ==> arg == info)
    ensures r.Ok? ==> pos <= r.value.1 <= |bytes|
    ensures r.Ok? ==> vis.Building? && MajorType(r.value.0) == major
    ensures r.Ok? && major < 2 ==> r.value.1 == pos
    decreases |bytes| - pos, 3, 0
  {
    if major == 0 then
      var v :- Visit(vis, UnsignedEv(UnsignedWidth(info), arg));
      Ok((v, pos))
    else if major == 1 then
      var i :- NegativeOf(arg);
      var v :- Visit(vis, SignedEv(SignedWidth(info), i));
      Ok((v, pos))
    else if major == 2 || major == 3 then
      DecodeString(vis, bytes, pos, arg, major == 3)
    else if major == 4 then
      DecodeArray(vis, bytes, pos, arg)
    else
      DecodeMap(vis, bytes, pos, arg)
  }

  /** Once the argument of an initial byte of major type 0 to 5 has been
      read, the item is decoded from that argument. */
  lemma InitialWithArgument(vis: Visitor, bytes: seq<byte>, pos: nat, ib: byte, arg: nat, q: nat)
    requires pos <= |bytes| && ib / 32 < 6 && ib % 32 < 28
    requires ReadArgument(bytes, pos, ib % 32) == Ok((arg, q))
    ensures q <= |bytes| && arg <= UMax(UnsignedWidth(ib % 32)) && (ib % 32 < 24 ==> arg == ib % 32)
    ensures DecodeInitial(vis, bytes, pos, ib) == DecodeWithArgument(vis, bytes, ib / 32, ib % 32, arg, q)
  {
  }

  /** Major type 7 after its initial byte: booleans, null and undefined, the
      three float widths (kept as raw bits), and the rejected simple values
      and break byte. */
  function DecodeSimple(vis: Visitor, bytes: seq<byte>, pos: nat, info: nat): (r: Result<(Value, nat)>)
    requires pos <= |bytes| && info < 32
    ensures r.Ok? <==>
              vis.Building? &&
              (20 <= info <= 23 || info == 25 || ((info == 26 || info == 27) && pos + ArgumentSize(info) <= |bytes|))
    ensures r.Ok? ==> MajorType(r.value.0) == 7
    ensures r.Ok? ==> r.value.1 == pos + (if info < 26 then 0 else ArgumentSize(info))
  {
    if info < 20 || info == 24 || 28 <= info <= 30 then Err(UnassignedCode(0xE0 + info))
    else if info == 31 then Err(UnexpectedCode)
    else if info == 20 || info == 21 then
      var v :- Visit(vis, BoolEv(info == 21));
      Ok((v, pos))
    else if info == 22 || info == 23 then
      var v :- Visit(vis, NullEv);
      Ok((v, pos))
    else if info == 25 then
      var v :- Visit(vis, FloatEv(W16, 0));
      Ok((v, pos))
    else
      var width := if info == 26 then W32 else W64;
      var f :- ReadUint(bytes, pos, ArgumentSize(info));
      var v :- Visit(vis, FloatEv(width, f.0));
      Ok((v, f.1))
  }

  /** An array of declared length `len` whose items start at `pos`. */
  function DecodeArray(vis: Visitor, bytes: seq<byte>, pos: nat, len: nat): (r: Result<(Value, nat)>)
    requires pos <= |bytes|
    ensures r.Ok? ==> pos <= r.value.1 <= |bytes|
    ensures len > I32_MAX ==> r == Err(LengthOutOfRange)
    decreases |bytes| - pos, 2, 0
  {
    if len > I32_MAX then Err(LengthOutOfRange)
    else
      var items :- DecodeItems(vis, bytes, pos, len);
      var v :- Visit(vis, ArrayEv(items.0));
      Ok((v, items.1))
  }

  /** `n` consecutive data items, in order. */
  function DecodeItems(vis: Visitor, bytes: seq<byte>, pos: nat, n: nat): (r: Result<(seq<Value>, nat)>)
    requires pos <= |bytes|
    ensures r.Ok? ==> |r.value.0| == n && pos <= r.value.1 <= |bytes|
    decreases |bytes| - pos, 1, n
  {
    if n == 0 then Ok(([], pos))
    else
      var first :- Decode(vis, bytes, pos);
      Prepend([first.0], DecodeItems(vis, bytes, first.1, n - 1))
  }

  /** An item that decodes to `x` followed by items that decode to `rest`
      decode together to `[x] + rest`. */
  lemma ItemsCons(vis: Visitor, bytes: seq<byte>, pos: nat, x: Value, q: nat, rest: seq<Value>, end: nat)
    requires pos <= |bytes| && Decode(vis, bytes, pos) == Ok((x, q))
    requires q <= |bytes| && DecodeItems(vis, bytes, q, |rest|) == Ok((rest, end))
    ensures DecodeItems(vis, bytes, pos, |rest| + 1) == Ok(([x] + rest, end))
  {
  }

  /** A map of declared length `len` whose pairs start at `pos`. */
  function DecodeMap(vis: Visitor, bytes: seq<byte>, pos: nat, len: nat): (r: Result<(Value, nat)>)
    requires pos <= |bytes|
    ensures r.Ok? ==> pos <= r.value.1 <= |bytes|
    ensures len > I32_MAX ==> r == Err(LengthOutOfRange)
    decreases |bytes| - pos, 2, 0
  {
    if len > I32_MAX then Err(LengthOutOfRange)
    else
      var entries :- DecodeEntries(vis, bytes, pos, len);
      var v :- Visit(vis, MapEv(entries.0));
      Ok((v, entries.1))
  }

  /** `n` consecutive key/value pairs, each key immediately followed by its
      value; keys are not checked for uniqueness. */
  function DecodeEntries(vis: Visitor, bytes: seq<byte>, pos: nat, n: nat): (r: Result<(seq<(Value, Value)>, nat)>)
    requires pos <= |bytes|
    ensures r.Ok? ==> |r.value.0| == n && pos <= r.value.1 <= |bytes|
    decreases |bytes| - pos, 1, n
  {
    if n == 0 then Ok(([], pos))
    else
      var key :- Decode(vis, bytes, pos);
      var value :- Decode(vis, bytes, key.1);
      Prepend([(key.0, value.0)], DecodeEntries(vis, bytes, value.1, n - 1))
  }

  /** The key/value pairs of a flat list of items taken two at a time. */
  function Pairs(xs: seq<Value>): (r: seq<(Value, Value)>)
    requires |xs| % 2 == 0
    ensures |r| == |xs| / 2
  {
    if xs == [] then [] else [(xs[0], xs[1])] + Pairs(xs[2..])
  }

  /** Decoding `n` pairs reads the same data items as decoding `2 n` items,
      paired up in order. */
  lemma {:induction false} EntriesAsItems(vis: Visitor, bytes: seq<byte>, pos: nat, n: nat, xs: seq<Value>, q: nat)
    requires pos <= |bytes| && DecodeItems(vis, bytes, pos, 2 * n) == Ok((xs, q))
    ensures |xs| == 2 * n
    ensures DecodeEntries(vis, bytes, pos, n) == Ok((Pairs(xs), q))
    decreases n
  {
    if n > 0 {
      var key := Decode(vis, bytes, pos).value;
      var tail := DecodeItems(vis, bytes, key.1, 2 * n - 1);
      assert DecodeItems(vis, bytes, pos, 2 * n) == Prepend([key.0], tail);
      var value := Decode(vis, bytes, key.1).value;
      var rest := DecodeItems(vis, bytes, value.1, 2 * n - 2);
      assert tail == Prepend([value.0], rest);
      assert xs == [key.0] + ([value.0] + rest.value.0);
      assert rest.value.0 == xs[2..];
      EntriesAsItems(vis, bytes, value.1, n - 1, xs[2..], q);
    }
  }
}
