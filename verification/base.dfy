/** Shared vocabulary of the CBOR codec: bytes, integer ranges, results and
    the big-endian layout that DataView reads and writes. */
module Base {

  /** One byte of a CBOR buffer. */
  type byte = b: int | 0 <= b < 256

  const U8_MAX: int := 0xFF
  const U16_MAX: int := 0xFFFF
  const U32_MAX: int := 0xFFFF_FFFF
  const U64_MAX: int := 0xFFFF_FFFF_FFFF_FFFF
  const I32_MAX: int := 0x7FFF_FFFF
  const I64_MAX: int := 0x7FFF_FFFF_FFFF_FFFF
  const I64_MIN: int := -0x8000_0000_0000_0000

  /** AssemblyScript's fixed-width integer types. */
  type u16 = n: int | 0 <= n <= U16_MAX
  type u32 = n: int | 0 <= n <= U32_MAX
  type u64 = n: int | 0 <= n <= U64_MAX
  type i8 = i: int | -0x80 <= i <= 0x7F
  type i16 = i: int | -0x8000 <= i <= 0x7FFF
  type i32 = i: int | -0x8000_0000 <= i <= I32_MAX
  type i64 = i: int | I64_MIN <= i <= I64_MAX

  datatype Option<+T> = None | Some(value: T)

  /** The exceptions the decoder throws, one per distinct cause. */
  datatype Error =
    | EndOfInput                 // a DataView read past the end of the buffer
    | UnassignedCode(code: byte) // a reserved or unassigned initial byte
    | TagsNotSupported           // major type 6
    | StreamingNotSupported      // indefinite-length strings, arrays and maps
    | UnexpectedCode             // the break byte 0xFF outside a stream
    | LengthOutOfRange           // a declared length above i32 max
    | NegativeOverflow           // a major type 1 magnitude whose value is below i64 min
    | Unexpected(visit: VisitMethod) // a Visitor that does not accept the event

  /** The Visitor method that was handed an event it does not accept; its
      exception message names the event ("unexpected U8" ... "unexpected Map"). */
  datatype VisitMethod =
    | VisitU8 | VisitU16 | VisitU32 | VisitU64
    | VisitI8 | VisitI16 | VisitI32 | VisitI64
    | VisitF32 | VisitF64 | VisitBool | VisitNull
    | VisitBytes | VisitString | VisitArray | VisitMap

  datatype Result<+T> = Ok(value: T) | Err(error: Error) {
    predicate IsFailure() { Err? }

    function PropagateFailure<U>(): Result<U>
      requires Err?
    {
      Err(error)
    }

    function Extract(): T
      requires Ok?
    {
      value
    }
  }

  function Pow256(k: nat): (r: nat)
    ensures r >= 1
  {
    if k == 0 then 1 else 256 * Pow256(k - 1)
  }

  lemma Pow256Values()
    ensures Pow256(1) == 0x100 && Pow256(2) == 0x1_0000
    ensures Pow256(4) == 0x1_0000_0000 && Pow256(8) == 0x1_0000_0000_0000_0000
  {
  }

  /** The unsigned number whose big-endian bytes are `s` (DataView.getUintN). */
  function BigEndian(s: seq<byte>): (r: nat)
    ensures r < Pow256(|s|)
  {
    if s == [] then 0 else BigEndian(s[..|s| - 1]) * 256 + s[|s| - 1]
  }

  /** The `k` big-endian bytes of `v` (DataView.setUintN); reading them back gives `v`. */
  function ToBigEndian(v: nat, k: nat): (r: seq<byte>)
    requires v < Pow256(k)
    ensures |r| == k && BigEndian(r) == v
  {
    if k == 0 then []
    else
      var r := ToBigEndian(v / 256, k - 1) + [v % 256];
      assert r[..k - 1] == ToBigEndian(v / 256, k - 1);
      r
  }

  /** Big-endian layout is one-to-one: a window of bytes is the encoding of the number read from it. */
  lemma {:induction false} BigEndianInjective(s: seq<byte>)
    ensures ToBigEndian(BigEndian(s), |s|) == s
  {
    if s != [] {
      var k := |s|;
      var init := s[..k - 1];
      BigEndianInjective(init);
      var v := BigEndian(s);
      assert v / 256 == BigEndian(init) && v % 256 == s[k - 1];
      assert s == init + [s[k - 1]];
    }
  }
}
