/** Two places where the decoder as written does not do what CBOR and its own
    surrounding code evidently intend, each modelled as written next to the
    behaviour the rest of this model uses (`Grammar.Payload` and
    `Grammar.NegativeOf`). */
module AsWritten {
  import opened Base
  import opened Grammar

  /** `ArrayBuffer.slice(begin, end)`: both ends clamped to the buffer, and
      empty when the end does not lie past the beginning. */
  function Slice(bytes: seq<byte>, begin: nat, end: nat): (r: seq<byte>)
    ensures |r| == if end <= begin || begin >= |bytes| then 0
                   else (if end < |bytes| then end else |bytes|) - begin
  {
    var b := if begin < |bytes| then begin else |bytes|;
    var e := if end < |bytes| then end else |bytes|;
    if e <= b then [] else bytes[b..e]
  }

  /** The payload as `parseBytes` and `parseString` read it: the slice from
      the current position to `len + 1` (an end index, not a length), with
      the position then moved on by `len` whether or not the buffer held
      that many bytes. */
  function PayloadAsWritten(bytes: seq<byte>, pos: nat, len: nat): (r: (seq<byte>, nat))
    ensures r.1 == pos + len
    ensures |r.0| <= len + 1
  {
    (Slice(bytes, pos, len + 1), pos + len)
  }

  /** A payload always follows its head, so it starts at 1 or later. Read as
      written, a non-empty payload comes out right only when it starts at 1,
      that is, for a string that is the whole top-level item with a
      one-byte head; everywhere else the bytes read are not the payload. */
  lemma PayloadRightOnlyAtOne(bytes: seq<byte>, pos: nat, len: nat)
    requires 1 <= pos && pos + len <= |bytes|
    ensures PayloadAsWritten(bytes, pos, len).0 == bytes[pos..pos + len] <==> pos == 1 || len == 0
  {
    var got := PayloadAsWritten(bytes, pos, len).0;
    if pos != 1 && len != 0 {
      assert |got| != len;
    } else if pos == 1 {
      assert got == bytes[1..len + 1];
    }
  }

  /** The array [h'07', h'08']: its first payload is read as empty. */
  lemma PayloadInsideArray()
    ensures PayloadAsWritten([0x82, 0x41, 0x07, 0x41, 0x08], 2, 1).0 == []
    ensures Payload([0x82, 0x41, 0x07, 0x41, 0x08], 2, 1) == Ok([0x07])
  {
    assert [0x82, 0x41, 0x07, 0x41, 0x08][2..3] == [0x07];
  }

  /** h'01020304' cut short after one payload byte is read without an error
      and leaves the position past the end of the buffer. */
  lemma TruncatedPayload()
    ensures PayloadAsWritten([0x44, 0x01], 1, 4) == ([0x01], 5)
    ensures Payload([0x44, 0x01], 1, 4) == Err(EndOfInput)
  {
    assert [0x44, 0x01][1..2] == [0x01];
  }

  /** Initial byte 0x3B as written: the eight-byte argument is passed to
      `visitI64` unchanged, without the `-1 - n` of the other negative
      cases, and only below i32 max. */
  function NegativeU64AsWritten(n: nat): (r: Result<int>)
    ensures r.Ok? <==> n < I32_MAX
    ensures r.Ok? ==> r.value >= 0
  {
    if n < I32_MAX then Ok(n) else Err(LengthOutOfRange)
  }

  /** For every magnitude the intended decoding accepts, the decoding as
      written disagrees with it: it yields a number that is not negative, or
      fails. */
  lemma NegativeU64NeverRight(n: nat)
    requires n <= I64_MAX
    ensures NegativeOf(n).Ok?
    ensures NegativeU64AsWritten(n).Ok? ==> NegativeU64AsWritten(n).value != NegativeOf(n).value
    ensures n >= I32_MAX ==> NegativeU64AsWritten(n).Err?
  {
  }

  /** 0x3B followed by eight zero bytes encodes -1; as written it decodes
      to 0. */
  lemma NegativeU64Zero()
    ensures NegativeU64AsWritten(0) == Ok(0)
    ensures NegativeOf(0) == Ok(-1)
  {
  }
}
