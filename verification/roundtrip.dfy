/** What the encoder writes, the decoder reads back: a canonical head gives
    back its argument, integers and strings come back as the values they were
    written from, and a whole tree of values laid out with those writes
    decodes to a tree == to it (to itself when it already holds I64 only for
    negative numbers). Each statement holds wherever the written bytes sit in
    a larger buffer. */
module RoundTrip {
  import opened Base
  import opened Values
  import opened Grammar
  import opened Encoding
  import opened Decoders

  /** `piece` sits in `bytes` from index `pos` on. */
  predicate At(bytes: seq<byte>, pos: nat, piece: seq<byte>)
  {
    pos + |piece| <= |bytes| && bytes[pos..pos + |piece|] == piece
  }

  /** A buffer sits in itself from index 0 on. */
  lemma WholeBuffer(bytes: seq<byte>)
    ensures At(bytes, 0, bytes)
  {
    assert bytes[0..|bytes|] == bytes;
  }

  /** Two pieces in a row sit one after the other. */
  lemma AtSplit(bytes: seq<byte>, pos: nat, a: seq<byte>, b: seq<byte>)
    requires At(bytes, pos, a + b)
    ensures At(bytes, pos, a) && At(bytes, pos + |a|, b)
  {
    assert bytes[pos..pos + |a|] == (a + b)[..|a|];
    assert bytes[pos + |a|..pos + |a| + |b|] == (a + b)[|a|..];
  }

  /** The additional information the canonical head of `v` carries. */
  function HeadInfo(v: u64): (info: nat)
    ensures info < 28
    ensures info < 24 <==> v < 24
    ensures info < 24 ==> info == v
  {
    if v <= 23 then v else if v <= U8_MAX then 24 else if v <= U16_MAX then 25 else if v <= U32_MAX then 26 else 27
  }

  /** A canonical head is its initial byte followed by the argument bytes the
      decoder expects for that initial byte, and those bytes read back as `v`. */
  lemma HeadShape(major: nat, v: u64)
    requires major < 8
    ensures Head(major, v)[0] == InitialByte(major, HeadInfo(v))
    ensures |Head(major, v)| == 1 + ArgumentSize(HeadInfo(v))
    ensures v <= UMax(UnsignedWidth(HeadInfo(v)))
    ensures HeadInfo(v) >= 24 ==> BigEndian(Head(major, v)[1..]) == v
  {
    Pow256Values();
    var h := Head(major, v);
    if v > U8_MAX {
      assert h[1..] == ToBigEndian(v, |h| - 1);
    } else if v > 23 {
      assert h[1..] == [v] && BigEndian([v]) == v;
    }
  }

  /** Reading the argument of a canonical head gives back `v` and stops
      exactly at the end of the head. */
  lemma ReadHead(major: nat, v: u64, bytes: seq<byte>, pos: nat)
    requires major < 6 && At(bytes, pos, Head(major, v))
    ensures var info := bytes[pos] % 32;
      bytes[pos] / 32 == major && info == HeadInfo(v) &&
      v <= UMax(UnsignedWidth(info)) && (info < 24 ==> v == info) &&
      ReadArgument(bytes, pos + 1, info) == Ok((v, pos + |Head(major, v)|))
  {
    var h := Head(major, v);
    HeadShape(major, v);
    assert h == [h[0]] + h[1..];
    AtSplit(bytes, pos, [h[0]], h[1..]);
    assert bytes[pos] == h[0];
  }

  /** Decoding at a canonical head of major type 0 to 5 goes on exactly as if
      its argument had been read from it. */
  lemma HeadDecodes(vis: Visitor, major: nat, v: u64, bytes: seq<byte>, pos: nat)
    requires major < 6 && At(bytes, pos, Head(major, v))
    ensures HeadInfo(v) < 28 && v <= UMax(UnsignedWidth(HeadInfo(v)))
    ensures pos + |Head(major, v)| <= |bytes|
    ensures Decode(vis, bytes, pos) == DecodeWithArgument(vis, bytes, major, HeadInfo(v), v, pos + |Head(major, v)|)
  {
    ReadHead(major, v, bytes, pos);
    InitialWithArgument(vis, bytes, pos + 1, bytes[pos], v, pos + |Head(major, v)|);
  }

  /** Decoding at `pos` with the value visitor gives `v` and stops at `q`. */
  predicate DecodesTo(bytes: seq<byte>, pos: nat, v: Value, q: nat)
  {
    pos <= |bytes| && Decode(Building, bytes, pos) == Ok((v, q))
  }

  /** Decoding `|xs|` items from `pos` on gives `xs` and stops at `q`. */
  predicate ItemsDecodeTo(bytes: seq<byte>, pos: nat, xs: seq<Value>, q: nat)
  {
    pos <= |bytes| && DecodeItems(Building, bytes, pos, |xs|) == Ok((xs, q))
  }

  /** Decoding `|es|` key/value pairs from `pos` on gives `es` and stops at `q`. */
  predicate EntriesDecodeTo(bytes: seq<byte>, pos: nat, es: seq<(Value, Value)>, q: nat)
  {
    pos <= |bytes| && DecodeEntries(Building, bytes, pos, |es|) == Ok((es, q))
  }

  /** An array head of length `|xs|` followed by items that decode to `xs`
      decodes to the array. */
  lemma ArrayHead(xs: seq<Value>, bytes: seq<byte>, pos: nat, q: nat)
    requires |xs| <= I32_MAX && At(bytes, pos, Head(4, |xs|))
    requires ItemsDecodeTo(bytes, pos + |Head(4, |xs|)|, xs, q)
    ensures DecodesTo(bytes, pos, Arr(xs), q)
  {
    HeadDecodes(Building, 4, |xs|, bytes, pos);
  }

  /** A map head of length `|es|` followed by pairs that decode to `es`
      decodes to the map. */
  lemma MapHead(es: seq<(Value, Value)>, bytes: seq<byte>, pos: nat, q: nat)
    requires |es| <= I32_MAX && At(bytes, pos, Head(5, |es|))
    requires EntriesDecodeTo(bytes, pos + |Head(5, |es|)|, es, q)
    ensures DecodesTo(bytes, pos, Map(es), q)
  {
    HeadDecodes(Building, 5, |es|, bytes, pos);
  }

  /** writeU64(0, v), read back: U64(v), consuming the head and nothing more. */
  lemma UnsignedRoundTrip(v: u64, bytes: seq<byte>, pos: nat)
    requires At(bytes, pos, Head(0, v))
    ensures DecodesTo(bytes, pos, U64(v), pos + |Head(0, v)|)
  {
    HeadDecodes(Building, 0, v, bytes, pos);
  }

  /** A negative number is written with major type 1 and read back as I64. */
  lemma NegativeRoundTrip(v: i64, bytes: seq<byte>, pos: nat)
    requires v < 0 && At(bytes, pos, Head(1, -(v + 1)))
    ensures DecodesTo(bytes, pos, I64(v), pos + |Head(1, -(v + 1))|)
  {
    HeadDecodes(Building, 1, -(v + 1), bytes, pos);
  }

  /** writeI64(v), read back: the number v, as I64 when negative and as U64
      otherwise, which the value equality identifies with I64(v). */
  lemma IntRoundTrip(v: i64, bytes: seq<byte>, pos: nat)
    requires At(bytes, pos, IntHead(v))
    ensures var w := if v < 0 then I64(v) else U64(v);
      DecodesTo(bytes, pos, w, pos + |IntHead(v)|) && ValueEq(w, I64(v))
  {
    if v < 0 {
      NegativeRoundTrip(v, bytes, pos);
    } else {
      UnsignedRoundTrip(v, bytes, pos);
    }
  }

  /** A length head of major type 2 or 3 followed by the payload (the caller
      writes the head with writeU64, then writeBytes or writeString) reads
      back as that byte or text string. */
  lemma StringRoundTrip(s: seq<byte>, text: bool, bytes: seq<byte>, pos: nat)
    requires |s| <= I32_MAX
    requires At(bytes, pos, Head(if text then 3 else 2, |s|) + s)
    ensures DecodesTo(bytes, pos, if text then Str(s) else Bytes(s),
                      pos + |Head(if text then 3 else 2, |s|)| + |s|)
  {
    var h := Head(if text then 3 else 2, |s|);
    AtSplit(bytes, pos, h, s);
    HeadDecodes(Building, if text then 3 else 2, |s|, bytes, pos);
  }

  /** The values the encoder's writes can lay out: any integer (writeU64 for
      U64, writeI64 for I64), and strings, arrays and maps no longer than the
      decoder accepts. Floats are not written by this model of the encoder. */
  predicate Writable(v: Value)
    decreases v
  {
    match v
    case Float(_, _) => false
    case Bytes(s) => |s| <= I32_MAX
    case Str(s) => |s| <= I32_MAX
    case Arr(xs) => |xs| <= I32_MAX && WritableItems(xs)
    case Map(es) => |es| <= I32_MAX && WritableEntries(es)
    case _ => true
  }

  predicate WritableItems(xs: seq<Value>)
    decreases xs
  {
    xs == [] || (Writable(xs[0]) && WritableItems(xs[1..]))
  }

  predicate WritableEntries(es: seq<(Value, Value)>)
    decreases es
  {
    es == [] ||
      (assert es[0].0 < es[0] && es[0].1 < es[0];
       Writable(es[0].0) && Writable(es[0].1) && WritableEntries(es[1..]))
  }

  /** The form the decoder produces: I64 only for negative numbers, since
      every other number is read as U64. */
  predicate Canonical(v: Value)
    decreases v
  {
    match v
    case I64(i) => i < 0
    case Arr(xs) => CanonicalItems(xs)
    case Map(es) => CanonicalEntries(es)
    case _ => true
  }

  predicate CanonicalItems(xs: seq<Value>)
    decreases xs
  {
    xs == [] || (Canonical(xs[0]) && CanonicalItems(xs[1..]))
  }

  predicate CanonicalEntries(es: seq<(Value, Value)>)
    decreases es
  {
    es == [] ||
      (assert es[0].0 < es[0] && es[0].1 < es[0];
       Canonical(es[0].0) && Canonical(es[0].1) && CanonicalEntries(es[1..]))
  }

  /** The values that read back as themselves: written by the encoder and
      already in the decoder's form. */
  predicate Encodable(v: Value)
  {
    Writable(v) && Canonical(v)
  }

  predicate EncodableItems(xs: seq<Value>)
  {
    WritableItems(xs) && CanonicalItems(xs)
  }

  predicate EncodableEntries(es: seq<(Value, Value)>)
  {
    WritableEntries(es) && CanonicalEntries(es)
  }

  /** The bytes of a value as the encoder's writes lay it out: writeNull,
      writeBool, writeU64(0, n), writeI64(i), a length head followed by
      writeBytes or writeString, and for arrays and maps a length head followed
      by the items, or each key followed by its value. */
  function Encode(v: Value): (r: seq<byte>)
    requires Writable(v)
    decreases v
  {
    match v
    case Null => [0xF6]
    case Bool(b) => [if b then 0xF5 else 0xF4]
    case U64(n) => Head(0, n)
    case I64(i) => IntHead(i)
    case Bytes(s) => Head(2, |s|) + s
    case Str(s) => Head(3, |s|) + s
    case Arr(xs) => Head(4, |xs|) + EncodeItems(xs)
    case Map(es) => Head(5, |es|) + EncodeEntries(es)
  }

  /** The first byte written for a value carries the major type the value
      is read back with. */
  lemma EncodedMajorType(v: Value)
    requires Writable(v)
    ensures |Encode(v)| >= 1 && Encode(v)[0] / 32 == MajorType(v)
  {
  }

  function EncodeItems(xs: seq<Value>): seq<byte>
    requires WritableItems(xs)
    decreases xs
  {
    if xs == [] then [] else Encode(xs[0]) + EncodeItems(xs[1..])
  }

  function EncodeEntries(es: seq<(Value, Value)>): seq<byte>
    requires WritableEntries(es)
    decreases es
  {
    if es == [] then []
    else
      assert es[0].0 < es[0] && es[0].1 < es[0];
      Encode(es[0].0) + Encode(es[0].1) + EncodeEntries(es[1..])
  }

  /** The number of nodes in a tree of values, counting each array item and
      each key and value; the measure the round-trip proofs recurse on. */
  function Size(v: Value): nat
    decreases v
  {
    match v
    case Arr(xs) => 1 + SizeItems(xs)
    case Map(es) => 1 + SizeEntries(es)
    case _ => 1
  }

  function SizeItems(xs: seq<Value>): nat
    decreases xs
  {
    if xs == [] then 0 else 1 + Size(xs[0]) + SizeItems(xs[1..])
  }

  function SizeEntries(es: seq<(Value, Value)>): nat
    decreases es
  {
    if es == [] then 0
    else
      assert es[0].0 < es[0] && es[0].1 < es[0];
      2 + Size(es[0].0) + Size(es[0].1) + SizeEntries(es[1..])
  }

  /** Every encodable value decodes to itself, consuming exactly its bytes,
      wherever it sits in the buffer; `q` is where its bytes end. */
  lemma {:induction false} EncodeDecode(v: Value, bytes: seq<byte>, pos: nat, q: nat)
    requires Encodable(v) && At(bytes, pos, Encode(v)) && q == pos + |Encode(v)|
    ensures DecodesTo(bytes, pos, v, q)
    decreases Size(v), 2
  {
    match v
    case Arr(xs) => ArrayRoundTrip(xs, bytes, pos, q);
    case Map(es) => MapRoundTrip(es, bytes, pos, q);
    case _ => ScalarRoundTrip(v, bytes, pos, q);
  }

  /** A value other than an array or map decodes to itself. */
  lemma ScalarRoundTrip(v: Value, bytes: seq<byte>, pos: nat, q: nat)
    requires !v.Arr? && !v.Map? && Encodable(v) && At(bytes, pos, Encode(v)) && q == pos + |Encode(v)|
    ensures DecodesTo(bytes, pos, v, q)
  {
    match v
    case Bytes(s) => StringRoundTrip(s, false, bytes, pos);
    case Str(s) => StringRoundTrip(s, true, bytes, pos);
    case _ => AtomRoundTrip(v, bytes, pos, q);
  }

  /** null, booleans and integers decode to themselves. */
  lemma AtomRoundTrip(v: Value, bytes: seq<byte>, pos: nat, q: nat)
    requires (v.Null? || v.Bool? || v.U64? || v.I64?) && Encodable(v) && At(bytes, pos, Encode(v))
    requires q == pos + |Encode(v)|
    ensures DecodesTo(bytes, pos, v, q)
  {
    if v.U64? || v.I64? {
      IntegerValueRoundTrip(v, bytes, pos, q);
    } else {
      SimpleRoundTrip(v, bytes, pos);
    }
  }

  /** An integer value decodes to itself. */
  lemma IntegerValueRoundTrip(v: Value, bytes: seq<byte>, pos: nat, q: nat)
    requires (v.U64? || v.I64?) && Encodable(v) && At(bytes, pos, Encode(v)) && q == pos + |Encode(v)|
    ensures DecodesTo(bytes, pos, v, q)
  {
    match v
    case U64(n) => UnsignedRoundTrip(n, bytes, pos);
    case I64(i) =>
      assert i < 0 && Encode(v) == Head(1, -(i + 1));
      NegativeRoundTrip(i, bytes, pos);
  }

  lemma {:induction false} ArrayRoundTrip(xs: seq<Value>, bytes: seq<byte>, pos: nat, q: nat)
    requires Encodable(Arr(xs)) && At(bytes, pos, Encode(Arr(xs))) && q == pos + |Encode(Arr(xs))|
    ensures DecodesTo(bytes, pos, Arr(xs), q)
    decreases Size(Arr(xs)), 1
  {
    var h := Head(4, |xs|);
    AtSplit(bytes, pos, h, EncodeItems(xs));
    EncodeDecodeItems(xs, bytes, pos + |h|, q);
    ArrayHead(xs, bytes, pos, q);
  }

  lemma {:induction false} MapRoundTrip(es: seq<(Value, Value)>, bytes: seq<byte>, pos: nat, q: nat)
    requires Encodable(Map(es)) && At(bytes, pos, Encode(Map(es))) && q == pos + |Encode(Map(es))|
    ensures DecodesTo(bytes, pos, Map(es), q)
    decreases Size(Map(es)), 1
  {
    var h := Head(5, |es|);
    AtSplit(bytes, pos, h, EncodeEntries(es));
    EncodeDecodeEntries(es, bytes, pos + |h|, q);
    MapHead(es, bytes, pos, q);
  }

  /** null, false and true read back as themselves from their one byte. */
  lemma SimpleRoundTrip(v: Value, bytes: seq<byte>, pos: nat)
    requires (v.Null? || v.Bool?) && At(bytes, pos, Encode(v))
    ensures DecodesTo(bytes, pos, v, pos + 1)
  {
    assert bytes[pos] == Encode(v)[0];
  }

  /** Items decoded one after the other: a first item, then the rest. */
  lemma ItemsThen(bytes: seq<byte>, pos: nat, x: Value, m: nat, rest: seq<Value>, q: nat)
    requires DecodesTo(bytes, pos, x, m) && ItemsDecodeTo(bytes, m, rest, q)
    ensures ItemsDecodeTo(bytes, pos, [x] + rest, q)
  {
    ItemsCons(Building, bytes, pos, x, m, rest, q);
  }

  /** The pairs of a map read as the flat list of its keys and values, paired up. */
  lemma EntriesFromFlat(bytes: seq<byte>, pos: nat, es: seq<(Value, Value)>, q: nat)
    requires ItemsDecodeTo(bytes, pos, Flat(es), q)
    ensures EntriesDecodeTo(bytes, pos, es, q)
  {
    EntriesAsItems(Building, bytes, pos, |es|, Flat(es), q);
    PairsOfFlat(es);
  }

  /** The pairs of a map decode one after the other, key then value, in
      order: they are read as the flat list of keys and values, then paired. */
  lemma {:induction false} EncodeDecodeEntries(es: seq<(Value, Value)>, bytes: seq<byte>, pos: nat, q: nat)
    requires EncodableEntries(es) && At(bytes, pos, EncodeEntries(es)) && q == pos + |EncodeEntries(es)|
    ensures EntriesDecodeTo(bytes, pos, es, q)
    decreases SizeEntries(es), 3
  {
    EntriesAsFlatItems(es);
    EncodeDecodeItems(Flat(es), bytes, pos, q);
    EntriesFromFlat(bytes, pos, es, q);
  }

  /** The items of an array decode one after the other, in order. */
  lemma {:induction false} EncodeDecodeItems(xs: seq<Value>, bytes: seq<byte>, pos: nat, q: nat)
    requires EncodableItems(xs) && At(bytes, pos, EncodeItems(xs)) && q == pos + |EncodeItems(xs)|
    ensures ItemsDecodeTo(bytes, pos, xs, q)
    decreases SizeItems(xs), 2
  {
    if xs != [] {
      ItemsSplit(xs);
      EncodeDecodeList(xs[0], xs[1..], bytes, pos, q);
      assert [xs[0]] + xs[1..] == xs;
    }
  }

  /** A first item and the items after it decode one after the other. */
  lemma {:induction false} EncodeDecodeList(x: Value, rest: seq<Value>, bytes: seq<byte>, pos: nat, q: nat)
    requires Encodable(x) && EncodableItems(rest)
    requires At(bytes, pos, Encode(x) + EncodeItems(rest)) && q == pos + |Encode(x) + EncodeItems(rest)|
    ensures ItemsDecodeTo(bytes, pos, [x] + rest, q)
    decreases Size(x) + SizeItems(rest) + 1, 1
  {
    var first := Encode(x);
    AtSplit(bytes, pos, first, EncodeItems(rest));
    EncodeDecodeAfter(x, rest, bytes, pos, pos + |first|, q);
  }

  /** The same, once the first item and the rest are each known to sit in
      place. */
  lemma {:induction false} EncodeDecodeAfter(x: Value, rest: seq<Value>, bytes: seq<byte>, pos: nat, m: nat, q: nat)
    requires Encodable(x) && At(bytes, pos, Encode(x)) && m == pos + |Encode(x)|
    requires EncodableItems(rest) && At(bytes, m, EncodeItems(rest)) && q == m + |EncodeItems(rest)|
    ensures ItemsDecodeTo(bytes, pos, [x] + rest, q)
    decreases Size(x) + SizeItems(rest) + 1, 0
  {
    EncodeDecode(x, bytes, pos, m);
    EncodeDecodeItems(rest, bytes, m, q);
    ItemsThen(bytes, pos, x, m, rest, q);
  }

  /** A non-empty list of items is its first item followed by the rest. */
  lemma ItemsSplit(xs: seq<Value>)
    requires xs != [] && EncodableItems(xs)
    ensures Encodable(xs[0]) && EncodableItems(xs[1..])
    ensures EncodeItems(xs) == Encode(xs[0]) + EncodeItems(xs[1..])
    ensures SizeItems(xs) == 1 + Size(xs[0]) + SizeItems(xs[1..])
  {
  }

  /** The keys and values of a map in the order the encoder lays them out:
      first key, first value, second key, and so on. */
  function Flat(es: seq<(Value, Value)>): (r: seq<Value>)
    ensures |r| == 2 * |es|
  {
    if es == [] then [] else [es[0].0, es[0].1] + Flat(es[1..])
  }

  /** Pairing up the flat list gives the map's entries back. */
  lemma {:induction false} PairsOfFlat(es: seq<(Value, Value)>)
    ensures Pairs(Flat(es)) == es
  {
    if es != [] {
      var f := Flat(es);
      assert f[2..] == Flat(es[1..]);
      PairsOfFlat(es[1..]);
      assert [(es[0].0, es[0].1)] + es[1..] == es;
    }
  }

  /** The entries of a map are laid out exactly as the array of its keys and
      values would be. */
  lemma {:induction false} EntriesAsFlatItems(es: seq<(Value, Value)>)
    requires EncodableEntries(es)
    ensures EncodableItems(Flat(es))
    ensures EncodeEntries(es) == EncodeItems(Flat(es))
    ensures SizeEntries(es) == SizeItems(Flat(es))
  {
    if es != [] {
      var f := Flat(es);
      assert es[0].0 < es[0] && es[0].1 < es[0];
      EntriesAsFlatItems(es[1..]);
      assert f[1..][1..] == Flat(es[1..]);
      assert EncodeItems(f) == Encode(es[0].0) + (Encode(es[0].1) + EncodeItems(Flat(es[1..])));
    }
  }

  /** decode(encode(v)) == v for every value the encoder can lay out. */
  lemma DecodeOfEncode(v: Value)
    requires Encodable(v)
    ensures Decode(Building, Encode(v), 0) == Ok((v, |Encode(v)|))
  {
    WholeBuffer(Encode(v));
    EncodeDecode(v, Encode(v), 0, |Encode(v)|);
  }

  /** The value a written tree reads back as: each I64 that is not negative
      becomes the U64 of the same number, and everything else is kept. */
  function Normal(v: Value): Value
    decreases v
  {
    match v
    case I64(i) => if i < 0 then v else U64(i)
    case Arr(xs) => Arr(NormalItems(xs))
    case Map(es) => Map(NormalEntries(es))
    case _ => v
  }

  function NormalItems(xs: seq<Value>): (r: seq<Value>)
    ensures |r| == |xs|
    decreases xs
  {
    if xs == [] then [] else [Normal(xs[0])] + NormalItems(xs[1..])
  }

  function NormalEntries(es: seq<(Value, Value)>): (r: seq<(Value, Value)>)
    ensures |r| == |es|
    decreases es
  {
    if es == [] then []
    else
      assert es[0].0 < es[0] && es[0].1 < es[0];
      [(Normal(es[0].0), Normal(es[0].1))] + NormalEntries(es[1..])
  }

  /** The normal form of a written value is laid out in the same bytes, is
      already in the decoder's form, and is == to the value. */
  lemma {:induction false} NormalForm(v: Value)
    requires Writable(v)
    ensures Encodable(Normal(v)) && Encode(Normal(v)) == Encode(v) && ValueEq(Normal(v), v)
    decreases v
  {
    match v
    case Arr(xs) => NormalFormItems(xs);
    case Map(es) => NormalFormEntries(es);
    case _ =>
  }

  lemma {:induction false} NormalFormItems(xs: seq<Value>)
    requires WritableItems(xs)
    ensures EncodableItems(NormalItems(xs)) && EncodeItems(NormalItems(xs)) == EncodeItems(xs)
    ensures forall k :: 0 <= k < |xs| ==> ValueEq(NormalItems(xs)[k], xs[k])
    decreases xs
  {
    if xs != [] {
      var n := NormalItems(xs);
      NormalForm(xs[0]);
      NormalFormItems(xs[1..]);
      assert n[1..] == NormalItems(xs[1..]);
      forall k | 0 < k < |xs|
        ensures ValueEq(n[k], xs[k])
      {
        assert n[k] == NormalItems(xs[1..])[k - 1] && xs[k] == xs[1..][k - 1];
      }
    }
  }

  lemma {:induction false} NormalFormEntries(es: seq<(Value, Value)>)
    requires WritableEntries(es)
    ensures EncodableEntries(NormalEntries(es)) && EncodeEntries(NormalEntries(es)) == EncodeEntries(es)
    ensures forall k :: 0 <= k < |es| ==>
              ValueEq(NormalEntries(es)[k].0, es[k].0) && ValueEq(NormalEntries(es)[k].1, es[k].1)
    decreases es
  {
    if es != [] {
      var n := NormalEntries(es);
      assert es[0].0 < es[0] && es[0].1 < es[0];
      NormalForm(es[0].0);
      NormalForm(es[0].1);
      NormalFormEntries(es[1..]);
      assert n[1..] == NormalEntries(es[1..]);
      forall k | 0 < k < |es|
        ensures ValueEq(n[k].0, es[k].0) && ValueEq(n[k].1, es[k].1)
      {
        assert n[k] == NormalEntries(es[1..])[k - 1] && es[k] == es[1..][k - 1];
      }
    }
  }

  /** A value already in the decoder's form is its own normal form. */
  lemma {:induction false} NormalOfCanonical(v: Value)
    requires Canonical(v)
    ensures Normal(v) == v
    decreases v
  {
    match v
    case Arr(xs) => NormalOfCanonicalItems(xs);
    case Map(es) => NormalOfCanonicalEntries(es);
    case _ =>
  }

  lemma {:induction false} NormalOfCanonicalItems(xs: seq<Value>)
    requires CanonicalItems(xs)
    ensures NormalItems(xs) == xs
    decreases xs
  {
    if xs != [] {
      NormalOfCanonical(xs[0]);
      NormalOfCanonicalItems(xs[1..]);
      assert [xs[0]] + xs[1..] == xs;
    }
  }

  lemma {:induction false} NormalOfCanonicalEntries(es: seq<(Value, Value)>)
    requires CanonicalEntries(es)
    ensures NormalEntries(es) == es
    decreases es
  {
    if es != [] {
      assert es[0].0 < es[0] && es[0].1 < es[0];
      NormalOfCanonical(es[0].0);
      NormalOfCanonical(es[0].1);
      NormalOfCanonicalEntries(es[1..]);
      assert [(es[0].0, es[0].1)] + es[1..] == es;
    }
  }

  /** Whatever tree the encoder writes, the decoder reads back its normal
      form, which is == to it, and consumes exactly the written bytes. */
  lemma WrittenRoundTrip(v: Value)
    requires Writable(v)
    ensures Decode(Building, Encode(v), 0) == Ok((Normal(v), |Encode(v)|))
    ensures ValueEq(Normal(v), v)
  {
    NormalForm(v);
    DecodeOfEncode(Normal(v));
  }

  /** An encoder and a decoder used together: writeU64(0, v) on a fresh
      encoder, then parseValue on its buffer, gives U64(v) back. */
  method UnsignedThroughCodec(v: u64) returns (r: Result<Value>)
    ensures r == Ok(U64(v))
  {
    var e := new Encoder();
    e.WriteU64(0, v);
    var d := new Decoder(e.buffer);
    r := d.ParseValue(Building);
    WholeBuffer(e.buffer);
    UnsignedRoundTrip(v, e.buffer, 0);
  }

  /** writeI64(v) then parseValue gives a value equal to I64(v). */
  method SignedThroughCodec(v: i64) returns (r: Result<Value>)
    ensures r.Ok? && ValueEq(r.value, I64(v))
  {
    var e := new Encoder();
    e.WriteI64(v);
    var d := new Decoder(e.buffer);
    r := d.ParseValue(Building);
    WholeBuffer(e.buffer);
    IntRoundTrip(v, e.buffer, 0);
  }

  /** writeU64(3, |s|) and writeString(s), then parseValue, gives Str(s) and
      leaves the cursor at the end of the buffer. */
  method TextThroughCodec(s: seq<byte>) returns (r: Result<Value>, consumed: nat)
    requires |s| <= I32_MAX
    ensures r == Ok(Str(s))
    ensures consumed == |Head(3, |s|)| + |s|
  {
    var e := new Encoder();
    e.WriteU64(3, |s|);
    e.WriteString(s);
    var bytes := e.buffer;
    assert bytes == Head(3, |s|) + s;
    WholeBuffer(bytes);
    StringRoundTrip(s, true, bytes, 0);
    var d := new Decoder(bytes);
    r := d.ParseValue(Building);
    consumed := d.pos;
  }
}
