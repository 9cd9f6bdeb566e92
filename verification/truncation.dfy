/** A buffer cut short anywhere inside an encoded value does not decode: the
    decoder reports end of input, whether the cut falls in a head, in a string
    payload, or inside any item of a nested array or map. */
module Truncation {
  import opened Base
  import opened Values
  import opened Grammar
  import opened Encoding
  import opened RoundTrip

  /** From `pos` on, `bytes` holds a strict prefix of `piece` and then ends. */
  predicate CutShort(bytes: seq<byte>, pos: nat, piece: seq<byte>)
  {
    pos <= |bytes| < pos + |piece| && bytes[pos..] == piece[..|bytes| - pos]
  }

  /** Decoding one item at `pos` runs out of input. */
  predicate RunsOut(bytes: seq<byte>, pos: nat)
  {
    pos <= |bytes| && Decode(Building, bytes, pos) == Err(EndOfInput)
  }

  /** Decoding `n` items at `pos` runs out of input. */
  predicate ItemsRunOut(bytes: seq<byte>, pos: nat, n: nat)
  {
    pos <= |bytes| && DecodeItems(Building, bytes, pos, n) == Err(EndOfInput)
  }

  /** Decoding `n` key/value pairs at `pos` runs out of input. */
  predicate EntriesRunOut(bytes: seq<byte>, pos: nat, n: nat)
  {
    pos <= |bytes| && DecodeEntries(Building, bytes, pos, n) == Err(EndOfInput)
  }

  /** Items run out of input when their first item does ... */
  lemma FirstItemRunsOut(bytes: seq<byte>, pos: nat, n: nat)
    requires n > 0 && RunsOut(bytes, pos)
    ensures ItemsRunOut(bytes, pos, n)
  {
  }

  /** ... or when it decodes and the items after it run out. */
  lemma LaterItemRunsOut(bytes: seq<byte>, pos: nat, x: Value, q: nat, n: nat)
    requires n > 0 && DecodesTo(bytes, pos, x, q) && ItemsRunOut(bytes, q, n - 1)
    ensures ItemsRunOut(bytes, pos, n)
  {
  }

  /** Pairs run out of input when the first key does, ... */
  lemma KeyRunsOut(bytes: seq<byte>, pos: nat, n: nat)
    requires n > 0 && RunsOut(bytes, pos)
    ensures EntriesRunOut(bytes, pos, n)
  {
  }

  /** ... when the first key decodes and its value runs out, ... */
  lemma ValueRunsOut(bytes: seq<byte>, pos: nat, key: Value, q: nat, n: nat)
    requires n > 0 && DecodesTo(bytes, pos, key, q) && RunsOut(bytes, q)
    ensures EntriesRunOut(bytes, pos, n)
  {
  }

  /** ... or when the first pair decodes and the pairs after it run out. */
  lemma LaterPairRunsOut(bytes: seq<byte>, pos: nat, key: Value, q: nat, value: Value, r: nat, n: nat)
    requires n > 0 && DecodesTo(bytes, pos, key, q) && DecodesTo(bytes, q, value, r)
    requires EntriesRunOut(bytes, r, n - 1)
    ensures EntriesRunOut(bytes, pos, n)
  {
  }

  /** An array head followed by items that run out of input. */
  lemma ArrayRunsOut(n: nat, bytes: seq<byte>, pos: nat)
    requires n <= I32_MAX && At(bytes, pos, Head(4, n)) && ItemsRunOut(bytes, pos + |Head(4, n)|, n)
    ensures RunsOut(bytes, pos)
  {
    HeadDecodes(Building, 4, n, bytes, pos);
  }

  /** A map head followed by pairs that run out of input. */
  lemma MapRunsOut(n: nat, bytes: seq<byte>, pos: nat)
    requires n <= I32_MAX && At(bytes, pos, Head(5, n)) && EntriesRunOut(bytes, pos + |Head(5, n)|, n)
    ensures RunsOut(bytes, pos)
  {
    HeadDecodes(Building, 5, n, bytes, pos);
  }

  /** A cut inside `a + b` falls either inside `a`, or after the whole of `a`
      and inside `b`. */
  lemma CutSplit(bytes: seq<byte>, pos: nat, a: seq<byte>, b: seq<byte>)
    requires CutShort(bytes, pos, a + b)
    ensures |bytes| < pos + |a| ==> CutShort(bytes, pos, a)
    ensures |bytes| >= pos + |a| ==> At(bytes, pos, a) && CutShort(bytes, pos + |a|, b)
  {
    var k := |bytes| - pos;
    if k < |a| {
      assert (a + b)[..k] == a[..k];
    } else {
      assert bytes[pos..pos + |a|] == bytes[pos..][..|a|] == (a + b)[..|a|];
      assert bytes[pos + |a|..] == bytes[pos..][|a|..] == (a + b)[|a|..k];
    }
  }

  /** A canonical head of major type 0 to 5 cut short: the argument cannot
      be read. */
  lemma CutHead(major: nat, n: u64, bytes: seq<byte>, pos: nat)
    requires major < 6 && CutShort(bytes, pos, Head(major, n))
    ensures RunsOut(bytes, pos)
  {
    if pos < |bytes| {
      HeadShape(major, n);
      assert bytes[pos] == bytes[pos..][0] == Head(major, n)[0];
    }
  }

  /** A byte or text string cut short, in its head or in its payload. */
  lemma CutString(s: seq<byte>, text: bool, bytes: seq<byte>, pos: nat)
    requires |s| <= I32_MAX && CutShort(bytes, pos, Encode(if text then Str(s) else Bytes(s)))
    ensures RunsOut(bytes, pos)
  {
    var major := if text then 3 else 2;
    var h := Head(major, |s|);
    CutSplit(bytes, pos, h, s);
    if |bytes| < pos + |h| {
      CutHead(major, |s|, bytes, pos);
    } else {
      HeadDecodes(Building, major, |s|, bytes, pos);
    }
  }

  /** Every value, cut short anywhere inside its bytes, runs out of input. */
  lemma {:induction false} CutValue(v: Value, bytes: seq<byte>, pos: nat)
    requires Encodable(v) && CutShort(bytes, pos, Encode(v))
    ensures RunsOut(bytes, pos)
    decreases Size(v), 2
  {
    match v
    case U64(n) => CutHead(0, n, bytes, pos);
    case I64(i) => CutHead(1, -(i + 1), bytes, pos);
    case Bytes(s) => CutString(s, false, bytes, pos);
    case Str(s) => CutString(s, true, bytes, pos);
    case Arr(xs) => CutArray(xs, bytes, pos);
    case Map(es) => CutMap(es, bytes, pos);
    case _ =>
  }

  lemma {:induction false} CutArray(xs: seq<Value>, bytes: seq<byte>, pos: nat)
    requires Encodable(Arr(xs)) && CutShort(bytes, pos, Encode(Arr(xs)))
    ensures RunsOut(bytes, pos)
    decreases Size(Arr(xs)), 1
  {
    var h := Head(4, |xs|);
    CutSplit(bytes, pos, h, EncodeItems(xs));
    if |bytes| < pos + |h| {
      CutHead(4, |xs|, bytes, pos);
    } else {
      CutItems(xs, bytes, pos + |h|);
      ArrayRunsOut(|xs|, bytes, pos);
    }
  }

  lemma {:induction false} CutMap(es: seq<(Value, Value)>, bytes: seq<byte>, pos: nat)
    requires Encodable(Map(es)) && CutShort(bytes, pos, Encode(Map(es)))
    ensures RunsOut(bytes, pos)
    decreases Size(Map(es)), 1
  {
    var h := Head(5, |es|);
    CutSplit(bytes, pos, h, EncodeEntries(es));
    if |bytes| < pos + |h| {
      CutHead(5, |es|, bytes, pos);
    } else {
      CutEntries(es, bytes, pos + |h|);
      MapRunsOut(|es|, bytes, pos);
    }
  }

  /** Items cut short: those before the cut decode, the one the cut falls in
      runs out of input, and so does the whole list. */
  lemma {:induction false} CutItems(xs: seq<Value>, bytes: seq<byte>, pos: nat)
    requires EncodableItems(xs) && CutShort(bytes, pos, EncodeItems(xs))
    ensures ItemsRunOut(bytes, pos, |xs|)
    decreases SizeItems(xs), 2
  {
    ItemsSplit(xs);
    CutList(xs[0], xs[1..], bytes, pos);
  }

  /** Items cut short, with the first item taken apart. */
  lemma {:induction false} CutList(x: Value, rest: seq<Value>, bytes: seq<byte>, pos: nat)
    requires Encodable(x) && EncodableItems(rest) && CutShort(bytes, pos, Encode(x) + EncodeItems(rest))
    ensures ItemsRunOut(bytes, pos, |rest| + 1)
    decreases Size(x) + SizeItems(rest) + 1, 1
  {
    var piece := Encode(x);
    CutSplit(bytes, pos, piece, EncodeItems(rest));
    if |bytes| < pos + |piece| {
      CutValue(x, bytes, pos);
      FirstItemRunsOut(bytes, pos, |rest| + 1);
    } else {
      CutAfterItem(x, rest, bytes, pos, pos + |piece|);
    }
  }

  /** Items whose first item is all there, cut short in a later item. */
  lemma {:induction false} CutAfterItem(x: Value, rest: seq<Value>, bytes: seq<byte>, pos: nat, q: nat)
    requires Encodable(x) && At(bytes, pos, Encode(x)) && q == pos + |Encode(x)|
    requires EncodableItems(rest) && CutShort(bytes, q, EncodeItems(rest))
    ensures ItemsRunOut(bytes, pos, |rest| + 1)
    decreases Size(x) + SizeItems(rest) + 1, 0
  {
    EncodeDecode(x, bytes, pos, q);
    CutItems(rest, bytes, q);
    LaterItemRunsOut(bytes, pos, x, q, |rest| + 1);
  }

  /** A non-empty list of pairs is its first key, then its first value, then
      the rest. */
  lemma EntriesSplit(es: seq<(Value, Value)>)
    requires es != [] && EncodableEntries(es)
    ensures Encodable(es[0].0) && Encodable(es[0].1) && EncodableEntries(es[1..])
    ensures EncodeEntries(es) == Encode(es[0].0) + (Encode(es[0].1) + EncodeEntries(es[1..]))
    ensures Size(es[0].0) < SizeEntries(es) && Size(es[0].1) < SizeEntries(es)
    ensures SizeEntries(es[1..]) < SizeEntries(es)
  {
  }

  /** Pairs cut short, in a key, in a value, or in a later pair. */
  lemma {:induction false} CutEntries(es: seq<(Value, Value)>, bytes: seq<byte>, pos: nat)
    requires EncodableEntries(es) && CutShort(bytes, pos, EncodeEntries(es))
    ensures EntriesRunOut(bytes, pos, |es|)
    decreases SizeEntries(es), 2
  {
    EntriesSplit(es);
    CutPairs(es[0].0, es[0].1, es[1..], bytes, pos);
  }

  /** Pairs cut short, with the first pair taken apart. */
  lemma {:induction false} CutPairs(key: Value, value: Value, rest: seq<(Value, Value)>, bytes: seq<byte>, pos: nat)
    requires Encodable(key) && Encodable(value) && EncodableEntries(rest)
    requires CutShort(bytes, pos, Encode(key) + (Encode(value) + EncodeEntries(rest)))
    ensures EntriesRunOut(bytes, pos, |rest| + 1)
    decreases Size(key) + Size(value) + SizeEntries(rest) + 2, 1
  {
    var piece := Encode(key);
    CutSplit(bytes, pos, piece, Encode(value) + EncodeEntries(rest));
    if |bytes| < pos + |piece| {
      CutValue(key, bytes, pos);
      KeyRunsOut(bytes, pos, |rest| + 1);
    } else {
      EncodeDecode(key, bytes, pos, pos + |piece|);
      CutAfterKey(key, value, rest, bytes, pos, pos + |piece|);
    }
  }

  /** Pairs whose first key decodes, cut short in the first value or later. */
  lemma {:induction false} CutAfterKey(key: Value, value: Value, rest: seq<(Value, Value)>,
                                       bytes: seq<byte>, pos: nat, mid: nat)
    requires Encodable(value) && EncodableEntries(rest) && DecodesTo(bytes, pos, key, mid)
    requires CutShort(bytes, mid, Encode(value) + EncodeEntries(rest))
    ensures EntriesRunOut(bytes, pos, |rest| + 1)
    decreases Size(value) + SizeEntries(rest) + 1, 1
  {
    var piece := Encode(value);
    CutSplit(bytes, mid, piece, EncodeEntries(rest));
    if |bytes| < mid + |piece| {
      CutValue(value, bytes, mid);
      ValueRunsOut(bytes, pos, key, mid, |rest| + 1);
    } else {
      CutAfterPair(key, value, rest, bytes, pos, mid, mid + |piece|);
    }
  }

  /** Pairs whose first pair is all there, cut short in a later pair. */
  lemma {:induction false} CutAfterPair(key: Value, value: Value, rest: seq<(Value, Value)>,
                                        bytes: seq<byte>, pos: nat, mid: nat, r: nat)
    requires DecodesTo(bytes, pos, key, mid)
    requires Encodable(value) && At(bytes, mid, Encode(value)) && r == mid + |Encode(value)|
    requires EncodableEntries(rest) && CutShort(bytes, r, EncodeEntries(rest))
    ensures EntriesRunOut(bytes, pos, |rest| + 1)
    decreases Size(value) + SizeEntries(rest) + 1, 0
  {
    EncodeDecode(value, bytes, mid, r);
    CutEntries(rest, bytes, r);
    LaterPairRunsOut(bytes, pos, key, mid, value, r, |rest| + 1);
  }

  /** Every proper prefix of what the encoder writes for a value, the empty
      one included, fails with end of input. */
  lemma TruncationFails(v: Value, k: nat)
    requires Writable(v) && k < |Encode(v)|
    ensures Decode(Building, Encode(v)[..k], 0) == Err(EndOfInput)
  {
    NormalForm(v);
    var b := Encode(v)[..k];
    assert b[0..] == Encode(Normal(v))[..|b|];
    CutValue(Normal(v), b, 0);
  }
}
