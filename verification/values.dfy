/** The decoded value model (`Value` and its subclasses), its accessors and
    its equality, and the two visitors that turn decode events into values. */
module Values {
  import opened Base

  /** The width of the integer or float event the decoder emits. */
  datatype Width = W8 | W16 | W32 | W64

  /** Largest unsigned number of a width (u8::MAX ... u64::MAX). */
  function UMax(w: Width): nat
  {
    match w
    case W8 => U8_MAX
    case W16 => U16_MAX
    case W32 => U32_MAX
    case W64 => U64_MAX
  }

  /** Smallest signed number of a width (i8::MIN ... i64::MIN). */
  function SMin(w: Width): int
  {
    match w
    case W8 => -0x80
    case W16 => -0x8000
    case W32 => -0x8000_0000
    case W64 => I64_MIN
  }

  /** A decoded CBOR item. Floats are kept as the raw IEEE-754 bits that were
      read, of a single or double width (a half float is never read and is
      always zero); their numeric value is not modelled. Text strings are kept as their UTF-8 bytes. A map is the list
      of its key/value pairs in decode order. */
  datatype Value =
    | Null
    | Bool(b: bool)
    | U64(n: u64)
    | I64(i: i64)
    | Float(width: Width, raw: nat)
    | Bytes(bytes: seq<byte>)
    | Str(utf8: seq<byte>)
    | Arr(items: seq<Value>)
    | Map(entries: seq<(Value, Value)>)

  /** The mathematical integer an integer value stands for: the common ground
      of the U64 and I64 representations. */
  function IntegerOf(v: Value): Option<int>
  {
    match v
    case U64(n) => Some(n)
    case I64(i) => Some(i)
    case _ => None
  }

  /** `isNull`: true for null only, the one value that has none of the views. */
  function IsNull(v: Value): (r: bool)
    ensures r <==> AsBoolean(v).None? && AsU64(v).None? && AsI64(v).None? && AsF64(v).None? &&
                   AsBytes(v).None? && AsString(v).None? && AsArray(v).None? && AsMap(v).None?
  {
    v.Null?
  }

  /** `isNumber`: true exactly for the values that have a numeric view. */
  function IsNumber(v: Value): (r: bool)
    ensures r <==> AsU64(v).Some? || AsI64(v).Some? || AsF64(v).Some?
  {
    IntegerOf(v).Some? || v.Float?
  }

  function AsBoolean(v: Value): (r: Option<bool>)
    ensures r.Some? <==> v.Bool?
    ensures r.Some? ==> v == Bool(r.value)
  {
    if v.Bool? then Some(v.b) else None
  }

  /** The u64 view: any integer value that is not negative. */
  function AsU64(v: Value): (r: Option<u64>)
    ensures r.Some? <==> IntegerOf(v).Some? && IntegerOf(v).value >= 0
    ensures r.Some? ==> IntegerOf(v) == Some(r.value as int)
  {
    match v
    case U64(n) => Some(n)
    case I64(i) => if i >= 0 then Some(i) else None
    case _ => None
  }

  /** The i64 view: any integer value that is at most i64 max. */
  function AsI64(v: Value): (r: Option<i64>)
    ensures r.Some? <==> IntegerOf(v).Some? && IntegerOf(v).value <= I64_MAX
    ensures r.Some? ==> IntegerOf(v) == Some(r.value as int)
  {
    match v
    case U64(n) => if n <= I64_MAX then Some(n) else None
    case I64(i) => Some(i)
    case _ => None
  }

  /** The float view: integers have none (lossless conversion is not implemented). */
  function AsF64(v: Value): (r: Option<(Width, nat)>)
    ensures r.Some? <==> v.Float?
    ensures r.Some? ==> v == Float(r.value.0, r.value.1)
  {
    if v.Float? then Some((v.width, v.raw)) else None
  }

  function AsBytes(v: Value): (r: Option<seq<byte>>)
    ensures r.Some? <==> v.Bytes?
    ensures r.Some? ==> v == Bytes(r.value)
  {
    if v.Bytes? then Some(v.bytes) else None
  }

  function AsString(v: Value): (r: Option<seq<byte>>)
    ensures r.Some? <==> v.Str?
    ensures r.Some? ==> v == Str(r.value)
  {
    if v.Str? then Some(v.utf8) else None
  }

  function AsArray(v: Value): (r: Option<seq<Value>>)
    ensures r.Some? <==> v.Arr?
    ensures r.Some? ==> v == Arr(r.value)
  {
    if v.Arr? then Some(v.items) else None
  }

  function AsMap(v: Value): (r: Option<seq<(Value, Value)>>)
    ensures r.Some? <==> v.Map?
    ensures r.Some? ==> v == Map(r.value)
  {
    if v.Map? then Some(v.entries) else None
  }

  /** The `==` operator: each variant compares its own payload with the other
      value's view of the same kind, so integers compare across U64 and I64.
      Arrays and maps compare structurally, element by element and pair by pair
      in order. */
  function ValueEq(a: Value, b: Value): bool
    decreases a
  {
    match a
    case Null => IsNull(b)
    case Bool(x) => AsBoolean(b) == Some(x)
    case U64(n) => AsU64(b) == Some(n)
    case I64(i) => AsI64(b) == Some(i)
    case Float(w, raw) => AsF64(b) == Some((w, raw))
    case Bytes(s) => AsBytes(b) == Some(s)
    case Str(s) => AsString(b) == Some(s)
    case Arr(xs) =>
      b.Arr? && |xs| == |b.items| &&
      forall k :: 0 <= k < |xs| ==> ValueEq(xs[k], b.items[k])
    case Map(es) =>
      b.Map? && |es| == |b.entries| &&
      forall k :: 0 <= k < |es| ==>
        ValueEq(es[k].0, b.entries[k].0) && ValueEq(es[k].1, b.entries[k].1)
  }

  /** Two integer values are equal exactly when they stand for the same number. */
  lemma IntegerEquality(a: Value, b: Value)
    requires IntegerOf(a).Some? && IntegerOf(b).Some?
    ensures ValueEq(a, b) <==> IntegerOf(a) == IntegerOf(b)
  {
  }

  /** U64(n) == I64(m) exactly when m is not negative and n == m, in both orders. */
  lemma CrossIntegerEquality(n: u64, m: i64)
    ensures ValueEq(U64(n), I64(m)) <==> m >= 0 && n == m
    ensures ValueEq(I64(m), U64(n)) <==> m >= 0 && n == m
  {
  }

  /** Null equals only Null; a Bool equals only a Bool with the same truth value. */
  lemma NullAndBoolEquality(v: Value, x: bool)
    ensures ValueEq(Null, v) <==> v == Null
    ensures ValueEq(v, Null) <==> v == Null
    ensures ValueEq(Bool(x), v) <==> v == Bool(x)
    ensures ValueEq(v, Bool(x)) <==> v == Bool(x)
  {
  }

  lemma {:induction false} ValueEqReflexive(a: Value)
    ensures ValueEq(a, a)
    decreases a
  {
    match a
    case Arr(xs) =>
      forall k | 0 <= k < |xs| ensures ValueEq(xs[k], xs[k]) {
        ValueEqReflexive(xs[k]);
      }
    case Map(es) =>
      forall k | 0 <= k < |es| ensures ValueEq(es[k].0, es[k].0) && ValueEq(es[k].1, es[k].1) {
        ValueEqReflexive(es[k].0);
        ValueEqReflexive(es[k].1);
      }
    case _ =>
  }

  lemma {:induction false} ValueEqSymmetric(a: Value, b: Value)
    ensures ValueEq(a, b) <==> ValueEq(b, a)
    decreases a
  {
    match a
    case Arr(xs) =>
      if b.Arr? && |xs| == |b.items| {
        forall k | 0 <= k < |xs| ensures ValueEq(xs[k], b.items[k]) <==> ValueEq(b.items[k], xs[k]) {
          ValueEqSymmetric(xs[k], b.items[k]);
        }
      }
    case Map(es) =>
      if b.Map? && |es| == |b.entries| {
        forall k | 0 <= k < |es|
          ensures ValueEq(es[k].0, b.entries[k].0) <==> ValueEq(b.entries[k].0, es[k].0)
          ensures ValueEq(es[k].1, b.entries[k].1) <==> ValueEq(b.entries[k].1, es[k].1)
        {
          ValueEqSymmetric(es[k].0, b.entries[k].0);
          ValueEqSymmetric(es[k].1, b.entries[k].1);
        }
      }
    case _ =>
  }

  /** One decode event: one method of `Visitor`. Integer events carry the width
      of the AssemblyScript parameter (visitU8 ... visitI64); float events carry
      the raw bits and the width they were read with. */
  datatype Event =
    | UnsignedEv(width: Width, n: nat)
    | SignedEv(width: Width, i: int)
    | FloatEv(fwidth: Width, raw: nat)
    | BoolEv(b: bool)
    | NullEv
    | BytesEv(bytes: seq<byte>)
    | StringEv(utf8: seq<byte>)
    | ArrayEv(items: seq<Value>)
    | MapEv(entries: seq<(Value, Value)>)

  /** The event's number fits the type of the visitor method's parameter. */
  predicate InRange(e: Event)
  {
    match e
    case UnsignedEv(w, n) => n <= UMax(w)
    case SignedEv(w, i) => SMin(w) <= i <= -SMin(w) - 1
    case _ => true
  }

  /** `Visitor` rejects every event; `ValueVisitor` builds a Value from each. */
  datatype Visitor = Rejecting | Building

  /** The Visitor method an event is delivered to. */
  function MethodOf(e: Event): VisitMethod
  {
    match e
    case UnsignedEv(w, _) =>
      (match w case W8 => VisitU8 case W16 => VisitU16 case W32 => VisitU32 case W64 => VisitU64)
    case SignedEv(w, _) =>
      (match w case W8 => VisitI8 case W16 => VisitI16 case W32 => VisitI32 case W64 => VisitI64)
    case FloatEv(w, _) => if w == W64 then VisitF64 else VisitF32
    case BoolEv(_) => VisitBool
    case NullEv => VisitNull
    case BytesEv(_) => VisitBytes
    case StringEv(_) => VisitString
    case ArrayEv(_) => VisitArray
    case MapEv(_) => VisitMap
  }

  /** Delivers one event to a visitor: the base visitor fails on every event,
      the value visitor builds a value from it. */
  function Visit(vis: Visitor, e: Event): (r: Result<Value>)
    requires InRange(e)
    ensures vis.Rejecting? <==> r.Err?
    ensures r.Err? ==> r.error == Unexpected(MethodOf(e))
  {
    match vis
    case Rejecting => Err(Unexpected(MethodOf(e)))
    case Building =>
      match e
      case UnsignedEv(_, n) => Ok(U64(n))
      case SignedEv(_, i) => Ok(I64(i))
      case FloatEv(w, raw) => Ok(Float(w, raw))
      case BoolEv(b) => Ok(Bool(b))
      case NullEv => Ok(Null)
      case BytesEv(s) => Ok(Bytes(s))
      case StringEv(s) => Ok(Str(s))
      case ArrayEv(xs) => Ok(Arr(xs))
      case MapEv(es) => Ok(Map(es))
  }

  /** The value visitor widens integers to U64 / I64 keeping their number and
      wraps every other payload unchanged, as each accessor view shows. */
  lemma VisitViews(e: Event)
    requires InRange(e)
    ensures Visit(Building, e).Ok?
    ensures e.UnsignedEv? ==> var v := Visit(Building, e).value; v.U64? && AsU64(v) == Some(e.n as u64)
    ensures e.SignedEv? ==> var v := Visit(Building, e).value; v.I64? && AsI64(v) == Some(e.i as i64)
    ensures e.FloatEv? ==> AsF64(Visit(Building, e).value) == Some((e.fwidth, e.raw))
    ensures e.BoolEv? ==> AsBoolean(Visit(Building, e).value) == Some(e.b)
    ensures e.NullEv? ==> IsNull(Visit(Building, e).value)
    ensures e.BytesEv? ==> AsBytes(Visit(Building, e).value) == Some(e.bytes)
    ensures e.StringEv? ==> AsString(Visit(Building, e).value) == Some(e.utf8)
    ensures e.ArrayEv? ==> AsArray(Visit(Building, e).value) == Some(e.items)
    ensures e.MapEv? ==> AsMap(Visit(Building, e).value) == Some(e.entries)
  {
  }
}
