/**
 The wire format as nanopb writes it: what pb_encode (pb_encode.c) sends for a struct, as a
 function of the descriptor and the struct. None is an encoding error.
 */
module WireFormat {
  import opened Slices
  import opened LittleEndian
  import V = Varints
  import opened Schema
  import opened Words

  const WT_VARINT: nat := 0
  const WT_64BIT: nat := 1
  const WT_STRING: nat := 2
  const WT_32BIT: nat := 5

  function Concat(a: Option<bytes>, b: Option<bytes>): Option<bytes> {
    if a.Some? && b.Some? then Some(a.value + b.value) else None
  }

  /** pb_encode_svarint's mapping of signed to unsigned. */
  function ZigZag(n: int): nat {
    if n < 0 then -2 * n - 1 else 2 * n
  }

  /** (uint64_t)value of a signed number. */
  function AsUnsigned(n: int): int {
    if n < 0 then TWO_64 + n else n
  }

  function EncodeTag(wireType: nat, tag: nat): bytes {
    V.EncodeVarint(tag * 8 + wireType)
  }

  /** The wire type pb_encode_tag_for_field picks. */
  function WireType(k: Kind): nat {
    match k
    case Varint => WT_VARINT
    case UVarint => WT_VARINT
    case SVarint => WT_VARINT
    case Fixed32 => WT_32BIT
    case Fixed64 => WT_64BIT
    case _ => WT_STRING
  }

  /** pb_encode_string. */
  function EncodeString(s: bytes): bytes {
    V.EncodeVarint(|s|) + s
  }

  /** Length up to the first NUL, as the strnlen loop of pb_enc_string finds it. */
  function StrLen(s: bytes): (n: nat)
    ensures n <= |s|
    ensures n < |s| ==> s[n] == 0
    ensures forall i | 0 <= i < n :: s[i] != 0
  {
    if s == [] || s[0] == 0 then 0 else 1 + StrLen(s[1..])
  }

  function VarintOf(dataSize: nat, n: int): Option<bytes> {
    if IntSize(dataSize) && n >= 0 then Some(V.EncodeVarint(n)) else None
  }

  /** The pb_enc_* functions: one value, without its tag. */
  function EncVal(f: Field, v: Val): Option<bytes>
    decreases f, 0
  {
    match (f.kind, v)
    case (Varint, Num(n)) => VarintOf(f.dataSize, AsUnsigned(n))
    case (UVarint, Num(n)) => VarintOf(f.dataSize, n)
    case (SVarint, Num(n)) => VarintOf(f.dataSize, ZigZag(n))
    case (Fixed32, Num(n)) => if n >= 0 then Some(FixedLE(n, 4)) else None
    case (Fixed64, Num(n)) => if n >= 0 then Some(FixedLE(n, 8)) else None
    case (Bytes, Blob(size, data)) =>
      if BYTES_OFFSET + size > f.dataSize || size > |data| then None else Some(EncodeString(data[..size]))
    case (String, Chars(data)) => Some(EncodeString(data[..StrLen(data)]))
    case (FixedBytes, Chars(data)) => Some(EncodeString(data))
    case (Submessage(fields), Sub(m)) =>
      var body := EncMsg(fields, m);
      if body.Some? then Some(EncodeString(body.value)) else None
    case _ => None
  }

  /** Tag and value. */
  function EncTagged(f: Field, v: Val): Option<bytes>
    decreases f, 1
  {
    Concat(Some(EncodeTag(WireType(f.kind), f.tag)), EncVal(f, v))
  }

  /** The first n items, back to back. */
  function EncItems(f: Field, items: seq<Val>, n: nat): Option<bytes>
    requires n <= |items|
    decreases f, 1, n
  {
    if n == 0 then Some([]) else Concat(EncItems(f, items, n - 1), EncVal(f, items[n - 1]))
  }

  /** The first n items, each with its tag. */
  function EncTaggedItems(f: Field, items: seq<Val>, n: nat): Option<bytes>
    requires n <= |items|
    decreases f, 2, n
  {
    if n == 0 then Some([]) else Concat(EncTaggedItems(f, items, n - 1), EncTagged(f, items[n - 1]))
  }

  /** encode_array: packed whenever the type allows it. */
  function EncArray(f: Field, count: nat, items: seq<Val>): Option<bytes>
    decreases f, 3
  {
    if count == 0 then Some([])
    else if count > f.arraySize || count > |items| then None
    else if Packable(f.kind) then
      var body := EncItems(f, items, count);
      if body.Some? then Some(EncodeTag(WT_STRING, f.tag) + EncodeString(body.value)) else None
    else EncTaggedItems(f, items, count)
  }

  /** pb_check_proto3_default_value on a singular field. */
  predicate IsDefault(f: Field, v: Val)
    decreases f, 0
  {
    match (f.kind, v)
    case (Bytes, Blob(size, _)) => size == 0
    case (String, Chars(data)) => data == [] || data[0] == 0
    case (FixedBytes, _) => f.dataSize == 0
    case (Submessage(fields), Sub(m)) => IsDefaultMsg(fields, m)
    case (_, Num(n)) => n == 0
    case _ => true
  }

  /** pb_check_proto3_default_value on any field inside a proto3 submessage. */
  predicate IsDefaultSlot(f: Field, slot: Slot, which: nat)
    decreases f, 1
  {
    match (f.rule, slot)
    case (Required, _) => false
    case (Repeated, Rep(count, _)) => count == 0
    case (OneOf(_), _) => which == 0
    case (Optional, Opt(has, _)) => !has
    case (Singular, One(v)) => IsDefault(f, v)
    case _ => true
  }

  function UnionTag(f: Field, m: Msg): nat {
    if f.rule.OneOf? then Which(m, f.rule.union) else 0
  }

  predicate IsDefaultMsg(fields: seq<Field>, m: Msg)
    decreases fields, 0
  {
    forall i | 0 <= i < |fields| :: IsDefaultSlot(fields[i], SlotAt(m, i), UnionTag(fields[i], m))
  }

  /** encode_basic_field. */
  function EncField(f: Field, slot: Slot, which: nat): Option<bytes>
    decreases f, 4
  {
    match (f.rule, slot)
    case (Required, One(v)) => EncTagged(f, v)
    case (Optional, Opt(has, v)) => if has then EncTagged(f, v) else Some([])
    case (Singular, One(v)) => if IsDefault(f, v) then Some([]) else EncTagged(f, v)
    case (Repeated, Rep(count, items)) => EncArray(f, count, items)
    case (OneOf(_), One(v)) => if which == f.tag then EncTagged(f, v) else Some([])
    case _ => None
  }

  /** The first n fields of a struct. */
  function EncPrefix(fields: seq<Field>, m: Msg, n: nat): Option<bytes>
    requires n <= |fields|
    decreases fields, 0, n
  {
    if n == 0 then Some([])
    else Concat(EncPrefix(fields, m, n - 1), EncField(fields[n - 1], SlotAt(m, n - 1), UnionTag(fields[n - 1], m)))
  }

  /** pb_encode. */
  function EncMsg(fields: seq<Field>, m: Msg): Option<bytes>
    decreases fields, 1
  {
    EncPrefix(fields, m, |fields|)
  }
}
