/**
 Message descriptors and message structs of nanopb (pb.h), for static storage: required, optional
 with a has_ flag, proto3 singular, repeated with a _count, and oneof fields, nested to any depth.
 */
module Schema {
  import opened Slices

  // pb_size_t is uint32_t in this build (PB_FIELD_32BIT).
  const PB_SIZE_MAX: nat := 0xFFFF_FFFF
  const BYTES_OFFSET: nat := 4
  const PB_MAX_REQUIRED_FIELDS: nat := 64
  const MAX_TAG: nat := 0x1FFF_FFFF

  // ---- Descriptors ----

  datatype Kind =
    | Varint | UVarint | SVarint | Fixed32 | Fixed64
    | Bytes | String | FixedBytes
    | Submessage(fields: seq<Field>)

  datatype Rule = Required | Optional | Singular | Repeated | OneOf(union: nat)

  /**
   One pb_field_t entry. dataOffset is relative to the end of the previous field, sizeOffset (of the
   has_, _count or which_ member) to the data; initial is the default value its ptr refers to, if any.
   */
  datatype Field = Field(tag: nat, rule: Rule, kind: Kind, dataOffset: nat, sizeOffset: int,
                         dataSize: nat, arraySize: nat, initial: Option<Val>)

  /** PB_LTYPE(type) <= PB_LTYPE_LAST_PACKABLE. */
  predicate Packable(k: Kind) {
    k.Varint? || k.UVarint? || k.SVarint? || k.Fixed32? || k.Fixed64?
  }

  // ---- Structs ----

  /** A stored value: a number, a pb_bytes_array_t, a fixed-size byte buffer, or a nested struct. */
  datatype Val = Num(n: int) | Blob(size: nat, data: bytes) | Chars(data: bytes) | Sub(m: Msg)

  /** The storage of one field. */
  datatype Slot = One(v: Val) | Opt(has: bool, v: Val) | Rep(count: nat, items: seq<Val>)

  /** A struct: a slot per field, and the which_ tag of each oneof. */
  datatype Msg = Msg(slots: seq<Slot>, which: map<nat, nat>)

  function Which(m: Msg, union: nat): nat {
    if union in m.which then m.which[union] else 0
  }

  function SlotAt(m: Msg, i: nat): Slot {
    if i < |m.slots| then m.slots[i] else One(Num(0))
  }

  function SubOf(v: Val): Msg {
    if v.Sub? then v.m else Msg([], map[])
  }

  function Zeros(n: nat): (z: bytes)
    ensures |z| == n
  {
    seq(n, i => 0)
  }

  // ---- memset and pb_message_set_to_defaults ----

  /** The storage of one value after memset(p, 0, data_size). */
  function ZeroVal(f: Field): Val
    decreases f, 0
  {
    match f.kind
    case Bytes => Blob(0, Zeros(if f.dataSize >= BYTES_OFFSET then f.dataSize - BYTES_OFFSET else 0))
    case String => Chars(Zeros(f.dataSize))
    case FixedBytes => Chars(Zeros(f.dataSize))
    case Submessage(fields) => Sub(ZeroMsg(fields))
    case _ => Num(0)
  }

  function ZeroSlot(f: Field): Slot
    decreases f, 1
  {
    match f.rule
    case Optional => Opt(false, ZeroVal(f))
    case Repeated => Rep(0, seq(f.arraySize, i => ZeroVal(f)))
    case _ => One(ZeroVal(f))
  }

  function ZeroMsg(fields: seq<Field>): Msg
    decreases fields, 0
  {
    Msg(seq(|fields|, i requires 0 <= i < |fields| => ZeroSlot(fields[i])), map[])
  }

  /** The data part of pb_field_set_to_default. */
  function DefaultVal(f: Field, prior: Val): Val
    decreases f, 0
  {
    match f.kind
    case Submessage(fields) => Sub(SetDefaults(fields, SubOf(prior)))
    case _ => if f.initial.Some? then f.initial.value else ZeroVal(f)
  }

  /** pb_field_set_to_default: has_ and _count are cleared; arrays and unions keep their contents. */
  function DefaultSlot(f: Field, slot: Slot): Slot
    decreases f, 1
  {
    match (f.rule, slot)
    case (Required, One(v)) => One(DefaultVal(f, v))
    case (Singular, One(v)) => One(DefaultVal(f, v))
    case (Optional, Opt(_, v)) => Opt(false, DefaultVal(f, v))
    case (Repeated, Rep(_, items)) => Rep(0, items)
    case _ => slot
  }

  /** pb_message_set_to_defaults. */
  function SetDefaults(fields: seq<Field>, m: Msg): Msg
    decreases fields, 0
  {
    Msg(seq(|fields|, i requires 0 <= i < |fields| => DefaultSlot(fields[i], SlotAt(m, i))), map[])
  }

  // ---- Well-formed descriptors and structs ----

  /** Bounds of a signed integer of the given size in bytes: [-SignedHalf, SignedHalf). */
  function SignedHalf(dataSize: nat): nat {
    if dataSize == 1 then 0x80
    else if dataSize == 2 then 0x8000
    else if dataSize == 4 then 0x8000_0000
    else 0x8000_0000_0000_0000
  }

  predicate IntSize(n: nat) {
    n == 1 || n == 2 || n == 4 || n == 8
  }

  /** The struct member a field points at has the layout the field describes. */
  predicate Shaped(f: Field, v: Val)
    decreases f, 0
  {
    match f.kind
    case Bytes => v.Blob? && f.dataSize == BYTES_OFFSET + |v.data|
    case String => v.Chars? && |v.data| == f.dataSize
    case FixedBytes => v.Chars? && |v.data| == f.dataSize
    case Submessage(fields) => v.Sub? && ShapedMsg(fields, v.m)
    case _ => v.Num?
  }

  predicate ShapedSlot(f: Field, slot: Slot)
    decreases f, 1
  {
    match f.rule
    case Optional => slot.Opt? && Shaped(f, slot.v)
    case Repeated => slot.Rep? && |slot.items| == f.arraySize && forall v | v in slot.items :: Shaped(f, v)
    case _ => slot.One? && Shaped(f, slot.v)
  }

  predicate ShapedMsg(fields: seq<Field>, m: Msg)
    decreases fields, 0
  {
    && |m.slots| == |fields| && (forall i | 0 <= i < |fields| :: ShapedSlot(fields[i], m.slots[i]))
    && forall u | u in m.which :: DeclaresUnion(fields, u)
  }

  /** Some field is a member of oneof u, so that the struct has a which_ for it. */
  predicate DeclaresUnion(fields: seq<Field>, u: nat) {
    exists i | 0 <= i < |fields| :: fields[i].rule == OneOf(u)
  }
}
