/**
 Which descriptors and structs the encoder is meant for, and when two structs hold the same
 message: absent optionals, slots past the count, unselected union members and bytes after a
 terminator are storage, not content.
 */
module Soundness {
  import opened Schema
  import opened WireFormat
  import opened WireDecode
  import opened Words

  // ---- Descriptors ----

  /** What the decoder itself relies on: a room for the byte count, defaults of the member's own layout. */
  ghost predicate DescribedField(f: Field)
    decreases f, 0
  {
    && f.tag > 0
    && (f.kind.Bytes? ==> BYTES_OFFSET <= f.dataSize)
    && (f.kind.Submessage? ==> Described(f.kind.fields))
    && (f.initial.Some? ==> Shaped(f, f.initial.value))
  }

  /** Tags are distinct and not zero, at every level. */
  ghost predicate Described(fields: seq<Field>)
    decreases fields, 1
  {
    && (forall i | 0 <= i < |fields| :: DescribedField(fields[i]))
    && (forall i, j | 0 <= i < j < |fields| :: fields[i].tag != fields[j].tag)
  }

  ghost predicate WfField(f: Field)
    decreases f, 0
  {
    && DescribedField(f)
    && f.tag <= MAX_TAG && f.dataSize <= PB_SIZE_MAX && f.arraySize <= PB_SIZE_MAX
    && (f.kind.Varint? || f.kind.UVarint? || f.kind.SVarint? ==> IntSize(f.dataSize))
    && (f.kind.Submessage? ==> WfFields(f.kind.fields))
    && (f.initial.Some? ==> !f.rule.Singular?)
  }

  /** The descriptors the generator emits. */
  ghost predicate WfFields(fields: seq<Field>)
    decreases fields, 1
  {
    Described(fields) && forall i | 0 <= i < |fields| :: WfField(fields[i])
  }

  lemma FindsItself(fields: seq<Field>, i: nat)
    requires Described(fields) && i < |fields|
    ensures FindField(fields, fields[i].tag) == i
  {
    assert FindField(fields, fields[i].tag) <= i;
  }

  // ---- Structs an application may encode ----

  predicate InSigned(n: int, dataSize: nat) {
    -n <= SignedHalf(dataSize) && n < SignedHalf(dataSize)
  }

  /** Numbers in range, byte counts within the buffer, strings terminated inside theirs. */
  ghost predicate SoundVal(f: Field, v: Val)
    decreases f, 0
  {
    match f.kind
    case Varint => v.Num? && InSigned(v.n, f.dataSize)
    case SVarint => v.Num? && InSigned(v.n, f.dataSize)
    case UVarint => v.Num? && 0 <= v.n < 2 * SignedHalf(f.dataSize)
    case Fixed32 => v.Num? && 0 <= v.n < TWO_32
    case Fixed64 => v.Num? && 0 <= v.n < TWO_64
    case Bytes => v.Blob? && f.dataSize == BYTES_OFFSET + |v.data| && v.size <= |v.data|
    case String => v.Chars? && |v.data| == f.dataSize && StrLen(v.data) < |v.data|
    case FixedBytes => v.Chars? && |v.data| == f.dataSize
    case Submessage(fields) => v.Sub? && SoundMsg(fields, v.m)
  }

  /** Only what is present has to be sound. */
  ghost predicate SoundSlot(f: Field, slot: Slot, which: nat)
    decreases f, 1
  {
    match f.rule
    case Required => slot.One? && SoundVal(f, slot.v)
    case Singular => slot.One? && SoundVal(f, slot.v)
    case Optional => slot.Opt? && (slot.has ==> SoundVal(f, slot.v))
    case OneOf(_) => slot.One? && (which == f.tag ==> SoundVal(f, slot.v))
    case Repeated =>
      && slot.Rep? && slot.count <= f.arraySize && slot.count <= |slot.items|
      && forall k | 0 <= k < slot.count :: SoundVal(f, slot.items[k])
  }

  /** which_ is zero or the tag of a member. */
  ghost predicate SoundUnion(fields: seq<Field>, m: Msg, u: nat) {
    Which(m, u) == 0 || exists j :: 0 <= j < |fields| && fields[j].rule == OneOf(u) && fields[j].tag == Which(m, u)
  }

  ghost predicate SoundMsg(fields: seq<Field>, m: Msg)
    decreases fields, 0
  {
    && |m.slots| == |fields|
    && (forall i | 0 <= i < |fields| :: SoundSlot(fields[i], m.slots[i], UnionTag(fields[i], m)))
    && (forall i | 0 <= i < |fields| :: fields[i].rule.OneOf? ==> SoundUnion(fields, m, fields[i].rule.union))
  }

  // ---- Equal content ----

  ghost predicate SameVal(f: Field, a: Val, b: Val)
    decreases f, 0
  {
    match f.kind
    case Bytes => a.Blob? && b.Blob? && a.size == b.size <= |a.data| && b.size <= |b.data|
                  && a.data[..a.size] == b.data[..b.size]
    case String => a.Chars? && b.Chars? && a.data[..StrLen(a.data)] == b.data[..StrLen(b.data)]
    case Submessage(fields) => a.Sub? && b.Sub? && SameMsg(fields, a.m, b.m)
    case _ => a == b
  }

  /** which is the selected tag of the field's union. */
  ghost predicate SameSlot(f: Field, a: Slot, b: Slot, which: nat)
    decreases f, 1
  {
    match f.rule
    case Required => a.One? && b.One? && SameVal(f, a.v, b.v)
    case Singular => a.One? && b.One? && SameVal(f, a.v, b.v)
    case Optional => a.Opt? && b.Opt? && a.has == b.has && (a.has ==> SameVal(f, a.v, b.v))
    case OneOf(_) => a.One? && b.One? && (which == f.tag ==> SameVal(f, a.v, b.v))
    case Repeated =>
      && a.Rep? && b.Rep? && a.count == b.count <= |a.items| && b.count <= |b.items|
      && forall k | 0 <= k < a.count :: SameVal(f, a.items[k], b.items[k])
  }

  ghost predicate SameMsg(fields: seq<Field>, a: Msg, b: Msg)
    decreases fields, 0
  {
    && |a.slots| == |b.slots| == |fields|
    && (forall i | 0 <= i < |fields| :: SameSlot(fields[i], a.slots[i], b.slots[i], UnionTag(fields[i], b)))
    && (forall i | 0 <= i < |fields| :: UnionTag(fields[i], a) == UnionTag(fields[i], b))
  }

  // ---- Freshly initialised structs ----

  /** Setting defaults again would change nothing. */
  ghost predicate Fresh(fields: seq<Field>, m: Msg) {
    ShapedMsg(fields, m) && SetDefaults(fields, m) == m
  }

  ghost predicate FreshVal(f: Field, v: Val) {
    Shaped(f, v) && DefaultVal(f, v) == v
  }

  lemma {:induction false} ZeroValShaped(f: Field)
    requires DescribedField(f)
    ensures Shaped(f, ZeroVal(f))
    decreases f, 0
  {
    if f.kind.Submessage? {
      ZeroShaped(f.kind.fields);
    }
  }

  lemma {:induction false} ZeroShaped(fields: seq<Field>)
    requires Described(fields)
    ensures ShapedMsg(fields, ZeroMsg(fields))
    decreases fields, 1
  {
    forall i | 0 <= i < |fields| ensures ShapedSlot(fields[i], ZeroMsg(fields).slots[i]) {
      ZeroValShaped(fields[i]);
    }
  }

  lemma {:induction false} DefaultValFresh(f: Field, v: Val)
    requires DescribedField(f) && Shaped(f, v)
    ensures FreshVal(f, DefaultVal(f, v))
    decreases f, 0
  {
    if f.kind.Submessage? {
      DefaultsFresh(f.kind.fields, v.m);
    } else {
      ZeroValShaped(f);
    }
  }

  lemma {:induction false} DefaultSlotFresh(f: Field, slot: Slot)
    requires DescribedField(f) && ShapedSlot(f, slot)
    ensures ShapedSlot(f, DefaultSlot(f, slot))
    ensures DefaultSlot(f, DefaultSlot(f, slot)) == DefaultSlot(f, slot)
    decreases f, 1
  {
    if !slot.Rep? {
      DefaultValFresh(f, slot.v);
    }
  }

  /** pb_message_set_to_defaults yields a fresh struct, whatever was stored before. */
  lemma {:induction false} DefaultsFresh(fields: seq<Field>, m: Msg)
    requires Described(fields) && ShapedMsg(fields, m)
    ensures Fresh(fields, SetDefaults(fields, m))
    decreases fields, 1
  {
    var d := SetDefaults(fields, m);
    forall i | 0 <= i < |fields|
      ensures ShapedSlot(fields[i], d.slots[i]) && DefaultSlot(fields[i], d.slots[i]) == d.slots[i]
    {
      DefaultSlotFresh(fields[i], m.slots[i]);
    }
    assert SetDefaults(fields, d).slots == d.slots;
  }

  /** The slots of a fresh struct: has_ clear, count zero, defaults in place. */
  lemma FreshSlot(fields: seq<Field>, m: Msg, i: nat)
    requires Fresh(fields, m) && i < |fields|
    ensures ShapedSlot(fields[i], m.slots[i]) && DefaultSlot(fields[i], m.slots[i]) == m.slots[i]
    ensures m.which == map[]
  {
    assert SetDefaults(fields, m).slots[i] == m.slots[i];
  }
}
