/** What a struct holds before and after decoding where the input says nothing: the descriptor's defaults, or zero. */
module Defaults {
  import opened Slices
  import opened Schema
  import opened WireFormat
  import opened WireDecode
  import opened Soundness
  import opened Storage
  import opened DecodeShape
  import opened RequiredPresence

  /** The declared default where there is one, otherwise the number zero, no bytes, or zeros; recursively in submessages. */
  ghost predicate HoldsDefault(f: Field, v: Val)
    decreases f, 0
  {
    match f.kind
    case Submessage(fields) => v.Sub? && Initialised(fields, v.m)
    case Bytes => if f.initial.Some? then v == f.initial.value else v.Blob? && v.size == 0 && AllZero(v.data)
    case String => if f.initial.Some? then v == f.initial.value else v.Chars? && |v.data| == f.dataSize && AllZero(v.data)
    case FixedBytes => if f.initial.Some? then v == f.initial.value else v.Chars? && |v.data| == f.dataSize && AllZero(v.data)
    case _ => if f.initial.Some? then v == f.initial.value else v == Num(0)
  }

  /** has_ is false and counts are zero; array entries and oneof members are not initialised. */
  ghost predicate InitialSlot(f: Field, slot: Slot)
    decreases f, 1
  {
    match f.rule
    case Required => slot.One? && HoldsDefault(f, slot.v)
    case Singular => slot.One? && HoldsDefault(f, slot.v)
    case Optional => slot.Opt? && !slot.has && HoldsDefault(f, slot.v)
    case Repeated => slot.Rep? && slot.count == 0 && |slot.items| == f.arraySize
    case OneOf(_) => slot.One?
  }

  /** And every which_ is zero. */
  ghost predicate Initialised(fields: seq<Field>, m: Msg)
    decreases fields, 0
  {
    && |m.slots| == |fields|
    && (forall i | 0 <= i < |fields| :: InitialSlot(fields[i], m.slots[i]))
    && (forall u {:trigger Which(m, u)} :: Which(m, u) == 0)
  }

  lemma {:induction false} ValueInitialised(f: Field, v: Val)
    requires DescribedField(f) && Shaped(f, v)
    ensures HoldsDefault(f, DefaultVal(f, v))
    decreases f, 0
  {
    if f.kind.Submessage? {
      DefaultsInitialise(f.kind.fields, v.m);
    }
  }

  /** pb_message_set_to_defaults leaves every member at its default, whatever it held. */
  lemma {:induction false} DefaultsInitialise(fields: seq<Field>, m: Msg)
    requires Described(fields) && ShapedMsg(fields, m)
    ensures Initialised(fields, SetDefaults(fields, m))
    decreases fields, 1
  {
    var d := SetDefaults(fields, m);
    forall i | 0 <= i < |fields| ensures InitialSlot(fields[i], d.slots[i]) {
      var f, slot := fields[i], m.slots[i];
      assert DescribedField(f) && ShapedSlot(f, slot) && d.slots[i] == DefaultSlot(f, slot);
      if !f.rule.Repeated? && !f.rule.OneOf? {
        ValueInitialised(f, slot.v);
      }
    }
  }

  // ---- After decoding ----

  lemma RecordTouches(fields: seq<Field>, m: Msg, tag: nat, wireType: nat, s: bytes, i: nat)
    requires Described(fields) && i < |fields| == |m.slots| && fields[i].tag != tag
    requires DecRecord(fields, m, tag, wireType, s).Some?
    ensures var now := DecRecord(fields, m, tag, wireType, s).value.m;
            |now.slots| == |fields| && now.slots[i] == m.slots[i]
  {
  }

  /** A field whose tag is on no record keeps its member. */
  lemma {:induction false} UnreadKept(fields: seq<Field>, m: Msg, seen: set<nat>, s: bytes, i: nat)
    requires Described(fields) && i < |fields| == |m.slots| && DecLoop(fields, m, seen, s).Some?
    requires fields[i].tag !in TagsRead(fields, m, s)
    ensures var now := DecLoop(fields, m, seen, s).value.m;
            |now.slots| == |fields| && now.slots[i] == m.slots[i]
    decreases |s|
  {
    if s != [] {
      var t := DecodeTag(s);
      if t.Tag? {
        var u := DecRecord(fields, m, t.tag, t.wireType, t.rest).value;
        RecordTouches(fields, m, t.tag, t.wireType, t.rest, i);
        UnreadKept(fields, u.m, Mark(fields, seen, t.tag), u.rest, i);
      }
    }
  }

  lemma RecordKeepsUnion(fields: seq<Field>, m: Msg, tag: nat, wireType: nat, s: bytes, union: nat)
    requires forall i | 0 <= i < |fields| && fields[i].rule == OneOf(union) :: fields[i].tag != tag
    requires DecRecord(fields, m, tag, wireType, s).Some?
    ensures Which(DecRecord(fields, m, tag, wireType, s).value.m, union) == Which(m, union)
  {
  }

  /** A oneof none of whose tags is on a record keeps its which_. */
  lemma {:induction false} UnreadUnionKept(fields: seq<Field>, m: Msg, seen: set<nat>, s: bytes, union: nat)
    requires DecLoop(fields, m, seen, s).Some?
    requires forall i | 0 <= i < |fields| && fields[i].rule == OneOf(union) :: fields[i].tag !in TagsRead(fields, m, s)
    ensures Which(DecLoop(fields, m, seen, s).value.m, union) == Which(m, union)
    decreases |s|
  {
    if s != [] {
      var t := DecodeTag(s);
      if t.Tag? {
        var u := DecRecord(fields, m, t.tag, t.wireType, t.rest).value;
        RecordKeepsUnion(fields, m, t.tag, t.wireType, t.rest, union);
        UnreadUnionKept(fields, u.m, Mark(fields, seen, t.tag), u.rest, union);
      }
    }
  }

  /** After pb_decode, a field with no record holds its default, and a oneof with none is unset. */
  lemma UnreadHoldsDefault(fields: seq<Field>, dest: Msg, s: bytes)
    requires Described(fields) && ShapedMsg(fields, dest) && DecMsg(fields, dest, s).Some?
    ensures var r := DecMsg(fields, dest, s).value.m;
            var read := TagsRead(fields, SetDefaults(fields, dest), s);
            && |r.slots| == |fields|
            && (forall i | 0 <= i < |fields| && fields[i].tag !in read :: InitialSlot(fields[i], r.slots[i]))
            && forall u: nat {:trigger Which(r, u)} ::
                 (forall i | 0 <= i < |fields| && fields[i].rule == OneOf(u) :: fields[i].tag !in read) ==> Which(r, u) == 0
  {
    var start, r := SetDefaults(fields, dest), DecMsg(fields, dest, s).value.m;
    var read := TagsRead(fields, start, s);
    DefaultsInitialise(fields, dest);
    DefaultsFresh(fields, dest);
    LoopShaped(fields, start, {}, s);
    forall i | 0 <= i < |fields| && fields[i].tag !in read ensures InitialSlot(fields[i], r.slots[i]) {
      UnreadKept(fields, start, {}, s, i);
    }
    forall u: nat | forall i | 0 <= i < |fields| && fields[i].rule == OneOf(u) :: fields[i].tag !in read
      ensures Which(r, u) == 0
    {
      UnreadUnionKept(fields, start, {}, s, u);
      assert Which(start, u) == 0;
    }
  }
}
