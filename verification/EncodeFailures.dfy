/** Exactly when pb_encode fails, on a sizing stream or with room to spare. */
module EncodeFailures {
  import opened Slices
  import opened Schema
  import opened WireFormat
  import opened Soundness
  import opened Storage

  /** Integers of one, two, four or eight bytes; byte counts within the member. */
  ghost predicate EncodableVal(f: Field, v: Val)
    decreases f, 0
  {
    match f.kind
    case Varint => f.dataSize == 1 || f.dataSize == 2 || f.dataSize == 4 || f.dataSize == 8
    case UVarint => f.dataSize == 1 || f.dataSize == 2 || f.dataSize == 4 || f.dataSize == 8
    case SVarint => f.dataSize == 1 || f.dataSize == 2 || f.dataSize == 4 || f.dataSize == 8
    case Bytes => v.Blob? && v.size <= |v.data|
    case Submessage(fields) => v.Sub? && EncodableMsg(fields, v.m)
    case _ => true
  }

  /** What is sent has to be encodable, and counts within their arrays. */
  ghost predicate EncodableSlot(f: Field, slot: Slot, which: nat)
    decreases f, 1
  {
    match f.rule
    case Required => slot.One? && EncodableVal(f, slot.v)
    case Optional => slot.Opt? && (slot.has ==> EncodableVal(f, slot.v))
    case Singular => slot.One? && (!IsDefault(f, slot.v) ==> EncodableVal(f, slot.v))
    case OneOf(_) => slot.One? && (which == f.tag ==> EncodableVal(f, slot.v))
    case Repeated =>
      && slot.Rep? && slot.count <= f.arraySize && slot.count <= |slot.items|
      && forall k | 0 <= k < slot.count :: EncodableVal(f, slot.items[k])
  }

  ghost predicate EncodableMsg(fields: seq<Field>, m: Msg)
    decreases fields, 0
  {
    && |m.slots| == |fields|
    && forall i | 0 <= i < |fields| :: EncodableSlot(fields[i], m.slots[i], UnionTag(fields[i], m))
  }

  lemma {:induction false} ValEncodesIff(f: Field, v: Val)
    requires Stored(f, v)
    ensures EncVal(f, v).Some? <==> EncodableVal(f, v)
    decreases f, 0
  {
    if f.kind.Submessage? {
      EncodesIff(f.kind.fields, v.m);
    }
  }

  lemma {:induction false} ItemsEncodeIff(f: Field, items: seq<Val>, n: nat)
    requires n <= |items| && forall k | 0 <= k < n :: Stored(f, items[k])
    ensures EncItems(f, items, n).Some? <==> forall k | 0 <= k < n :: EncodableVal(f, items[k])
    ensures EncTaggedItems(f, items, n).Some? <==> forall k | 0 <= k < n :: EncodableVal(f, items[k])
    decreases f, 1, n
  {
    if n > 0 {
      ItemsEncodeIff(f, items, n - 1);
      ValEncodesIff(f, items[n - 1]);
    }
  }

  lemma {:induction false} SlotEncodesIff(f: Field, slot: Slot, which: nat)
    requires StoredSlot(f, slot)
    ensures EncField(f, slot, which).Some? <==> EncodableSlot(f, slot, which)
    decreases f, 2
  {
    if f.rule.Repeated? {
      if slot.count <= |slot.items| {
        assert forall k | 0 <= k < slot.count :: slot.items[k] in slot.items;
        ItemsEncodeIff(f, slot.items, slot.count);
      }
    } else {
      ValEncodesIff(f, slot.v);
    }
  }

  lemma {:induction false} PrefixEncodesIff(fields: seq<Field>, m: Msg, n: nat)
    requires StoredMsg(fields, m) && n <= |fields|
    ensures EncPrefix(fields, m, n).Some? <==>
            forall i | 0 <= i < n :: EncodableSlot(fields[i], m.slots[i], UnionTag(fields[i], m))
    decreases fields, 0, n
  {
    if n > 0 {
      PrefixEncodesIff(fields, m, n - 1);
      SlotEncodesIff(fields[n - 1], m.slots[n - 1], UnionTag(fields[n - 1], m));
    }
  }

  /**
   A struct of C's types encodes iff nothing that would be sent has an impossible integer width or a byte
   count past its member, and no count exceeds its array, at every level.
   */
  lemma {:induction false} EncodesIff(fields: seq<Field>, m: Msg)
    requires StoredMsg(fields, m)
    ensures EncMsg(fields, m).Some? <==> EncodableMsg(fields, m)
    decreases fields, 1
  {
    PrefixEncodesIff(fields, m, |fields|);
  }
}
