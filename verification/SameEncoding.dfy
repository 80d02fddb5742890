/** The encoder writes content and nothing else: two sound structs have the same encoding iff they hold the same message. */
module SameEncoding {
  import opened Slices
  import opened Schema
  import opened WireFormat
  import opened WireDecode
  import opened Soundness
  import opened MessageRoundTrip
  import opened Words

  // ---- The same message has one encoding ----

  lemma TextIsEmpty(s: bytes)
    ensures s == [] || s[0] == 0 <==> s[..StrLen(s)] == []
  {
  }

  lemma {:induction false} SameValEncodes(f: Field, a: Val, b: Val)
    requires SoundVal(f, a) && SoundVal(f, b) && SameVal(f, a, b)
    ensures EncVal(f, a) == EncVal(f, b) && IsDefault(f, a) == IsDefault(f, b)
    decreases f, 0
  {
    match f.kind
    case Submessage(fields) => SameEncodes(fields, a.m, b.m);
    case String =>
      TextIsEmpty(a.data);
      TextIsEmpty(b.data);
    case _ =>
  }

  lemma {:induction false} SameItemsEncode(f: Field, a: seq<Val>, b: seq<Val>, n: nat)
    requires n <= |a| && n <= |b|
    requires forall k | 0 <= k < n :: SoundVal(f, a[k]) && SoundVal(f, b[k]) && SameVal(f, a[k], b[k])
    ensures EncItems(f, a, n) == EncItems(f, b, n) && EncTaggedItems(f, a, n) == EncTaggedItems(f, b, n)
    decreases f, 1, n
  {
    if n > 0 {
      SameItemsEncode(f, a, b, n - 1);
      SameValEncodes(f, a[n - 1], b[n - 1]);
    }
  }

  lemma {:induction false} SameSlotEncodes(f: Field, a: Slot, b: Slot, which: nat)
    requires SoundSlot(f, a, which) && SoundSlot(f, b, which) && SameSlot(f, a, b, which)
    ensures EncField(f, a, which) == EncField(f, b, which) && IsDefaultSlot(f, a, which) == IsDefaultSlot(f, b, which)
    decreases f, 2
  {
    match f.rule
    case Repeated => SameItemsEncode(f, a.items, b.items, a.count);
    case Optional =>
      if a.has {
        SameValEncodes(f, a.v, b.v);
      }
    case OneOf(_) =>
      if which == f.tag {
        SameValEncodes(f, a.v, b.v);
      }
    case _ => SameValEncodes(f, a.v, b.v);
  }

  lemma {:induction false} SamePrefixEncodes(fields: seq<Field>, a: Msg, b: Msg, n: nat)
    requires SoundMsg(fields, a) && SoundMsg(fields, b) && SameMsg(fields, a, b) && n <= |fields|
    ensures EncPrefix(fields, a, n) == EncPrefix(fields, b, n)
    decreases fields, 0, n
  {
    if n > 0 {
      SamePrefixEncodes(fields, a, b, n - 1);
      SameSlotEncodes(fields[n - 1], a.slots[n - 1], b.slots[n - 1], UnionTag(fields[n - 1], b));
    }
  }

  lemma {:induction false} SameEncodes(fields: seq<Field>, a: Msg, b: Msg)
    requires SoundMsg(fields, a) && SoundMsg(fields, b) && SameMsg(fields, a, b)
    ensures EncMsg(fields, a) == EncMsg(fields, b) && IsDefaultMsg(fields, a) == IsDefaultMsg(fields, b)
    decreases fields, 1
  {
    SamePrefixEncodes(fields, a, b, |fields|);
    forall i | 0 <= i < |fields|
      ensures IsDefaultSlot(fields[i], SlotAt(a, i), UnionTag(fields[i], a)) ==
              IsDefaultSlot(fields[i], SlotAt(b, i), UnionTag(fields[i], b))
    {
      SameSlotEncodes(fields[i], a.slots[i], b.slots[i], UnionTag(fields[i], b));
    }
  }

  // ---- One encoding is one message ----

  lemma {:induction false} SameValFrom(f: Field, r: Val, a: Val, b: Val)
    requires SameVal(f, r, a) && SameVal(f, r, b)
    ensures SameVal(f, a, b)
    decreases f, 0
  {
    if f.kind.Submessage? {
      SameFrom(f.kind.fields, r.m, a.m, b.m);
    }
  }

  lemma {:induction false} SameSlotFrom(f: Field, r: Slot, a: Slot, b: Slot, which: nat)
    requires SameSlot(f, r, a, which) && SameSlot(f, r, b, which)
    ensures SameSlot(f, a, b, which)
    decreases f, 1
  {
    if f.rule.Repeated? {
      forall k | 0 <= k < a.count ensures SameVal(f, a.items[k], b.items[k]) {
        SameValFrom(f, r.items[k], a.items[k], b.items[k]);
      }
    } else if (f.rule.Optional? ==> a.has) && (f.rule.OneOf? ==> which == f.tag) {
      SameValFrom(f, r.v, a.v, b.v);
    }
  }

  /** Two structs that hold the same message as a third hold the same message. */
  lemma {:induction false} SameFrom(fields: seq<Field>, r: Msg, a: Msg, b: Msg)
    requires SameMsg(fields, r, a) && SameMsg(fields, r, b)
    ensures SameMsg(fields, a, b)
    decreases fields, 1
  {
    forall i | 0 <= i < |fields| ensures SameSlot(fields[i], a.slots[i], b.slots[i], UnionTag(fields[i], b)) {
      assert UnionTag(fields[i], r) == UnionTag(fields[i], a);
      assert UnionTag(fields[i], r) == UnionTag(fields[i], b);
      SameSlotFrom(fields[i], r.slots[i], a.slots[i], b.slots[i], UnionTag(fields[i], b));
    }
    assert forall i | 0 <= i < |fields| :: UnionTag(fields[i], a) == UnionTag(fields[i], r);
  }

  /** For sound structs, with an encoding below 4 GB: equal encodings, equal messages, and back. */
  lemma SameMessageIff(fields: seq<Field>, a: Msg, b: Msg)
    requires WfFields(fields) && SoundMsg(fields, a) && SoundMsg(fields, b)
    ensures SameMsg(fields, a, b) ==> EncMsg(fields, a) == EncMsg(fields, b)
    ensures EncMsg(fields, a).Some? && |EncMsg(fields, a).value| < TWO_32 ==>
              (EncMsg(fields, a) == EncMsg(fields, b) <==> SameMsg(fields, a, b))
  {
    if SameMsg(fields, a, b) {
      SameEncodes(fields, a, b);
    } else if EncMsg(fields, a).Some? && |EncMsg(fields, a).value| < TWO_32 && EncMsg(fields, a) == EncMsg(fields, b) {
      OneEncodingOneMessage(fields, a, b);
    }
  }

  lemma OneEncodingOneMessage(fields: seq<Field>, a: Msg, b: Msg)
    requires WfFields(fields) && SoundMsg(fields, a) && SoundMsg(fields, b) && EncMsg(fields, a) == EncMsg(fields, b)
    requires EncMsg(fields, a).Some? && |EncMsg(fields, a).value| < TWO_32
    ensures SameMsg(fields, a, b)
  {
    var dest := ZeroMsg(fields);
    ZeroShaped(fields);
    EncodeDecodeRoundTrip(fields, a, dest);
    EncodeDecodeRoundTrip(fields, b, dest);
    SameFrom(fields, DecMsg(fields, dest, EncMsg(fields, a).value).value.m, a, b);
  }
}
