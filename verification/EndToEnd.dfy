/**
 From a struct through a buffer into another struct. What C's types give (StoredMsg) and what the
 application adds (TidyMsg) are together what the round trip asks for (SoundMsg).
 */
module EndToEnd {
  import opened Slices
  import opened Words
  import opened Schema
  import opened WireFormat
  import opened Soundness
  import opened Storage
  import opened MessageRoundTrip
  import opened Encoder
  import opened Decoder
  import opened IStreams

  /** Byte counts within their buffers, and strings terminated inside theirs. */
  ghost predicate TidyVal(f: Field, v: Val)
    decreases f, 0
  {
    match f.kind
    case Bytes => v.Blob? && v.size <= |v.data|
    case String => v.Chars? && StrLen(v.data) < |v.data|
    case Submessage(fields) => v.Sub? && TidyMsg(fields, v.m)
    case _ => true
  }

  /** Of what is present. */
  ghost predicate TidySlot(f: Field, slot: Slot, which: nat)
    decreases f, 1
  {
    match f.rule
    case Optional => slot.Opt? && (slot.has ==> TidyVal(f, slot.v))
    case OneOf(_) => slot.One? && (which == f.tag ==> TidyVal(f, slot.v))
    case Repeated =>
      slot.Rep? && slot.count <= |slot.items| && forall k | 0 <= k < slot.count :: TidyVal(f, slot.items[k])
    case _ => slot.One? && TidyVal(f, slot.v)
  }

  /** And every which_ is zero or a member's tag. */
  ghost predicate TidyMsg(fields: seq<Field>, m: Msg)
    decreases fields, 0
  {
    && |m.slots| == |fields|
    && (forall i | 0 <= i < |fields| :: TidySlot(fields[i], m.slots[i], UnionTag(fields[i], m)))
    && (forall i | 0 <= i < |fields| :: fields[i].rule.OneOf? ==> SoundUnion(fields, m, fields[i].rule.union))
  }

  lemma {:induction false} StoredValSound(f: Field, v: Val)
    requires WfField(f) && Stored(f, v)
    ensures SoundVal(f, v) <==> TidyVal(f, v)
    decreases f, 0
  {
    if f.kind.Submessage? {
      StoredIsSound(f.kind.fields, v.m);
    }
  }

  lemma {:induction false} StoredSlotSound(f: Field, slot: Slot, which: nat)
    requires WfField(f) && StoredSlot(f, slot)
    ensures SoundSlot(f, slot, which) <==> TidySlot(f, slot, which)
    decreases f, 1
  {
    if f.rule.Repeated? {
      forall k | 0 <= k < |slot.items| ensures SoundVal(f, slot.items[k]) <==> TidyVal(f, slot.items[k]) {
        StoredValSound(f, slot.items[k]);
      }
    } else {
      StoredValSound(f, slot.v);
    }
  }

  /** On a struct of C's making, sound is exactly tidy. */
  lemma {:induction false} StoredIsSound(fields: seq<Field>, m: Msg)
    requires WfFields(fields) && StoredMsg(fields, m)
    ensures SoundMsg(fields, m) <==> TidyMsg(fields, m)
    decreases fields, 1
  {
    forall i | 0 <= i < |fields|
      ensures SoundSlot(fields[i], m.slots[i], UnionTag(fields[i], m)) <==>
              TidySlot(fields[i], m.slots[i], UnionTag(fields[i], m))
    {
      StoredSlotSound(fields[i], m.slots[i], UnionTag(fields[i], m));
    }
  }

  /**
   pb_encode into a buffer and pb_decode of what was written: the message is sent iff it fits in the
   capacity, and then, below 4 GB, the receiver accepts it, reads all of it and holds the same message.
   */
  method EncodeThenDecode(buf: array<byte>, capacity: nat, fields: seq<Field>, m: Msg, dest: Msg)
    returns (sent: bool, size: nat, received: bool, r: Msg, left: nat)
    requires capacity <= buf.Length && WfFields(fields)
    requires StoredMsg(fields, m) && TidyMsg(fields, m) && ShapedMsg(fields, dest)
    modifies buf
    ensures EncMsg(fields, m).Some? && (sent <==> |EncMsg(fields, m).value| <= capacity)
    ensures sent ==> size == |EncMsg(fields, m).value|
    ensures sent && size < TWO_32 ==> received && SameMsg(fields, r, m) && left == 0
    ensures buf[capacity..] == old(buf[capacity..])
  {
    StoredIsSound(fields, m);
    EncodeDecodeRoundTrip(fields, m, dest);
    received, r, left := false, dest, 0;
    sent, size := EncodeToBuffer(buf, capacity, fields, m);
    if sent {
      var stream := new IStream(buf[..size], 0, size);
      assert stream.Rest() == buf[..size];
      ghost var depth;
      received, r, depth := Decode(stream, fields, dest);
      left := stream.bytesLeft;
    }
  }
}
