/** Proto3: exactly which fields pb_encode leaves out as holding their zero value. */
module ZeroOmitted {
  import opened Slices
  import opened Schema
  import opened WireFormat
  import opened Soundness

  /**
   The types whose zero is left out at all. Fixed-length bytes are always sent, unless their length is
   zero, and so is a submessage that has a required field or such a field somewhere below.
   */
  ghost predicate Omissible(f: Field)
    decreases f, 0
  {
    match f.kind
    case FixedBytes => f.dataSize == 0
    case Submessage(fields) => OmissibleAll(fields)
    case _ => true
  }

  ghost predicate OmissibleAll(fields: seq<Field>)
    decreases fields, 1
  {
    forall i | 0 <= i < |fields| :: !fields[i].rule.Required? && (fields[i].rule.Singular? ==> Omissible(fields[i]))
  }

  lemma ZeroText(s: bytes, n: nat)
    ensures s == [] || s[0] == 0 <==> s[..StrLen(s)] == Zeros(n)[..StrLen(Zeros(n))]
  {
    assert StrLen(Zeros(n)) == 0;
  }

  lemma {:induction false} DefaultValIff(f: Field, v: Val)
    requires WfField(f) && SoundVal(f, v)
    ensures IsDefault(f, v) <==> Omissible(f) && SameVal(f, v, ZeroVal(f))
    decreases f, 0
  {
    match f.kind
    case Submessage(fields) => DefaultMsgIff(fields, v.m);
    case String => ZeroText(v.data, f.dataSize);
    case Bytes => assert v.size == 0 ==> v.data[..0] == Zeros(f.dataSize - BYTES_OFFSET)[..0];
    case FixedBytes => assert f.dataSize == 0 ==> v.data == Zeros(0);
    case _ =>
  }

  lemma {:induction false} DefaultSlotIff(f: Field, slot: Slot, which: nat)
    requires WfField(f) && SoundSlot(f, slot, which)
    ensures IsDefaultSlot(f, slot, which) <==>
            && !f.rule.Required? && (f.rule.Singular? ==> Omissible(f))
            && SameSlot(f, slot, ZeroSlot(f), 0) && (f.rule.OneOf? ==> which == 0)
    decreases f, 1
  {
    if f.rule.Singular? {
      DefaultValIff(f, slot.v);
    }
  }

  lemma {:induction false} DefaultMsgIff(fields: seq<Field>, m: Msg)
    requires WfFields(fields) && SoundMsg(fields, m)
    ensures IsDefaultMsg(fields, m) <==> OmissibleAll(fields) && SameMsg(fields, m, ZeroMsg(fields))
    decreases fields, 1
  {
    var zero := ZeroMsg(fields);
    forall i | 0 <= i < |fields|
      ensures SlotAt(m, i) == m.slots[i] && UnionTag(fields[i], zero) == 0 && zero.slots[i] == ZeroSlot(fields[i])
      ensures IsDefaultSlot(fields[i], m.slots[i], UnionTag(fields[i], m)) <==>
              && !fields[i].rule.Required? && (fields[i].rule.Singular? ==> Omissible(fields[i]))
              && SameSlot(fields[i], m.slots[i], zero.slots[i], 0) && UnionTag(fields[i], m) == 0
    {
      DefaultSlotIff(fields[i], m.slots[i], UnionTag(fields[i], m));
    }
  }

  /** A proto3 field is left out iff its type's zero is left out at all and it holds the same as zero. */
  lemma LeftOutIff(f: Field, v: Val, which: nat)
    requires f.rule.Singular? && WfField(f) && SoundVal(f, v)
    ensures EncField(f, One(v), which) == Some([]) <==> Omissible(f) && SameVal(f, v, ZeroVal(f))
  {
    DefaultValIff(f, v);
  }

  /** What that is, type by type: the number zero, no bytes, an empty string. */
  lemma ZeroIs(f: Field, v: Val)
    requires WfField(f) && SoundVal(f, v) && !f.kind.Submessage? && !f.kind.FixedBytes?
    ensures Omissible(f)
    ensures SameVal(f, v, ZeroVal(f)) <==>
            if f.kind.Bytes? then v.size == 0 else if f.kind.String? then v.data[0] == 0 else v.n == 0
  {
    if f.kind.String? {
      ZeroText(v.data, f.dataSize);
    } else if f.kind.Bytes? {
      assert v.size == 0 ==> v.data[..0] == Zeros(f.dataSize - BYTES_OFFSET)[..0];
    }
  }
}
