/** Whatever the input, decoding keeps a struct's layout: array lengths, buffer sizes, nesting, unions. */
module DecodeShape {
  import opened Slices
  import V = Varints
  import opened Schema
  import opened WireFormat
  import opened WireDecode
  import opened Soundness

  lemma BytesShaped(f: Field, prior: Val, size: nat, s: bytes)
    requires Shaped(f, prior) && (f.kind.Bytes? || f.kind.String? || f.kind.FixedBytes?)
    requires StoreBytes(f, prior, size, s).Some?
    ensures Shaped(f, StoreBytes(f, prior, size, s).value.v)
  {
  }

  lemma IntShaped(f: Field, s: bytes)
    requires (f.kind.Varint? || f.kind.UVarint? || f.kind.SVarint?) && DecInt(f, s).Some?
    ensures Shaped(f, DecInt(f, s).value.v)
  {
  }

  lemma ScalarShaped(f: Field, prior: Val, s: bytes)
    requires Shaped(f, prior) && !f.kind.Submessage? && DecScalar(f, prior, s).Some?
    ensures Shaped(f, DecScalar(f, prior, s).value.v)
  {
    if f.kind.Bytes? || f.kind.String? || f.kind.FixedBytes? {
      var d := V.DecodeVarint32(s).value;
      BytesShaped(f, prior, d.value, d.rest);
    } else if !f.kind.Fixed32? && !f.kind.Fixed64? {
      IntShaped(f, s);
    }
  }

  lemma {:induction false} PackedShaped(f: Field, count: nat, items: seq<Val>, s: bytes)
    requires Packable(f.kind) && f.rule.Repeated? && ShapedSlot(f, Rep(count, items))
    requires DecPacked(f, count, items, s).Some?
    ensures ShapedSlot(f, DecPacked(f, count, items, s).value)
    decreases |s|
  {
    if s != [] {
      var r := DecScalar(f, items[count], s).value;
      assert items[count] in items;
      ScalarShaped(f, items[count], s);
      PackedShaped(f, count + 1, items[count := r.v], r.rest);
    }
  }

  lemma {:induction false} ValShaped(f: Field, prior: Val, s: bytes)
    requires DescribedField(f) && Shaped(f, prior) && DecVal(f, prior, s).Some?
    ensures Shaped(f, DecVal(f, prior, s).value.v)
    decreases |s|, 0
  {
    if f.kind.Submessage? {
      var fields := f.kind.fields;
      var start := if f.rule.Repeated? then SetDefaults(fields, prior.m) else prior.m;
      if f.rule.Repeated? {
        DefaultsFresh(fields, prior.m);
      }
      LoopShaped(fields, start, {}, MakeSubstream(s).value.body);
    } else {
      ScalarShaped(f, prior, s);
    }
  }

  lemma SetSlotShaped(fields: seq<Field>, m: Msg, i: nat, slot: Slot)
    requires ShapedMsg(fields, m) && i < |fields| && ShapedSlot(fields[i], slot)
    ensures ShapedMsg(fields, SetSlot(m, i, slot))
  {
  }

  lemma {:induction false} FieldShaped(fields: seq<Field>, m: Msg, i: nat, wireType: nat, s: bytes)
    requires Described(fields) && ShapedMsg(fields, m) && i < |fields| && DecField(fields, m, i, wireType, s).Some?
    ensures ShapedMsg(fields, DecField(fields, m, i, wireType, s).value.m)
    decreases |s|, 1
  {
    var f, slot := fields[i], m.slots[i];
    assert DescribedField(f) && ShapedSlot(f, slot);
    match f.rule
    case Repeated =>
      if wireType == WT_STRING && Packable(f.kind) {
        var body := MakeSubstream(s).value.body;
        PackedShaped(f, slot.count, slot.items, body);
        SetSlotShaped(fields, m, i, DecPacked(f, slot.count, slot.items, body).value);
      } else {
        assert slot.items[slot.count] in slot.items;
        ValShaped(f, slot.items[slot.count], s);
        var v := DecVal(f, slot.items[slot.count], s).value.v;
        SetSlotShaped(fields, m, i, Rep(slot.count + 1, slot.items[slot.count := v]));
      }
    case OneOf(u) =>
      StartShaped(f, slot.v);
      var start := Start(f, slot.v);
      ValShaped(f, start, s);
      SetSlotShaped(fields, m, i, One(DecVal(f, start, s).value.v));
    case Optional =>
      ValShaped(f, slot.v, s);
      SetSlotShaped(fields, m, i, Opt(true, DecVal(f, slot.v, s).value.v));
    case _ =>
      ValShaped(f, slot.v, s);
      SetSlotShaped(fields, m, i, One(DecVal(f, slot.v, s).value.v));
  }

  lemma StartShaped(f: Field, v: Val)
    requires DescribedField(f) && Shaped(f, v)
    ensures Shaped(f, Start(f, v))
  {
    if f.kind.Submessage? {
      ZeroShaped(f.kind.fields);
      DefaultsFresh(f.kind.fields, ZeroMsg(f.kind.fields));
    }
  }

  lemma {:induction false} RecordShaped(fields: seq<Field>, m: Msg, tag: nat, wireType: nat, s: bytes)
    requires Described(fields) && ShapedMsg(fields, m) && DecRecord(fields, m, tag, wireType, s).Some?
    ensures ShapedMsg(fields, DecRecord(fields, m, tag, wireType, s).value.m)
    decreases |s|, 2
  {
    var i := FindField(fields, tag);
    if i < |fields| {
      FieldShaped(fields, m, i, wireType, s);
    }
  }

  lemma {:induction false} LoopShaped(fields: seq<Field>, m: Msg, seen: set<nat>, s: bytes)
    requires Described(fields) && ShapedMsg(fields, m) && DecLoop(fields, m, seen, s).Some?
    ensures ShapedMsg(fields, DecLoop(fields, m, seen, s).value.m)
    decreases |s|, 3
  {
    if s != [] {
      var t := DecodeTag(s);
      if t.Tag? {
        RecordShaped(fields, m, t.tag, t.wireType, t.rest);
        var u := DecRecord(fields, m, t.tag, t.wireType, t.rest).value;
        LoopShaped(fields, u.m, Mark(fields, seen, t.tag), u.rest);
      }
    }
  }
}
