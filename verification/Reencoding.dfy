/**
 What the decoder accepts, the encoder can write: from any bytes at all, decoding leaves only numbers
 in range, counts within their arrays, terminated strings and valid oneof tags.
 */
module Reencoding {
  import opened Slices
  import V = Varints
  import opened LittleEndian
  import opened Schema
  import opened WireFormat
  import opened WireDecode
  import opened Soundness
  import opened MessageRoundTrip
  import RT = RoundTrip
  import DL = DecodeLaws
  import opened DecodeShape
  import opened Words

  /** Default values are themselves sound, and there is room for a terminator. */
  ghost predicate SafeDefault(f: Field)
    decreases f, 0
  {
    match f.kind
    case Submessage(fields) => SafeDefaults(fields)
    case _ => (f.initial.Some? ==> SoundVal(f, f.initial.value)) && (f.kind.String? ==> f.dataSize > 0)
  }

  ghost predicate SafeDefaults(fields: seq<Field>)
    decreases fields, 1
  {
    forall i | 0 <= i < |fields| :: SafeDefault(fields[i])
  }

  /** Sound, and an absent optional holds a sound value as well, since a later record is merged into it. */
  ghost predicate SafeVal(f: Field, v: Val)
    decreases f, 0
  {
    if f.kind.Submessage? then v.Sub? && SafeMsg(f.kind.fields, v.m) else SoundVal(f, v)
  }

  ghost predicate SafeSlot(f: Field, slot: Slot, which: nat)
    decreases f, 1
  {
    match f.rule
    case Repeated =>
      && slot.Rep? && slot.count <= f.arraySize && slot.count <= |slot.items|
      && forall k | 0 <= k < slot.count :: SafeVal(f, slot.items[k])
    case OneOf(_) => slot.One? && (which == f.tag ==> SafeVal(f, slot.v))
    case Optional => slot.Opt? && SafeVal(f, slot.v)
    case _ => slot.One? && SafeVal(f, slot.v)
  }

  ghost predicate SafeMsg(fields: seq<Field>, m: Msg)
    decreases fields, 0
  {
    && ShapedMsg(fields, m)
    && (forall i | 0 <= i < |fields| :: SafeSlot(fields[i], m.slots[i], UnionTag(fields[i], m)))
    && (forall i | 0 <= i < |fields| :: fields[i].rule.OneOf? ==> SoundUnion(fields, m, fields[i].rule.union))
  }

  lemma {:induction false} SafeValIsSound(f: Field, v: Val)
    requires SafeVal(f, v)
    ensures SoundVal(f, v)
    decreases f, 0
  {
    if f.kind.Submessage? {
      SafeIsSound(f.kind.fields, v.m);
    }
  }

  lemma {:induction false} SafeIsSound(fields: seq<Field>, m: Msg)
    requires SafeMsg(fields, m)
    ensures SoundMsg(fields, m)
    decreases fields, 1
  {
    forall i | 0 <= i < |fields| ensures SoundSlot(fields[i], m.slots[i], UnionTag(fields[i], m)) {
      var f, slot := fields[i], m.slots[i];
      assert SafeSlot(f, slot, UnionTag(f, m));
      if f.rule.Repeated? {
        forall k | 0 <= k < slot.count ensures SoundVal(f, slot.items[k]) {
          SafeValIsSound(f, slot.items[k]);
        }
      } else if !f.rule.OneOf? || UnionTag(f, m) == f.tag {
        SafeValIsSound(f, slot.v);
      }
    }
  }

  // ---- Values ----

  lemma IntSound(f: Field, value: nat)
    requires f.kind.Varint? || f.kind.UVarint? || f.kind.SVarint?
    requires StoreInt(f, value).Some?
    ensures SoundVal(f, StoreInt(f, value).value)
  {
    DL.StoreIff(f, value, StoreInt(f, value).value.n);
  }

  lemma FixedSound(n: nat, s: bytes)
    requires n <= |s|
    ensures 0 <= DecodeLE(s[..n]) < Pow256(n)
  {
    FixedDecode(s[..n]);
  }

  /** A zero inside the buffer ends the text. */
  lemma Terminated(s: bytes, k: nat)
    requires k < |s| && s[k] == 0
    ensures StrLen(s) < |s|
  {
  }

  lemma BytesSound(f: Field, prior: Val, size: nat, s: bytes)
    requires (f.kind.Bytes? || f.kind.String? || f.kind.FixedBytes?) && Shaped(f, prior)
    requires StoreBytes(f, prior, size, s).Some?
    ensures SoundVal(f, StoreBytes(f, prior, size, s).value.v)
  {
    if f.kind.String? {
      var text := StoreBytes(f, prior, size, s).value.v.data;
      assert text[size] == 0;
      Terminated(text, size);
    }
  }

  lemma ScalarSound(f: Field, prior: Val, s: bytes)
    requires Shaped(f, prior) && !f.kind.Submessage? && DecScalar(f, prior, s).Some?
    ensures SoundVal(f, DecScalar(f, prior, s).value.v)
  {
    match f.kind
    case Fixed32 =>
      FixedSound(4, s);
      RT.Pow256Of4();
    case Fixed64 =>
      FixedSound(8, s);
      Pow256Of8();
    case Bytes => BytesSound(f, prior, V.DecodeVarint32(s).value.value, V.DecodeVarint32(s).value.rest);
    case String => BytesSound(f, prior, V.DecodeVarint32(s).value.value, V.DecodeVarint32(s).value.rest);
    case FixedBytes => BytesSound(f, prior, V.DecodeVarint32(s).value.value, V.DecodeVarint32(s).value.rest);
    case Varint => IntSound(f, V.DecodeVarint(s).value.value);
    case UVarint => IntSound(f, V.DecodeVarint(s).value.value);
    case SVarint => IntSound(f, V.DecodeVarint(s).value.value);
  }

  lemma {:induction false} PackedSafe(f: Field, count: nat, items: seq<Val>, s: bytes)
    requires Packable(f.kind) && f.rule.Repeated? && ShapedSlot(f, Rep(count, items)) && SafeSlot(f, Rep(count, items), 0)
    requires DecPacked(f, count, items, s).Some?
    ensures SafeSlot(f, DecPacked(f, count, items, s).value, 0)
    decreases |s|
  {
    if s != [] {
      var r := DecScalar(f, items[count], s).value;
      assert items[count] in items;
      ScalarShaped(f, items[count], s);
      ScalarSound(f, items[count], s);
      PackedSafe(f, count + 1, items[count := r.v], r.rest);
    }
  }

  // ---- Defaults ----

  lemma ZeroSound(f: Field)
    requires WfField(f) && SafeDefault(f) && !f.kind.Submessage?
    ensures SoundVal(f, ZeroVal(f))
  {
    if f.kind.String? {
      Terminated(Zeros(f.dataSize), 0);
    }
  }

  lemma {:induction false} DefaultValSafe(f: Field, v: Val)
    requires WfField(f) && SafeDefault(f) && Shaped(f, v)
    ensures SafeVal(f, DefaultVal(f, v))
    decreases f, 0
  {
    if f.kind.Submessage? {
      DefaultsSafe(f.kind.fields, v.m);
    } else {
      ZeroSound(f);
    }
  }

  /** A struct set to defaults is safe, whatever it held. */
  lemma {:induction false} DefaultsSafe(fields: seq<Field>, m: Msg)
    requires WfFields(fields) && SafeDefaults(fields) && ShapedMsg(fields, m)
    ensures SafeMsg(fields, SetDefaults(fields, m))
    decreases fields, 1
  {
    var d := SetDefaults(fields, m);
    DefaultsFresh(fields, m);
    forall i | 0 <= i < |fields| ensures SafeSlot(fields[i], d.slots[i], UnionTag(fields[i], d)) {
      assert WfField(fields[i]) && DescribedField(fields[i]) && SafeDefault(fields[i]);
      assert ShapedSlot(fields[i], m.slots[i]) && d.slots[i] == DefaultSlot(fields[i], m.slots[i]);
      if !fields[i].rule.Repeated? && !fields[i].rule.OneOf? {
        DefaultValSafe(fields[i], m.slots[i].v);
      }
    }
  }

  // ---- Decoding ----

  lemma {:induction false} ValSafe(f: Field, prior: Val, s: bytes)
    requires WfField(f) && SafeDefault(f) && Shaped(f, prior) && DecVal(f, prior, s).Some?
    requires f.kind.Submessage? && !f.rule.Repeated? ==> SafeMsg(f.kind.fields, prior.m)
    ensures SafeVal(f, DecVal(f, prior, s).value.v)
    decreases |s|, 0
  {
    if f.kind.Submessage? {
      var fields := f.kind.fields;
      var start := if f.rule.Repeated? then SetDefaults(fields, prior.m) else prior.m;
      if f.rule.Repeated? {
        DefaultsSafe(fields, prior.m);
      }
      LoopSafe(fields, start, {}, MakeSubstream(s).value.body);
    } else {
      ScalarSound(f, prior, s);
    }
  }

  lemma SetSlotSafe(fields: seq<Field>, m: Msg, i: nat, slot: Slot)
    requires SafeMsg(fields, m) && i < |fields| && ShapedSlot(fields[i], slot)
    requires SafeSlot(fields[i], slot, UnionTag(fields[i], m))
    ensures SafeMsg(fields, SetSlot(m, i, slot))
  {
    var now := SetSlot(m, i, slot);
    assert forall u {:trigger Which(now, u)} :: Which(now, u) == Which(m, u);
    forall j | 0 <= j < |fields| && fields[j].rule.OneOf? ensures SoundUnion(fields, now, fields[j].rule.union) {
      assert SoundUnion(fields, m, fields[j].rule.union);
    }
  }

  /** Selecting a oneof member deselects the others. */
  lemma SelectSafe(fields: seq<Field>, m: Msg, i: nat, v: Val)
    requires Described(fields) && SafeMsg(fields, m) && i < |fields| && fields[i].rule.OneOf?
    requires Shaped(fields[i], v) && SafeVal(fields[i], v)
    ensures SafeMsg(fields, SetSlot(m, i, One(v)).(which := m.which[fields[i].rule.union := fields[i].tag]))
  {
    var u := fields[i].rule.union;
    var now := SetSlot(m, i, One(v)).(which := m.which[u := fields[i].tag]);
    assert forall w {:trigger Which(now, w)} :: w != u ==> Which(now, w) == Which(m, w);
    SetSlotShaped(fields, m, i, One(v));
    forall j | 0 <= j < |fields| ensures SafeSlot(fields[j], now.slots[j], UnionTag(fields[j], now)) {
      assert SafeSlot(fields[j], m.slots[j], UnionTag(fields[j], m));
      assert j != i ==> fields[j].tag != fields[i].tag;
    }
    forall j | 0 <= j < |fields| && fields[j].rule.OneOf? ensures SoundUnion(fields, now, fields[j].rule.union) {
      assert SoundUnion(fields, m, fields[j].rule.union);
      assert fields[i].rule == OneOf(u) && fields[i].tag == Which(now, u);
    }
  }

  lemma {:induction false} FieldSafe(fields: seq<Field>, m: Msg, i: nat, wireType: nat, s: bytes)
    requires WfFields(fields) && SafeDefaults(fields) && SafeMsg(fields, m) && i < |fields|
    requires DecField(fields, m, i, wireType, s).Some?
    ensures SafeMsg(fields, DecField(fields, m, i, wireType, s).value.m)
    decreases |s|, 1
  {
    var f, slot := fields[i], m.slots[i];
    assert WfField(f) && DescribedField(f) && SafeDefault(f) && ShapedSlot(f, slot);
    assert SafeSlot(f, slot, UnionTag(f, m));
    match f.rule
    case Repeated =>
      if wireType == WT_STRING && Packable(f.kind) {
        var body := MakeSubstream(s).value.body;
        PackedSafe(f, slot.count, slot.items, body);
        PackedShaped(f, slot.count, slot.items, body);
        SetSlotSafe(fields, m, i, DecPacked(f, slot.count, slot.items, body).value);
      } else {
        assert slot.items[slot.count] in slot.items;
        ValSafe(f, slot.items[slot.count], s);
        ValShaped(f, slot.items[slot.count], s);
        var v := DecVal(f, slot.items[slot.count], s).value.v;
        SetSlotSafe(fields, m, i, Rep(slot.count + 1, slot.items[slot.count := v]));
      }
    case OneOf(u) =>
      StartShaped(f, slot.v);
      var start := Start(f, slot.v);
      if f.kind.Submessage? {
        ZeroShaped(f.kind.fields);
        DefaultsSafe(f.kind.fields, ZeroMsg(f.kind.fields));
      }
      ValSafe(f, start, s);
      ValShaped(f, start, s);
      SelectSafe(fields, m, i, DecVal(f, start, s).value.v);
    case Optional =>
      ValSafe(f, slot.v, s);
      ValShaped(f, slot.v, s);
      SetSlotSafe(fields, m, i, Opt(true, DecVal(f, slot.v, s).value.v));
    case _ =>
      ValSafe(f, slot.v, s);
      ValShaped(f, slot.v, s);
      SetSlotSafe(fields, m, i, One(DecVal(f, slot.v, s).value.v));
  }

  lemma {:induction false} LoopSafe(fields: seq<Field>, m: Msg, seen: set<nat>, s: bytes)
    requires WfFields(fields) && SafeDefaults(fields) && SafeMsg(fields, m) && DecLoop(fields, m, seen, s).Some?
    ensures SafeMsg(fields, DecLoop(fields, m, seen, s).value.m)
    decreases |s|, 3
  {
    if s != [] {
      var t := DecodeTag(s);
      if t.Tag? {
        var i := FindField(fields, t.tag);
        if i < |fields| {
          FieldSafe(fields, m, i, t.wireType, t.rest);
        }
        var u := DecRecord(fields, m, t.tag, t.wireType, t.rest).value;
        LoopSafe(fields, u.m, Mark(fields, seen, t.tag), u.rest);
      }
    }
  }

  /**
   Whatever bytes pb_decode accepts, into whatever struct: pb_encode can write the result, and decoding
   those bytes, into any struct of the layout, gives the same message again.
   */
  lemma DecodedReencodes(fields: seq<Field>, dest: Msg, s: bytes, other: Msg)
    requires WfFields(fields) && SafeDefaults(fields) && ShapedMsg(fields, dest) && ShapedMsg(fields, other)
    requires DecMsg(fields, dest, s).Some?
    ensures var m := DecMsg(fields, dest, s).value.m;
            && SoundMsg(fields, m) && EncMsg(fields, m).Some?
            && (|EncMsg(fields, m).value| < TWO_32 ==>
                  var r := DecMsg(fields, other, EncMsg(fields, m).value);
                  r.Some? && r.value.rest == [] && SameMsg(fields, r.value.m, m))
  {
    var m := DecMsg(fields, dest, s).value.m;
    DefaultsSafe(fields, dest);
    LoopSafe(fields, SetDefaults(fields, dest), {}, s);
    SafeIsSound(fields, m);
    EncodeDecodeRoundTrip(fields, m, other);
  }
}
