/** The decoder of nanopb (pb_decode.c), step by step on input streams, with the field iterator and the bitmap. */
module Decoder {
  import opened Slices
  import opened LittleEndian
  import opened Schema
  import opened WireFormat
  import opened WireDecode
  import opened Soundness
  import opened DecodeShape
  import opened Nesting
  import opened Defaults
  import opened FieldIters
  import opened RequiredFields
  import opened IStreams
  import opened Words

  // ---- Single values ----

  /** pb_dec_varint, pb_dec_uvarint and pb_dec_svarint. */
  method DecIntFrom(s: IStream, f: Field) returns (ok: bool, v: Val)
    requires s.Ok()
    modifies s
    ensures s.Ok() && s.End() == old(s.End()) && s.bytesLeft <= old(s.bytesLeft)
    ensures var r := DecInt(f, old(s.Rest()));
            (ok <==> r.Some?) && (ok ==> v == r.value.v && s.Rest() == r.value.rest)
  {
    var value;
    v := Num(0);
    ok, value := DecodeVarint(s);
    if ok {
      var stored := StoreInt(f, value);
      if stored.None? {
        return false, v;
      }
      v := stored.value;
    }
  }

  /** pb_decode_fixed32. */
  method DecodeFixed32(s: IStream) returns (ok: bool, v: Val)
    requires s.Ok()
    modifies s
    ensures s.Ok() && s.End() == old(s.End()) && s.bytesLeft <= old(s.bytesLeft)
    ensures var r := DecFixed(4, old(s.Rest()));
            (ok <==> r.Some?) && (ok ==> v == r.value.v && s.Rest() == r.value.rest)
  {
    var b;
    ok, b := s.Read(4);
    if !ok {
      return false, Num(0);
    }
    FourBytesLE(b);
    v := Num(LittleEndianWord(b[0], b[1], b[2], b[3]));
  }

  /** pb_decode_fixed64. */
  method DecodeFixed64(s: IStream) returns (ok: bool, v: Val)
    requires s.Ok()
    modifies s
    ensures s.Ok() && s.End() == old(s.End()) && s.bytesLeft <= old(s.bytesLeft)
    ensures var r := DecFixed(8, old(s.Rest()));
            (ok <==> r.Some?) && (ok ==> v == r.value.v && s.Rest() == r.value.rest)
  {
    var b;
    ok, b := s.Read(8);
    if !ok {
      return false, Num(0);
    }
    EightBytesLE(b);
    FourBytesLE(b[..4]);
    FourBytesLE(b[4..]);
    v := Num(LittleEndianWord(b[0], b[1], b[2], b[3]) + 0x1_0000_0000 * LittleEndianWord(b[4], b[5], b[6], b[7]));
  }

  /** pb_dec_bytes. */
  method DecBytesFrom(s: IStream, f: Field, prior: Val) returns (ok: bool, v: Val)
    requires s.Ok() && f.kind.Bytes? && Shaped(f, prior)
    modifies s
    ensures s.Ok() && s.End() == old(s.End()) && s.bytesLeft <= old(s.bytesLeft)
    ensures var r := DecBytes(f, prior, old(s.Rest()));
            (ok <==> r.Some?) && (ok ==> v == r.value.v && s.Rest() == r.value.rest)
  {
    var size, data;
    v := prior;
    ok, size := DecodeVarint32(s);
    if !ok {
      return;
    }
    if size > PB_SIZE_MAX || BYTES_OFFSET + size > f.dataSize {
      return false, v;
    }
    ok, data := s.Read(size);
    if ok {
      v := Blob(size, data + prior.data[size..]);
    }
  }

  /** pb_dec_string, with room for the terminator checked in 32 bits. */
  method DecStringFrom(s: IStream, f: Field, prior: Val) returns (ok: bool, v: Val)
    requires s.Ok() && f.kind.String? && Shaped(f, prior)
    modifies s
    ensures s.Ok() && s.End() == old(s.End()) && s.bytesLeft <= old(s.bytesLeft)
    ensures var r := DecBytes(f, prior, old(s.Rest()));
            (ok <==> r.Some?) && (ok ==> v == r.value.v && s.Rest() == r.value.rest)
  {
    var size, data;
    v := prior;
    ok, size := DecodeVarint32(s);
    if !ok {
      return;
    }
    var allocSize := (size + 1) % TWO_32;
    if allocSize < size || allocSize > f.dataSize {
      return false, v;
    }
    TerminatorFits(size, f.dataSize);
    ok, data := s.Read(size);
    if ok {
      v := Chars(data + [0] + prior.data[size + 1..]);
    }
  }

  /** The wrapped size leaves room only when the size did. */
  lemma TerminatorFits(size: nat, dataSize: nat)
    requires size <= (size + 1) % TWO_32 <= dataSize
    ensures size < dataSize
  {
  }

  /** pb_dec_fixed_length_bytes: an empty record means all zeros. */
  method DecFixedLengthBytes(s: IStream, f: Field, prior: Val) returns (ok: bool, v: Val)
    requires s.Ok() && f.kind.FixedBytes? && Shaped(f, prior)
    modifies s
    ensures s.Ok() && s.End() == old(s.End()) && s.bytesLeft <= old(s.bytesLeft)
    ensures var r := DecBytes(f, prior, old(s.Rest()));
            (ok <==> r.Some?) && (ok ==> v == r.value.v && s.Rest() == r.value.rest)
  {
    var size, data;
    v := prior;
    ok, size := DecodeVarint32(s);
    if !ok {
      return;
    }
    if size > PB_SIZE_MAX {
      return false, v;
    }
    if size == 0 {
      return true, Chars(Zeros(f.dataSize));
    }
    if size != f.dataSize {
      return false, v;
    }
    ok, data := s.Read(f.dataSize);
    if ok {
      v := Chars(data);
    }
  }

  /** The decoder that PB_DECODERS holds for a type other than a submessage. */
  method DecScalarFrom(s: IStream, f: Field, prior: Val) returns (ok: bool, v: Val)
    requires s.Ok() && !f.kind.Submessage? && Shaped(f, prior)
    modifies s
    ensures s.Ok() && s.End() == old(s.End()) && s.bytesLeft <= old(s.bytesLeft)
    ensures var r := DecScalar(f, prior, old(s.Rest()));
            (ok <==> r.Some?) && (ok ==> v == r.value.v && s.Rest() == r.value.rest)
  {
    if f.kind.Fixed32? {
      ok, v := DecodeFixed32(s);
    } else if f.kind.Fixed64? {
      ok, v := DecodeFixed64(s);
    } else if f.kind.Bytes? {
      ok, v := DecBytesFrom(s, f, prior);
    } else if f.kind.String? {
      ok, v := DecStringFrom(s, f, prior);
    } else if f.kind.FixedBytes? {
      ok, v := DecFixedLengthBytes(s, f, prior);
    } else {
      ok, v := DecIntFrom(s, f);
    }
  }

  /** The packed branch of decode_static_field, on the substream. */
  method DecodePacked(sub: IStream, f: Field, count0: nat, items0: seq<Val>)
    returns (ok: bool, count: nat, items: seq<Val>)
    requires sub.Ok() && Packable(f.kind) && f.rule.Repeated? && ShapedSlot(f, Rep(count0, items0))
    modifies sub
    ensures sub.Ok() && sub.End() == old(sub.End())
    ensures var r := DecPacked(f, count0, items0, old(sub.Rest()));
            (ok <==> r.Some?) && (ok ==> r.value == Rep(count, items))
  {
    count, items := count0, items0;
    while sub.bytesLeft > 0 && count < f.arraySize
      invariant sub.Ok() && sub.End() == old(sub.End()) && ShapedSlot(f, Rep(count, items))
      invariant DecPacked(f, count, items, sub.Rest()) == DecPacked(f, count0, items0, old(sub.Rest()))
      decreases sub.bytesLeft
    {
      var v;
      assert items[count] in items;
      ghost var before := sub.Rest();
      ok, v := DecScalarFrom(sub, f, items[count]);
      if !ok {
        return;
      }
      ScalarShaped(f, items[count], before);
      count, items := count + 1, items[count := v];
    }
    ok := sub.bytesLeft == 0;
  }

  // ---- Defaults ----

  /** pb_field_set_to_default. */
  method FieldSetToDefault(f: Field, slot: Slot) returns (r: Slot)
    requires DescribedField(f) && ShapedSlot(f, slot)
    ensures r == DefaultSlot(f, slot)
    decreases f, 0
  {
    if f.rule.Repeated? {
      return Rep(0, slot.items);
    }
    if f.rule.OneOf? {
      return slot;
    }
    var v;
    if f.kind.Submessage? {
      var m := MessageSetToDefaults(f.kind.fields, slot.v.m);
      v := Sub(m);
    } else if f.initial.Some? {
      v := f.initial.value;
    } else {
      v := ZeroVal(f);
    }
    r := if f.rule.Optional? then Opt(false, v) else One(v);
  }

  /** r is m with its first n fields set to default. */
  ghost predicate ResetTo(fields: seq<Field>, m: Msg, n: nat, r: Msg) {
    && |r.slots| == |m.slots| == |fields| && n <= |fields|
    && (forall i | 0 <= i < n :: r.slots[i] == DefaultSlot(fields[i], m.slots[i]))
    && (forall i | n <= i < |fields| :: r.slots[i] == m.slots[i])
    && r.which.Keys <= m.which.Keys
    && (forall i | 0 <= i < n && fields[i].rule.OneOf? :: fields[i].rule.union !in r.which)
  }

  lemma AllReset(fields: seq<Field>, m: Msg, r: Msg)
    requires ShapedMsg(fields, m) && ResetTo(fields, m, |fields|, r)
    ensures r == SetDefaults(fields, m)
  {
    assert forall u | DeclaresUnion(fields, u) :: u !in r.which;
    assert r.which.Keys == {};
    assert r.slots == SetDefaults(fields, m).slots;
  }

  /** One field, with the which_ of its oneof. */
  method SetFieldToDefault(fields: seq<Field>, ghost m: Msg, i: nat, before: Msg) returns (r: Msg)
    requires Described(fields) && ShapedMsg(fields, m) && i < |fields| && ResetTo(fields, m, i, before)
    ensures ResetTo(fields, m, i + 1, r)
    decreases fields, 0
  {
    assert DescribedField(fields[i]) && ShapedSlot(fields[i], before.slots[i]);
    var slot := FieldSetToDefault(fields[i], before.slots[i]);
    r := before.(slots := before.slots[i := slot]);
    if fields[i].rule.OneOf? {
      r := r.(which := r.which - {fields[i].rule.union});
    }
  }

  /** pb_message_set_to_defaults. */
  method MessageSetToDefaults(fields: seq<Field>, m: Msg) returns (r: Msg)
    requires Described(fields) && ShapedMsg(fields, m)
    ensures r == SetDefaults(fields, m) && Initialised(fields, r)
    decreases fields, 1
  {
    r := m;
    var iter := new FieldIter(fields, 0);
    var more := fields != [];
    assert forall f | f in fields :: f.tag != 0;
    while more
      invariant iter.Ok() && fresh(iter) && iter.fields == fields
      invariant more ==> iter.pos < |fields| && ResetTo(fields, m, iter.pos, r)
      invariant !more ==> ResetTo(fields, m, |fields|, r)
      decreases more, |fields| - iter.pos
    {
      r := SetFieldToDefault(fields, m, iter.pos, r);
      more := iter.Next();
    }
    AllReset(fields, m, r);
    DefaultsInitialise(fields, m);
  }

  // ---- Fields ----

  /**
   The decoder that PB_DECODERS holds for the field's type. On every run, depth is the number of
   pb_decode_noinit calls nested inside.
   */
  method DecValue(s: IStream, f: Field, prior: Val) returns (ok: bool, v: Val, ghost depth: nat)
    requires s.Ok() && DescribedField(f) && Shaped(f, prior)
    modifies s
    ensures s.Ok() && s.End() <= old(s.End()) && s.bytesLeft <= old(s.bytesLeft)
    ensures depth == ValDepth(f, prior, old(s.Rest()))
    ensures var r := DecVal(f, prior, old(s.Rest()));
            (ok <==> r.Some?) && (ok ==> v == r.value.v && s.At(old(s.End()), r.value.rest))
    decreases s.bytesLeft, 1
  {
    if f.kind.Submessage? {
      ok, v, depth := DecSubmessage(s, f, prior);
    } else {
      ok, v := DecScalarFrom(s, f, prior);
      depth := 0;
    }
  }

  /** The middle of pb_dec_submessage: new array entries are initialised, other submessages merged into. */
  method DecodeInside(sub: IStream, f: Field, prior: Msg) returns (ok: bool, m: Msg, ghost depth: nat)
    requires sub.Ok() && f.kind.Submessage? && DescribedField(f) && ShapedMsg(f.kind.fields, prior)
    modifies sub
    ensures sub.Ok() && (ok ==> sub.End() == old(sub.End())) && sub.End() <= old(sub.End())
    ensures var fields := f.kind.fields;
            var start := if f.rule.Repeated? then SetDefaults(fields, prior) else prior;
            var r := DecNoInit(fields, start, old(sub.Rest()));
            && depth == MsgDepth(fields, start, old(sub.Rest())) <= 1 + old(sub.bytesLeft) / 2
            && (ok <==> r.Some?) && (ok ==> m == r.value.m)
    decreases sub.bytesLeft, 8
  {
    m := prior;
    if f.rule.Repeated? {
      DefaultsFresh(f.kind.fields, m);
      m := MessageSetToDefaults(f.kind.fields, m);
    }
    ok, m, depth := DecodeNoInit(sub, f.kind.fields, m);
  }

  /** pb_dec_submessage. */
  method DecSubmessage(s: IStream, f: Field, prior: Val) returns (ok: bool, v: Val, ghost depth: nat)
    requires s.Ok() && f.kind.Submessage? && DescribedField(f) && Shaped(f, prior)
    modifies s
    ensures s.Ok() && s.End() <= old(s.End()) && s.bytesLeft <= old(s.bytesLeft)
    ensures depth == ValDepth(f, prior, old(s.Rest()))
    ensures var r := DecVal(f, prior, old(s.Rest()));
            (ok <==> r.Some?) && (ok ==> v == r.value.v && s.At(old(s.End()), r.value.rest))
    decreases s.bytesLeft, 0
  {
    var sub, m;
    v, depth := prior, 0;
    ok, sub := MakeStringSubstream(s);
    if !ok {
      return;
    }
    ok, m, depth := DecodeInside(sub, f, prior.m);
    v := Sub(m);
    var closed := CloseStringSubstream(s, sub);
    ok := ok && closed;
  }

  /** pb_release_union_field, as far as it moves the iterator and can fail. */
  method ReleaseUnionField(iter: FieldIter, m: Msg) returns (ok: bool)
    requires iter.Ok() && Described(iter.fields) && iter.pos < |iter.fields| && iter.fields[iter.pos].rule.OneOf?
    modifies iter
    ensures iter.Ok()
    ensures var f := iter.fields[old(iter.pos)];
            ok <==> UnionOk(iter.fields, m, f.rule.union, f.tag)
    ensures ok ==> iter.pos == old(iter.pos)
  {
    var fields, newTag := iter.fields, iter.fields[iter.pos].tag;
    var oldTag := Which(m, fields[iter.pos].rule.union);
    if oldTag == 0 || oldTag == newTag {
      return true;
    }
    assert forall f | f in fields :: f.tag != 0;
    FindsItself(fields, iter.pos);
    assert fields[iter.pos] in fields;
    ok := iter.Find(oldTag);
    if !ok {
      assert FindField(fields, oldTag) < |fields| ==> fields[FindField(fields, oldTag)] in fields;
      return;
    }
    FindsItself(fields, iter.pos);
    ok := iter.Find(newTag);
    FindsItself(fields, iter.pos);
  }

  /** decode_static_field on a packed record of a repeated field. */
  method DecodePackedRecord(s: IStream, fields: seq<Field>, i: nat, m: Msg) returns (ok: bool, r: Msg)
    requires s.Ok() && ShapedMsg(fields, m) && i < |fields| && fields[i].rule.Repeated? && Packable(fields[i].kind)
    modifies s
    ensures s.Ok() && s.End() <= old(s.End()) && s.bytesLeft <= old(s.bytesLeft)
    ensures var u := DecField(fields, m, i, WT_STRING, old(s.Rest()));
            (ok <==> u.Some?) && (ok ==> r == u.value.m && s.At(old(s.End()), u.value.rest))
  {
    var f, slot := fields[i], m.slots[i];
    var sub, count, items;
    r := m;
    ok, sub := MakeStringSubstream(s);
    if !ok {
      return;
    }
    ok, count, items := DecodePacked(sub, f, slot.count, slot.items);
    if !ok {
      return;
    }
    ok := CloseStringSubstream(s, sub);
    r := SetSlot(m, i, Rep(count, items));
  }

  /** decode_static_field on a repeated field: packed, or one more element. */
  method DecodeRepeated(s: IStream, wireType: nat, fields: seq<Field>, i: nat, m: Msg)
    returns (ok: bool, r: Msg, ghost depth: nat)
    requires s.Ok() && Described(fields) && ShapedMsg(fields, m) && i < |fields| && fields[i].rule.Repeated?
    modifies s
    ensures s.Ok() && s.End() <= old(s.End()) && s.bytesLeft <= old(s.bytesLeft)
    ensures depth == FieldDepth(fields, m, i, wireType, old(s.Rest()))
    ensures var u := DecField(fields, m, i, wireType, old(s.Rest()));
            (ok <==> u.Some?) && (ok ==> r == u.value.m && s.At(old(s.End()), u.value.rest))
    decreases s.bytesLeft, 2
  {
    var f, slot := fields[i], m.slots[i];
    var count, items := slot.count, slot.items;
    assert DescribedField(f) && ShapedSlot(f, slot);
    r, depth := m, 0;
    if wireType == WT_STRING && Packable(f.kind) {
      ok, r := DecodePackedRecord(s, fields, i, m);
    } else {
      if count >= f.arraySize {
        return false, m, 0;
      }
      var v;
      assert items[count] in items;
      ok, v, depth := DecValue(s, f, items[count]);
      r := SetSlot(m, i, Rep(count + 1, items[count := v]));
    }
  }

  /** decode_static_field. */
  method DecodeStaticField(s: IStream, wireType: nat, fields: seq<Field>, i: nat, m: Msg)
    returns (ok: bool, r: Msg, ghost depth: nat)
    requires s.Ok() && Described(fields) && ShapedMsg(fields, m) && i < |fields|
    requires fields[i].rule.OneOf? ==> UnionOk(fields, m, fields[i].rule.union, fields[i].tag)
    modifies s
    ensures s.Ok() && s.End() <= old(s.End()) && s.bytesLeft <= old(s.bytesLeft)
    ensures depth == FieldDepth(fields, m, i, wireType, old(s.Rest()))
    ensures var u := DecField(fields, m, i, wireType, old(s.Rest()));
            (ok <==> u.Some?) && (ok ==> r == u.value.m && s.At(old(s.End()), u.value.rest))
    decreases s.bytesLeft, 3
  {
    var f, slot := fields[i], m.slots[i];
    assert DescribedField(f) && ShapedSlot(f, slot);
    if f.rule.Repeated? {
      ok, r, depth := DecodeRepeated(s, wireType, fields, i, m);
      return;
    }
    var v := slot.v;
    if f.rule.OneOf? {
      r := m.(which := m.which[f.rule.union := f.tag]);
      if f.kind.Submessage? {
        ZeroShaped(f.kind.fields);
        var zeroed := MessageSetToDefaults(f.kind.fields, ZeroMsg(f.kind.fields));
        v := Sub(zeroed);
        StartShaped(f, slot.v);
      }
      ok, v, depth := DecValue(s, f, v);
      r := SetSlot(r, i, One(v));
    } else {
      ok, v, depth := DecValue(s, f, v);
      r := SetSlot(m, i, if f.rule.Optional? then Opt(true, v) else One(v));
    }
  }

  /** decode_field for static storage, at the iterator's field. */
  method DecodeField(s: IStream, wireType: nat, iter: FieldIter, m: Msg) returns (ok: bool, r: Msg, ghost depth: nat)
    requires s.Ok() && iter.Ok() && Described(iter.fields) && ShapedMsg(iter.fields, m) && iter.pos < |iter.fields|
    modifies s, iter
    ensures s.Ok() && iter.Ok() && s.End() <= old(s.End()) && s.bytesLeft <= old(s.bytesLeft)
    ensures depth == FieldDepth(iter.fields, m, old(iter.pos), wireType, old(s.Rest()))
    ensures var u := DecField(iter.fields, m, old(iter.pos), wireType, old(s.Rest()));
            (ok <==> u.Some?) && (ok ==> r == u.value.m && s.At(old(s.End()), u.value.rest))
    decreases s.bytesLeft, 4
  {
    r, depth, ok := m, 0, true;
    ghost var f := iter.fields[iter.pos];
    assert ShapedSlot(f, m.slots[iter.pos]);
    if iter.fields[iter.pos].rule.OneOf? {
      ok := ReleaseUnionField(iter, m);
    }
    if ok {
      ok, r, depth := DecodeStaticField(s, wireType, iter.fields, iter.pos, m);
    }
  }

  // ---- Messages ----

  /** pb_field_iter_find, where tags are distinct. */
  method FindTag(iter: FieldIter, tag: nat) returns (found: bool)
    requires iter.Ok() && Described(iter.fields)
    modifies iter
    ensures iter.Ok()
    ensures found <==> FindField(iter.fields, tag) < |iter.fields| || (iter.fields == [] && tag == 0)
    ensures found ==> iter.pos == FindField(iter.fields, tag)
  {
    var fields := iter.fields;
    ghost var k := FindField(fields, tag);
    assert forall f | f in fields :: f.tag != 0;
    assert k < |fields| ==> fields[k] in fields;
    found := iter.Find(tag);
    if found && fields != [] {
      FindsItself(fields, iter.pos);
    }
  }

  /** The loop body of pb_decode_noinit after the tag: find, skip or mark and decode. */
  method DecodeRecord(s: IStream, iter: FieldIter, words: seq<Word>, m: Msg, tag: nat, wireType: nat, ghost seen: set<nat>)
    returns (ok: bool, r: Msg, words': seq<Word>, ghost depth: nat)
    requires s.Ok() && iter.Ok() && Described(iter.fields) && ShapedMsg(iter.fields, m)
    requires Tracks(iter.fields, words, seen)
    modifies s, iter
    ensures s.Ok() && iter.Ok() && s.End() <= old(s.End()) && s.bytesLeft <= old(s.bytesLeft)
    ensures depth == RecordDepth(iter.fields, m, tag, wireType, old(s.Rest()))
    ensures var u := DecRecord(iter.fields, m, tag, wireType, old(s.Rest()));
            && (ok <==> u.Some?) && (ok ==> r == u.value.m && s.At(old(s.End()), u.value.rest))
            && (ok ==> Tracks(iter.fields, words', Mark(iter.fields, seen, tag)))
    decreases s.bytesLeft, 5
  {
    var fields := iter.fields;
    r, words', depth := m, words, 0;
    var found := FindTag(iter, tag);
    if !found {
      ok := SkipFieldFrom(s, wireType);
      return;
    }
    if iter.pos >= |fields| {
      // the terminator of an empty descriptor matches tag 0 and reads as a varint of no size
      return false, r, words', 0;
    }
    words' := MarkSeen(fields, words, iter.pos, iter.requiredFieldIndex, seen);
    ok, r, depth := DecodeField(s, wireType, iter, m);
  }

  datatype Turn = Failed | Ended | Continues

  /** One turn of pb_decode_noinit's loop, tag included. */
  method DecodeTurn(s: IStream, iter: FieldIter, words: seq<Word>, m: Msg, ghost seen: set<nat>)
    returns (turn: Turn, r: Msg, words': seq<Word>, ghost seen': set<nat>, ghost depth: nat)
    requires s.Ok() && s.bytesLeft > 0 && iter.Ok() && Described(iter.fields) && ShapedMsg(iter.fields, m)
    requires Tracks(iter.fields, words, seen)
    modifies s, iter
    ensures s.Ok() && iter.Ok() && s.End() <= old(s.End()) && s.bytesLeft <= old(s.bytesLeft)
    ensures var start := DecLoop(iter.fields, m, seen, old(s.Rest()));
            && (turn.Failed? ==> start.None?)
            && (turn.Ended? ==> s.At(old(s.End()), s.Rest()) && start == Some(State(r, seen', s.Rest(), true)))
            && (turn.Continues? ==> s.At(old(s.End()), s.Rest()) && s.bytesLeft < old(s.bytesLeft)
                                    && start == DecLoop(iter.fields, r, seen', s.Rest()))
    ensures !turn.Failed? ==> ShapedMsg(iter.fields, r) && Tracks(iter.fields, words', seen')
    ensures MsgDepth(iter.fields, m, old(s.Rest())) ==
            if turn.Continues? then Max(1 + depth, MsgDepth(iter.fields, r, s.Rest())) else 1 + depth
    decreases s.bytesLeft, 6
  {
    r, words', seen', depth := m, words, seen, 0;
    var good, eof, tag, wireType := DecodeTagFrom(s);
    if !good {
      turn := if eof then Ended else Failed;
      return;
    }
    ghost var rest := s.Rest();
    good, r, words', depth := DecodeRecord(s, iter, words, m, tag, wireType, seen);
    if !good {
      turn := Failed;
      return;
    }
    RecordShaped(iter.fields, m, tag, wireType, rest);
    seen' := Mark(iter.fields, seen, tag);
    turn := Continues;
  }

  /** pb_decode_noinit: the decoder refines its specification, on at most 1 + n / 2 nested calls for n bytes. */
  method DecodeNoInit(s: IStream, fields: seq<Field>, m: Msg) returns (ok: bool, r: Msg, ghost depth: nat)
    requires s.Ok() && Described(fields) && ShapedMsg(fields, m)
    modifies s
    ensures s.Ok() && s.End() <= old(s.End()) && s.bytesLeft <= old(s.bytesLeft)
    ensures depth == MsgDepth(fields, m, old(s.Rest())) <= 1 + old(s.bytesLeft) / 2
    ensures var d := DecNoInit(fields, m, old(s.Rest()));
            && (ok <==> d.Some?)
            && (ok ==> r == d.value.m && ShapedMsg(fields, r) && s.At(old(s.End()), d.value.rest))
    decreases s.bytesLeft, 7
  {
    DepthBound(fields, m, s.Rest());
    var iter := new FieldIter(fields, 0);
    var words: seq<Word> := [0, 0];
    StartsEmpty(fields);
    ghost var seen := {};
    r, depth := m, 1;
    while s.bytesLeft > 0
      invariant s.Ok() && s.End() == old(s.End()) && s.bytesLeft <= old(s.bytesLeft)
      invariant iter.Ok() && fresh(iter) && iter.fields == fields
      invariant ShapedMsg(fields, r) && Tracks(fields, words, seen)
      invariant depth >= 1 && Max(depth, MsgDepth(fields, r, s.Rest())) == MsgDepth(fields, m, old(s.Rest()))
      invariant DecLoop(fields, r, seen, s.Rest()) == DecLoop(fields, m, {}, old(s.Rest()))
      decreases s.bytesLeft
    {
      var turn;
      ghost var d;
      turn, r, words, seen, d := DecodeTurn(s, iter, words, r, seen);
      depth := Max(depth, 1 + d);
      if turn.Ended? {
        break;
      }
      if turn.Failed? {
        return false, r, depth;
      }
    }
    ok := CheckRequired(iter, words, seen);
  }

  /** pb_decode. */
  method Decode(s: IStream, fields: seq<Field>, m: Msg) returns (ok: bool, r: Msg, ghost depth: nat)
    requires s.Ok() && Described(fields) && ShapedMsg(fields, m)
    modifies s
    ensures s.Ok() && s.End() <= old(s.End()) && s.bytesLeft <= old(s.bytesLeft)
    ensures depth == MsgDepth(fields, SetDefaults(fields, m), old(s.Rest())) <= 1 + old(s.bytesLeft) / 2
    ensures var d := DecMsg(fields, m, old(s.Rest()));
            && (ok <==> d.Some?)
            && (ok ==> r == d.value.m && ShapedMsg(fields, r) && s.At(old(s.End()), d.value.rest))
  {
    DefaultsFresh(fields, m);
    r := MessageSetToDefaults(fields, m);
    ok, r, depth := DecodeNoInit(s, fields, r);
  }
}
