/**
 Laws of the decoder over concatenated input: it is a fold over records, so messages merge by
 concatenation, unknown records vanish, and packing does not matter.
 */
module WireLaws {
  import opened Slices
  import V = Varints
  import VA = VarintAcceptance
  import opened Schema
  import opened WireFormat
  import opened WireDecode
  import opened Words

  // ---- Every decoder ignores what follows its own bytes ----

  lemma SliceOfConcat(s: bytes, t: bytes, n: nat)
    requires n <= |s|
    ensures (s + t)[..n] == s[..n] && (s + t)[n..] == s[n..] + t
  {
  }

  lemma BytesExtend(f: Field, prior: Val, s: bytes, t: bytes)
    requires DecBytes(f, prior, s).Some?
    ensures var p := DecBytes(f, prior, s).value; DecBytes(f, prior, s + t) == Some(Parsed(p.v, p.rest + t))
  {
    V.Varint32Extends(s, t);
    var d := V.DecodeVarint32(s).value;
    SliceOfConcat(d.rest, t, if d.value <= |d.rest| then d.value else 0);
  }

  lemma ScalarExtends(f: Field, prior: Val, s: bytes, t: bytes)
    requires DecScalar(f, prior, s).Some?
    ensures var p := DecScalar(f, prior, s).value; DecScalar(f, prior, s + t) == Some(Parsed(p.v, p.rest + t))
  {
    match f.kind
    case Fixed32 => SliceOfConcat(s, t, 4);
    case Fixed64 => SliceOfConcat(s, t, 8);
    case Bytes => BytesExtend(f, prior, s, t);
    case String => BytesExtend(f, prior, s, t);
    case FixedBytes => BytesExtend(f, prior, s, t);
    case _ => V.VarintExtends(s, t);
  }

  lemma TagExtends(s: bytes, t: bytes)
    requires !DecodeTag(s).BadTag?
    ensures match DecodeTag(s)
            case EndTag(rest) => DecodeTag(s + t) == EndTag(rest + t)
            case Tag(tag, wt, rest) => DecodeTag(s + t) == Tag(tag, wt, rest + t)
            case BadTag => false
  {
    V.Varint32Extends(s, t);
  }

  lemma {:induction false} SkipVarintExtends(s: bytes, t: bytes)
    requires SkipVarint(s).Some?
    ensures SkipVarint(s + t) == Some(SkipVarint(s).value + t)
  {
    assert (s + t)[1..] == s[1..] + t;
    if s[0] >= 128 {
      SkipVarintExtends(s[1..], t);
    }
  }

  lemma SkipExtends(wireType: nat, s: bytes, t: bytes)
    requires SkipField(wireType, s).Some?
    ensures SkipField(wireType, s + t) == Some(SkipField(wireType, s).value + t)
  {
    if wireType == WT_VARINT {
      SkipVarintExtends(s, t);
    } else if wireType == WT_64BIT {
      SliceOfConcat(s, t, 8);
    } else if wireType == WT_STRING {
      V.Varint32Extends(s, t);
      var d := V.DecodeVarint32(s).value;
      SliceOfConcat(d.rest, t, d.value);
    } else {
      SliceOfConcat(s, t, 4);
    }
  }

  lemma SubstreamExtends(s: bytes, t: bytes)
    requires MakeSubstream(s).Some?
    ensures var r := MakeSubstream(s).value; MakeSubstream(s + t) == Some(Substream(r.body, r.rest + t))
  {
    V.Varint32Extends(s, t);
    var d := V.DecodeVarint32(s).value;
    SliceOfConcat(d.rest, t, d.value);
  }

  lemma ValExtends(f: Field, prior: Val, s: bytes, t: bytes)
    requires DecVal(f, prior, s).Some?
    ensures var p := DecVal(f, prior, s).value; DecVal(f, prior, s + t) == Some(Parsed(p.v, p.rest + t))
  {
    if f.kind.Submessage? {
      SubstreamExtends(s, t);
    } else {
      ScalarExtends(f, prior, s, t);
    }
  }

  lemma FieldExtends(fields: seq<Field>, m: Msg, i: nat, wireType: nat, s: bytes, t: bytes)
    requires i < |fields| && DecField(fields, m, i, wireType, s).Some?
    ensures var u := DecField(fields, m, i, wireType, s).value;
            DecField(fields, m, i, wireType, s + t) == Some(Updated(u.m, u.rest + t))
  {
    var f := fields[i];
    match (f.rule, SlotAt(m, i))
    case (Required, One(v)) => ValExtends(f, v, s, t);
    case (Singular, One(v)) => ValExtends(f, v, s, t);
    case (Optional, Opt(_, v)) => ValExtends(f, v, s, t);
    case (Repeated, Rep(count, items)) =>
      if wireType == WT_STRING && Packable(f.kind) {
        SubstreamExtends(s, t);
      } else {
        ValExtends(f, items[count], s, t);
      }
    case (OneOf(u), One(v)) =>
      var start := if f.kind.Submessage? then Sub(SetDefaults(f.kind.fields, ZeroMsg(f.kind.fields))) else v;
      ValExtends(f, start, s, t);
  }

  lemma RecordExtends(fields: seq<Field>, m: Msg, tag: nat, wireType: nat, s: bytes, t: bytes)
    requires DecRecord(fields, m, tag, wireType, s).Some?
    ensures var u := DecRecord(fields, m, tag, wireType, s).value;
            DecRecord(fields, m, tag, wireType, s + t) == Some(Updated(u.m, u.rest + t))
  {
    var i := FindField(fields, tag);
    if i < |fields| {
      FieldExtends(fields, m, i, wireType, s, t);
    } else {
      SkipExtends(wireType, s, t);
    }
  }

  // ---- Concatenation ----

  /** The state a decoder reaches on a ++ b when it has reached st on a. */
  function Resume(fields: seq<Field>, st: State, b: bytes): Option<State> {
    if st.ended then Some(st.(rest := st.rest + b)) else DecLoop(fields, st.m, st.seen, b)
  }

  /** Decoding a ++ b is decoding a, then going on with b; after a zero tag, b is left unread. */
  lemma {:induction false} LoopSplits(fields: seq<Field>, m: Msg, seen: set<nat>, a: bytes, b: bytes)
    requires DecLoop(fields, m, seen, a).Some?
    ensures var st := DecLoop(fields, m, seen, a).value;
            && (!st.ended ==> st.rest == [])
            && DecLoop(fields, m, seen, a + b) == Resume(fields, st, b)
    decreases |a|
  {
    if a == [] {
      assert a + b == b;
    } else {
      TagExtends(a, b);
      var t := DecodeTag(a);
      if t.Tag? {
        var u := DecRecord(fields, m, t.tag, t.wireType, t.rest).value;
        RecordExtends(fields, m, t.tag, t.wireType, t.rest, b);
        LoopSplits(fields, u.m, Mark(fields, seen, t.tag), u.rest, b);
      }
    }
  }

  /** Two stretches of whole records, one after the other. */
  lemma JoinRuns(fields: seq<Field>, m: Msg, seen: set<nat>, a: bytes, mid: State, b: bytes, end: State)
    requires DecLoop(fields, m, seen, a) == Some(mid) && mid.rest == [] && !mid.ended
    requires DecLoop(fields, mid.m, mid.seen, b) == Some(end)
    ensures DecLoop(fields, m, seen, a + b) == Some(end)
  {
    LoopSplits(fields, m, seen, a, b);
  }

  /** Which fields were seen before does not affect what is decoded. */
  lemma {:induction false} SeenGrows(fields: seq<Field>, m: Msg, seen: set<nat>, more: set<nat>, s: bytes)
    requires seen <= more
    ensures var p, q := DecLoop(fields, m, seen, s), DecLoop(fields, m, more, s);
            && (p.Some? <==> q.Some?)
            && (p.Some? ==> p.value == q.value.(seen := p.value.seen) && more <= q.value.seen
                            && p.value.seen <= q.value.seen)
    decreases |s|
  {
    if s != [] {
      var t := DecodeTag(s);
      if t.Tag? {
        var u := DecRecord(fields, m, t.tag, t.wireType, t.rest);
        if u.Some? {
          SeenGrows(fields, u.value.m, Mark(fields, seen, t.tag), Mark(fields, more, t.tag), u.value.rest);
        }
      }
    }
  }

  /**
   Merging: once a has been decoded without a zero tag, decoding a ++ b succeeds iff decoding the
   records of b into the same struct does, and gives the same struct and the same unread input,
   even if b by itself misses required fields.
   */
  lemma MergeLaw(fields: seq<Field>, m: Msg, a: bytes, b: bytes)
    requires DecNoInit(fields, m, a).Some? && !DecNoInit(fields, m, a).value.ended
    ensures var st := DecNoInit(fields, m, a).value;
            var onB := DecLoop(fields, st.m, {}, b);
            var onAB := DecNoInit(fields, m, a + b);
            && (onAB.Some? <==> onB.Some?)
            && (onB.Some? ==> onAB.value.m == onB.value.m && onAB.value.rest == onB.value.rest
                              && onAB.value.ended == onB.value.ended)
  {
    var st := DecNoInit(fields, m, a).value;
    LoopSplits(fields, m, {}, a, b);
    SeenGrows(fields, st.m, {}, st.seen, b);
  }

  /** The documented use of pb_decode_noinit: two messages merged one after the other, or as one. */
  lemma MergeTwoMessages(fields: seq<Field>, m: Msg, a: bytes, b: bytes)
    requires DecNoInit(fields, m, a).Some? && !DecNoInit(fields, m, a).value.ended
    requires DecNoInit(fields, DecNoInit(fields, m, a).value.m, b).Some?
    ensures DecNoInit(fields, m, a + b).Some?
    ensures DecNoInit(fields, m, a + b).value.m == DecNoInit(fields, DecNoInit(fields, m, a).value.m, b).value.m
  {
    MergeLaw(fields, m, a, b);
  }

  /** The excluded case, exactly: after a zero tag in a, nothing of b is read. */
  lemma ZeroTagBlocksMerge(fields: seq<Field>, m: Msg, a: bytes, b: bytes)
    requires DecNoInit(fields, m, a).Some? && DecNoInit(fields, m, a).value.ended
    ensures var st := DecNoInit(fields, m, a).value;
            DecNoInit(fields, m, a + b) == Some(st.(rest := st.rest + b))
  {
    LoopSplits(fields, m, {}, a, b);
  }

  // ---- Unknown records ----

  /** pb_decode_tag undoes pb_encode_tag. */
  lemma TagRoundTrip(wireType: nat, tag: nat, t: bytes)
    requires wireType < 8 && 0 < tag <= MAX_TAG
    ensures DecodeTag(EncodeTag(wireType, tag) + t) == Tag(tag, wireType, t)
  {
    var n := tag * 8 + wireType;
    assert n / 8 == tag && n % 8 == wireType && n < TWO_32;
    VA.Varint32RoundTrip(n, t);
  }

  lemma {:induction false} SkipEncodedVarint(v: nat, t: bytes)
    ensures SkipVarint(V.EncodeVarint(v) + t) == Some(t)
    decreases v
  {
    var s := V.EncodeVarint(v) + t;
    if v < 128 {
      assert s[1..] == t;
    } else {
      V.EncodeSplits(v, t);
      assert s[1..] == V.EncodeVarint(v / 128) + t;
      SkipEncodedVarint(v / 128, t);
    }
  }

  lemma SkipEncodedString(b: bytes, t: bytes)
    requires |b| < TWO_32
    ensures SkipField(WT_STRING, EncodeString(b) + t) == Some(t)
    ensures MakeSubstream(EncodeString(b) + t) == Some(Substream(b, t))
  {
    assert EncodeString(b) + t == V.EncodeVarint(|b|) + (b + t);
    VA.Varint32RoundTrip(|b|, b + t);
    SliceOfConcat(b, t, |b|);
    assert b[..|b|] == b && b[|b|..] + t == t;
  }

  /** pb_skip_field passes over exactly what the encoder of any value wrote. */
  lemma SkipUndoesEncode(f: Field, v: Val, t: bytes)
    requires EncVal(f, v).Some? && |EncVal(f, v).value| < TWO_32
    ensures SkipField(WireType(f.kind), EncVal(f, v).value + t) == Some(t)
  {
    var e := EncVal(f, v).value;
    match (f.kind, v)
    case (Varint, Num(n)) => SkipEncodedVarint(AsUnsigned(n), t);
    case (UVarint, Num(n)) => SkipEncodedVarint(n, t);
    case (SVarint, Num(n)) => SkipEncodedVarint(ZigZag(n), t);
    case (Fixed32, Num(n)) => assert (e + t)[4..] == t;
    case (Fixed64, Num(n)) => assert (e + t)[8..] == t;
    case (Bytes, Blob(size, data)) => SkipEncodedString(data[..size], t);
    case (String, Chars(data)) => SkipEncodedString(data[..StrLen(data)], t);
    case (FixedBytes, Chars(data)) => SkipEncodedString(data, t);
    case (Submessage(fields), Sub(m)) => SkipEncodedString(EncMsg(fields, m).value, t);
  }

  /** A complete record whose tag the descriptor does not declare. */
  predicate UnknownRecord(fields: seq<Field>, u: bytes) {
    var t := DecodeTag(u);
    && t.Tag? && FindField(fields, t.tag) == |fields|
    && !(fields == [] && t.tag == 0)
    && SkipField(t.wireType, t.rest) == Some([])
  }

  lemma UnknownVanishes(fields: seq<Field>, m: Msg, seen: set<nat>, u: bytes, s: bytes)
    requires UnknownRecord(fields, u)
    ensures DecLoop(fields, m, seen, u + s) == DecLoop(fields, m, seen, s)
  {
    var t := DecodeTag(u);
    TagExtends(u, s);
    SkipExtends(t.wireType, t.rest, s);
    assert [] + s == s;
  }

  /** Any field, written by the encoder under a tag the reader does not know, is an unknown record. */
  lemma EncodedIsUnknown(fields: seq<Field>, f: Field, v: Val)
    requires 0 < f.tag <= MAX_TAG && FindField(fields, f.tag) == |fields|
    requires EncTagged(f, v).Some? && |EncTagged(f, v).value| < TWO_32
    ensures UnknownRecord(fields, EncTagged(f, v).value)
  {
    var e := EncVal(f, v).value;
    TagRoundTrip(WireType(f.kind), f.tag, e);
    SkipUndoesEncode(f, v, []);
    assert e + [] == e;
  }

  /** Forward compatibility: an unknown record after whole records, and before any input, changes nothing. */
  lemma UnknownFieldsIgnored(fields: seq<Field>, m: Msg, a: bytes, u: bytes, b: bytes)
    requires UnknownRecord(fields, u)
    ensures var st := DecLoop(fields, m, {}, a);
            st.Some? && !st.value.ended ==> DecNoInit(fields, m, a + u + b) == DecNoInit(fields, m, a + b)
  {
    if DecLoop(fields, m, {}, a).Some? && !DecLoop(fields, m, {}, a).value.ended {
      var st := DecLoop(fields, m, {}, a).value;
      assert a + u + b == a + (u + b);
      LoopSplits(fields, m, {}, a, u + b);
      LoopSplits(fields, m, {}, a, b);
      UnknownVanishes(fields, st.m, st.seen, u, b);
    }
  }

  /** The exception, in every spelling: an empty descriptor rejects tag 0 instead of skipping its record. */
  lemma EmptyDescriptorRejectsTagZero(m: Msg, s: bytes)
    requires DecodeTag(s).Tag? && DecodeTag(s).tag == 0
    ensures DecNoInit([], m, s) == None
  {
    var t := DecodeTag(s);
    assert DecRecord([], m, 0, t.wireType, t.rest) == None;
    assert DecLoop([], m, {}, s) == None;
  }

  // ---- Known records ----

  /** Going on after one record. */
  function GoOn(fields: seq<Field>, seen: set<nat>, u: Option<Updated>): Option<State> {
    if u.None? then None else DecLoop(fields, u.value.m, seen, u.value.rest)
  }

  /** The loop on an encoded tag of a declared field. */
  lemma LoopOnField(fields: seq<Field>, m: Msg, seen: set<nat>, i: nat, wireType: nat, s: bytes)
    requires i < |fields| && FindField(fields, fields[i].tag) == i
    requires 0 < fields[i].tag <= MAX_TAG && wireType < 8
    ensures DecLoop(fields, m, seen, EncodeTag(wireType, fields[i].tag) + s) ==
            GoOn(fields, seen + {i}, DecField(fields, m, i, wireType, s))
  {
    TagRoundTrip(wireType, fields[i].tag, s);
  }

  // ---- Packed repeated fields ----

  /** w is exactly one encoded element of field f. */
  predicate Element(f: Field, w: bytes) {
    var r := DecScalar(f, Num(0), w);
    Packable(f.kind) && r.Some? && r.value.rest == []
  }

  function Join(ws: seq<bytes>): bytes {
    if ws == [] then [] else ws[0] + Join(ws[1..])
  }

  /** The elements as one packed record. */
  function PackedRecord(f: Field, ws: seq<bytes>): bytes {
    EncodeTag(WT_STRING, f.tag) + EncodeString(Join(ws))
  }

  /** The elements as individually tagged records. */
  function TaggedRecords(f: Field, ws: seq<bytes>): bytes {
    if ws == [] then [] else EncodeTag(WireType(f.kind), f.tag) + ws[0] + TaggedRecords(f, ws[1..])
  }

  /** Scalars are stored outright, whatever was there before. */
  lemma PriorIrrelevant(f: Field, p: Val, q: Val, s: bytes)
    requires Packable(f.kind)
    ensures DecScalar(f, p, s) == DecScalar(f, q, s)
  {
  }

  lemma PackedStep(f: Field, count: nat, items: seq<Val>, w: bytes, s: bytes)
    requires Element(f, w)
    ensures DecPacked(f, count, items, w + s) ==
            if count >= f.arraySize || count >= |items| then None
            else DecPacked(f, count + 1, items[count := DecScalar(f, Num(0), w).value.v], s)
  {
    ScalarExtends(f, Num(0), w, s);
    assert [] + s == s;
    if count < |items| {
      PriorIrrelevant(f, Num(0), items[count], w + s);
    }
  }

  /** One tagged element. */
  lemma TaggedElement(fields: seq<Field>, m: Msg, i: nat, w: bytes, s: bytes)
    requires i < |fields| && fields[i].rule.Repeated? && Element(fields[i], w)
    requires i < |m.slots| && m.slots[i].Rep?
    ensures var Rep(count, items) := m.slots[i];
            DecField(fields, m, i, WireType(fields[i].kind), w + s) ==
            if count >= fields[i].arraySize || count >= |items| then None
            else Some(Updated(SetSlot(m, i, Rep(count + 1, items[count := DecScalar(fields[i], Num(0), w).value.v])), s))
  {
    var f := fields[i];
    ScalarExtends(f, Num(0), w, s);
    assert [] + s == s;
    var slot := m.slots[i];
    if slot.count < |slot.items| {
      PriorIrrelevant(f, Num(0), slot.items[slot.count], w + s);
    }
  }

  /** The rest of the decoding after the elements have gone into slot i. */
  function AfterPacked(fields: seq<Field>, m: Msg, seen: set<nat>, i: nat, slot: Option<Slot>, s: bytes): Option<State>
  {
    if slot.None? then None else DecLoop(fields, SetSlot(m, i, slot.value), seen, s)
  }

  lemma {:induction false} TaggedIsPacked(fields: seq<Field>, m: Msg, seen: set<nat>, i: nat, ws: seq<bytes>, s: bytes)
    requires i < |fields| && i < |m.slots| && FindField(fields, fields[i].tag) == i
    requires fields[i].rule.Repeated? && 0 < fields[i].tag <= MAX_TAG
    requires m.slots[i].Rep? && (ws != [] || i in seen) && forall w | w in ws :: Element(fields[i], w)
    ensures DecLoop(fields, m, seen, TaggedRecords(fields[i], ws) + s) ==
            AfterPacked(fields, m, seen + {i}, i, DecPacked(fields[i], m.slots[i].count, m.slots[i].items, Join(ws)), s)
    decreases |ws|
  {
    var f := fields[i];
    var Rep(count, items) := m.slots[i];
    if ws == [] {
      assert TaggedRecords(f, ws) + s == s;
      assert SetSlot(m, i, m.slots[i]) == m;
      assert seen + {i} == seen;
    } else {
      var w, ws' := ws[0], ws[1..];
      assert w in ws;
      var s' := TaggedRecords(f, ws') + s;
      assert TaggedRecords(f, ws) + s == EncodeTag(WireType(f.kind), f.tag) + (w + s');
      LoopOnField(fields, m, seen, i, WireType(f.kind), w + s');
      TaggedElement(fields, m, i, w, s');
      PackedStep(f, count, items, w, Join(ws'));
      assert Join(ws) == w + Join(ws');
      if count < f.arraySize && count < |items| {
        var slot := Rep(count + 1, items[count := DecScalar(f, Num(0), w).value.v]);
        assert seen + {i} + {i} == seen + {i};
        TaggedIsPacked(fields, SetSlot(m, i, slot), seen + {i}, i, ws', s);
        SetSlotTwice(m, i, slot, DecPacked(f, count + 1, slot.items, Join(ws')));
      }
    }
  }

  lemma SetSlotTwice(m: Msg, i: nat, a: Slot, b: Option<Slot>)
    ensures b.Some? ==> SetSlot(SetSlot(m, i, a), i, b.value) == SetSlot(m, i, b.value)
  {
  }

  lemma PackedField(fields: seq<Field>, m: Msg, i: nat, body: bytes, s: bytes)
    requires i < |fields| && fields[i].rule.Repeated? && Packable(fields[i].kind)
    requires i < |m.slots| && m.slots[i].Rep? && |body| < TWO_32
    ensures var slot := DecPacked(fields[i], m.slots[i].count, m.slots[i].items, body);
            DecField(fields, m, i, WT_STRING, EncodeString(body) + s) ==
            if slot.None? then None else Some(Updated(SetSlot(m, i, slot.value), s))
  {
    SkipEncodedString(body, s);
  }

  /**
   A packed record and the same elements sent as tagged records decode alike, from any starting
   count: same array, same count, and the same overflow error when there is no room.
   */
  lemma PackedEqualsTagged(fields: seq<Field>, m: Msg, seen: set<nat>, i: nat, ws: seq<bytes>, s: bytes)
    requires i < |fields| && i < |m.slots| && FindField(fields, fields[i].tag) == i
    requires fields[i].rule.Repeated? && 0 < fields[i].tag <= MAX_TAG && m.slots[i].Rep?
    requires ws != [] && |Join(ws)| < TWO_32 && forall w | w in ws :: Element(fields[i], w)
    ensures DecLoop(fields, m, seen, PackedRecord(fields[i], ws) + s) ==
            DecLoop(fields, m, seen, TaggedRecords(fields[i], ws) + s)
  {
    var f := fields[i];
    assert PackedRecord(f, ws) + s == EncodeTag(WT_STRING, f.tag) + (EncodeString(Join(ws)) + s);
    LoopOnField(fields, m, seen, i, WT_STRING, EncodeString(Join(ws)) + s);
    assert Element(f, ws[0]) by { assert ws[0] in ws; }
    PackedField(fields, m, i, Join(ws), s);
    TaggedIsPacked(fields, m, seen, i, ws, s);
  }

  /** Packed elements can be decoded in two goes. */
  lemma {:induction false} PackedSplits(f: Field, count: nat, items: seq<Val>, a: bytes, b: bytes)
    requires DecPacked(f, count, items, a).Some?
    ensures var slot := DecPacked(f, count, items, a).value;
            slot.Rep? && DecPacked(f, count, items, a + b) == DecPacked(f, slot.count, slot.items, b)
    decreases |a|
  {
    if a == [] {
      assert a + b == b;
    } else {
      ScalarExtends(f, items[count], a, b);
      var r := DecScalar(f, items[count], a).value;
      PackedSplits(f, count + 1, items[count := r.v], r.rest, b);
    }
  }
}
