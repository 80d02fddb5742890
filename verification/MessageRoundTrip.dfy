/** The round trip of whole messages: an induction over the descriptor tree and the list of fields. */
module MessageRoundTrip {
  import opened Slices
  import opened Schema
  import opened WireFormat
  import opened WireDecode
  import opened WireLaws
  import opened Soundness
  import RT = RoundTrip
  import opened Words

  // ---- Encoding a sound struct succeeds ----

  lemma {:induction false} EncValSucceeds(f: Field, v: Val)
    requires WfField(f) && SoundVal(f, v)
    ensures EncVal(f, v).Some?
    decreases f, 0
  {
    if f.kind.Submessage? {
      EncodeSucceeds(f.kind.fields, v.m);
    } else if f.kind.Varint? || f.kind.UVarint? || f.kind.SVarint? {
      RT.IntRoundTrip(f, v, []);
    }
  }

  lemma {:induction false} EncItemsSucceed(f: Field, items: seq<Val>, n: nat)
    requires WfField(f) && n <= |items| && forall k | 0 <= k < n :: SoundVal(f, items[k])
    ensures EncItems(f, items, n).Some? && EncTaggedItems(f, items, n).Some?
    decreases f, 1, n
  {
    if n > 0 {
      EncItemsSucceed(f, items, n - 1);
      EncValSucceeds(f, items[n - 1]);
    }
  }

  lemma {:induction false} EncFieldSucceeds(f: Field, slot: Slot, which: nat)
    requires WfField(f) && SoundSlot(f, slot, which)
    ensures EncField(f, slot, which).Some?
    decreases f, 2
  {
    if f.rule.Repeated? {
      EncItemsSucceed(f, slot.items, slot.count);
    } else if SoundVal(f, slot.v) {
      EncValSucceeds(f, slot.v);
    }
  }

  lemma {:induction false} EncPrefixSucceeds(fields: seq<Field>, m: Msg, n: nat)
    requires WfFields(fields) && SoundMsg(fields, m) && n <= |fields|
    ensures EncPrefix(fields, m, n).Some?
    decreases fields, 0, n
  {
    if n > 0 {
      EncPrefixSucceeds(fields, m, n - 1);
      EncFieldSucceeds(fields[n - 1], m.slots[n - 1], UnionTag(fields[n - 1], m));
    }
  }

  /** pb_encode never fails on a struct that fits its descriptor. */
  lemma {:induction false} EncodeSucceeds(fields: seq<Field>, m: Msg)
    requires WfFields(fields) && SoundMsg(fields, m)
    ensures EncMsg(fields, m).Some?
    decreases fields, 1
  {
    EncPrefixSucceeds(fields, m, |fields|);
  }

  // ---- Proto3 defaults ----

  /** A value the encoder omits as default is the one initialisation stores. */
  lemma {:induction false} DefaultSame(f: Field, v: Val, base: Val)
    requires WfField(f) && f.rule.Singular? && SoundVal(f, v) && FreshVal(f, base) && IsDefault(f, v)
    ensures SameVal(f, base, v)
    decreases f, 0
  {
    match f.kind
    case Submessage(fields) => DefaultMsgSame(fields, v.m, base.m);
    case String => assert StrLen(Zeros(f.dataSize)) == 0;
    case _ =>
  }

  lemma {:induction false} DefaultSlotSame(f: Field, slot: Slot, base: Slot, which: nat)
    requires WfField(f) && SoundSlot(f, slot, which) && ShapedSlot(f, base) && DefaultSlot(f, base) == base
    requires IsDefaultSlot(f, slot, which)
    ensures SameSlot(f, base, slot, which)
    decreases f, 1
  {
    if f.rule.Singular? {
      DefaultSame(f, slot.v, base.v);
    }
  }

  lemma {:induction false} DefaultMsgSame(fields: seq<Field>, m: Msg, base: Msg)
    requires WfFields(fields) && SoundMsg(fields, m) && Fresh(fields, base) && IsDefaultMsg(fields, m)
    ensures SameMsg(fields, base, m)
    decreases fields, 1
  {
    forall i | 0 <= i < |fields|
      ensures SameSlot(fields[i], base.slots[i], m.slots[i], UnionTag(fields[i], m))
      ensures UnionTag(fields[i], base) == UnionTag(fields[i], m)
    {
      FreshSlot(fields, base, i);
      DefaultSlotSame(fields[i], m.slots[i], base.slots[i], UnionTag(fields[i], m));
    }
  }

  // ---- Packed arrays ----

  ghost predicate AllShaped(f: Field, items: seq<Val>) {
    forall v | v in items :: Shaped(f, v)
  }

  /** The first n elements of got are those of want, and got keeps the array's layout. */
  ghost predicate Filled(f: Field, got: seq<Val>, want: seq<Val>, n: nat) {
    && |got| == f.arraySize && AllShaped(f, got) && n <= |got| && n <= |want|
    && forall k | 0 <= k < n :: SameVal(f, got[k], want[k])
  }

  lemma FillOne(f: Field, got: seq<Val>, want: seq<Val>, n: nat, v: Val)
    requires Filled(f, got, want, n) && n < |got| && n < |want| && Shaped(f, v) && SameVal(f, v, want[n])
    ensures Filled(f, got[n := v], want, n + 1)
  {
  }

  lemma {:induction false} PackedItemsRoundTrip(f: Field, items: seq<Val>, n: nat, prior: seq<Val>)
    requires WfField(f) && Packable(f.kind) && n <= |items| && n <= f.arraySize
    requires (forall k | 0 <= k < n :: SoundVal(f, items[k])) && Filled(f, prior, items, 0)
    requires EncItems(f, items, n).Some?
    ensures var r := DecPacked(f, 0, prior, EncItems(f, items, n).value);
            r.Some? && r.value.Rep? && r.value.count == n && Filled(f, r.value.items, items, n)
    decreases n
  {
    if n > 0 {
      PackedItemsRoundTrip(f, items, n - 1, prior);
      var a, b := EncItems(f, items, n - 1).value, EncVal(f, items[n - 1]).value;
      var got := DecPacked(f, 0, prior, a).value.items;
      PackedSplits(f, 0, prior, a, b);
      RT.ScalarRoundTrip(f, items[n - 1], got[n - 1], []);
      assert b + [] == b;
      FillOne(f, got, items, n - 1, DecScalar(f, got[n - 1], b).value.v);
    }
  }

  // ---- One field ----

  /** What the value decoder starts from in a field that is not repeated. */
  function StartVal(f: Field, slot: Slot): Val {
    if slot.Rep? then Num(0) else if f.rule.OneOf? then Start(f, slot.v) else slot.v
  }

  /** Storing a decoded value into a field that is not repeated. */
  function Store(m: Msg, i: nat, f: Field, v: Val): Msg {
    var stored := SetSlot(m, i, if f.rule.Optional? then Opt(true, v) else One(v));
    if f.rule.OneOf? then stored.(which := m.which[f.rule.union := f.tag]) else stored
  }

  lemma DecFieldSingle(fields: seq<Field>, m: Msg, i: nat, wireType: nat, s: bytes)
    requires i < |fields| && i < |m.slots| && !fields[i].rule.Repeated?
    requires if fields[i].rule.Optional? then m.slots[i].Opt? else m.slots[i].One?
    requires fields[i].rule.OneOf? ==> UnionOk(fields, m, fields[i].rule.union, fields[i].tag)
    ensures var r := DecVal(fields[i], StartVal(fields[i], m.slots[i]), s);
            DecField(fields, m, i, wireType, s) ==
            if r.None? then None else Some(Updated(Store(m, i, fields[i], r.value.v), r.value.rest))
  {
  }

  lemma DecFieldItem(fields: seq<Field>, m: Msg, i: nat, wireType: nat, s: bytes)
    requires i < |fields| && i < |m.slots| && fields[i].rule.Repeated? && !Packable(fields[i].kind)
    requires m.slots[i].Rep? && m.slots[i].count < |m.slots[i].items| && m.slots[i].count < fields[i].arraySize
    ensures var Rep(count, items) := m.slots[i];
            var r := DecVal(fields[i], items[count], s);
            DecField(fields, m, i, wireType, s) ==
            if r.None? then None
            else Some(Updated(SetSlot(m, i, Rep(count + 1, items[count := r.value.v])), r.value.rest))
  {
  }

  /** The decoder has taken in the first n fields of want, on top of base. */
  ghost predicate Done(fields: seq<Field>, want: Msg, base: Msg, n: nat, got: Msg, seen: set<nat>)
    requires n <= |fields| == |base.slots| == |want.slots|
  {
    && |got.slots| == |fields|
    && (forall i | 0 <= i < n :: SameSlot(fields[i], got.slots[i], want.slots[i], UnionTag(fields[i], want)))
    && (forall i | 0 <= i < n :: ShapedSlot(fields[i], got.slots[i]))
    && (forall i | n <= i < |fields| :: got.slots[i] == base.slots[i])
    && (forall i | 0 <= i < n :: fields[i].rule.Required? ==> i in seen)
    && UnionsDone(fields, want, n, got)
  }

  /** A union is untouched or already has its tag, and has it once its member is behind us. */
  ghost predicate UnionsDone(fields: seq<Field>, want: Msg, n: nat, got: Msg)
    requires n <= |fields|
  {
    && (forall u {:trigger Which(got, u)} :: Which(got, u) == 0 || Which(got, u) == Which(want, u))
    && (forall i | 0 <= i < n :: fields[i].rule.OneOf? && UnionTag(fields[i], want) == fields[i].tag ==>
          UnionTag(fields[i], got) == fields[i].tag)
    && (forall u | u in got.which :: DeclaresUnion(fields, u))
  }

  /** Leaving field n out is right when the fresh slot already says the same. */
  lemma DoneSkip(fields: seq<Field>, want: Msg, base: Msg, n: nat, got: Msg, seen: set<nat>)
    requires n < |fields| == |base.slots| == |want.slots| && Done(fields, want, base, n, got, seen)
    requires SameSlot(fields[n], base.slots[n], want.slots[n], UnionTag(fields[n], want))
    requires ShapedSlot(fields[n], base.slots[n]) && !fields[n].rule.Required?
    requires fields[n].rule.OneOf? ==> UnionTag(fields[n], want) != fields[n].tag
    ensures Done(fields, want, base, n + 1, got, seen)
  {
  }

  /** Storing field n's value. */
  lemma DoneStore(fields: seq<Field>, want: Msg, base: Msg, n: nat, got: Msg, seen: set<nat>, v: Val)
    requires n < |fields| == |base.slots| == |want.slots| && Done(fields, want, base, n, got, seen)
    requires !fields[n].rule.Repeated? && Shaped(fields[n], v)
    requires SameSlot(fields[n], if fields[n].rule.Optional? then Opt(true, v) else One(v),
                      want.slots[n], UnionTag(fields[n], want))
    requires fields[n].rule.OneOf? ==> UnionTag(fields[n], want) == fields[n].tag
    ensures Done(fields, want, base, n + 1, Store(got, n, fields[n], v), seen + {n})
  {
    var now := Store(got, n, fields[n], v);
    assert forall u {:trigger Which(now, u)} :: Which(now, u) == Which(got, u) || Which(now, u) == Which(want, u);
    assert UnionsDone(fields, want, n + 1, now);
  }

  lemma DoneArray(fields: seq<Field>, want: Msg, base: Msg, n: nat, got: Msg, seen: set<nat>, slot: Slot, seen': set<nat>)
    requires n < |fields| == |base.slots| == |want.slots| && Done(fields, want, base, n, got, seen)
    requires fields[n].rule.Repeated? && ShapedSlot(fields[n], slot) && seen <= seen'
    requires SameSlot(fields[n], slot, want.slots[n], 0)
    ensures Done(fields, want, base, n + 1, SetSlot(got, n, slot), seen')
  {
    var now := SetSlot(got, n, slot);
    assert forall u {:trigger Which(now, u)} :: Which(now, u) == Which(got, u);
    assert UnionsDone(fields, want, n + 1, now);
  }

  // ---- The induction ----

  lemma {:induction false} ValRoundTrip(f: Field, v: Val, prior: Val, t: bytes)
    requires WfField(f) && SoundVal(f, v) && Shaped(f, prior)
    requires EncVal(f, v).Some? && |EncVal(f, v).value| < TWO_32
    requires f.kind.Submessage? && !f.rule.Repeated? ==> Fresh(f.kind.fields, prior.m)
    ensures var r := DecVal(f, prior, EncVal(f, v).value + t);
            r.Some? && r.value.rest == t && SameVal(f, r.value.v, v) && Shaped(f, r.value.v)
    decreases f, 0
  {
    if f.kind.Submessage? {
      var fields := f.kind.fields;
      SkipEncodedString(EncMsg(fields, v.m).value, t);
      if f.rule.Repeated? {
        DefaultsFresh(fields, prior.m);
      }
      MsgRoundTrip(fields, v.m, if f.rule.Repeated? then SetDefaults(fields, prior.m) else prior.m);
    } else {
      RT.ScalarRoundTrip(f, v, prior, t);
    }
  }

  lemma StartIsFresh(fields: seq<Field>, base: Msg, i: nat)
    requires WfFields(fields) && Fresh(fields, base) && i < |fields| && !fields[i].rule.Repeated?
    ensures var start := StartVal(fields[i], base.slots[i]);
            Shaped(fields[i], start) && (fields[i].kind.Submessage? ==> Fresh(fields[i].kind.fields, start.m))
    ensures if fields[i].rule.Optional? then base.slots[i].Opt? else base.slots[i].One?
  {
    FreshSlot(fields, base, i);
    if fields[i].rule.OneOf? && fields[i].kind.Submessage? {
      ZeroShaped(fields[i].kind.fields);
      DefaultsFresh(fields[i].kind.fields, ZeroMsg(fields[i].kind.fields));
    }
  }

  lemma {:induction false} SingleRoundTrip(fields: seq<Field>, m: Msg, base: Msg, n: nat, got: Msg, seen: set<nat>, v: Val)
    returns (now: Msg)
    requires WfFields(fields) && Fresh(fields, base) && n < |fields| == |m.slots|
    requires Done(fields, m, base, n, got, seen) && !fields[n].rule.Repeated? && SoundVal(fields[n], v)
    requires m.slots[n] == (if fields[n].rule.Optional? then Opt(true, v) else One(v))
    requires fields[n].rule.OneOf? ==> UnionTag(fields[n], m) == fields[n].tag
    requires EncTagged(fields[n], v).Some? && |EncTagged(fields[n], v).value| < TWO_32
    ensures DecLoop(fields, got, seen, EncTagged(fields[n], v).value) == Some(State(now, seen + {n}, [], false))
    ensures Done(fields, m, base, n + 1, now, seen + {n})
    decreases fields, 6
  {
    var f := fields[n];
    var ev := EncVal(f, v).value;
    var start := StartVal(f, base.slots[n]);
    FindsItself(fields, n);
    LoopOnField(fields, got, seen, n, WireType(f.kind), ev);
    StartIsFresh(fields, base, n);
    ValRoundTrip(f, v, start, []);
    assert ev + [] == ev;
    var r := DecVal(f, start, ev).value;
    FreshSlot(fields, base, n);
    DecFieldSingle(fields, got, n, WireType(f.kind), ev);
    now := Store(got, n, f, r.v);
    DoneStore(fields, m, base, n, got, seen, r.v);
  }

  lemma {:induction false} TaggedItemsRoundTrip(fields: seq<Field>, i: nat, got: Msg, seen: set<nat>,
                                                items: seq<Val>, n: nat, e: bytes)
    returns (r: seq<Val>, seen': set<nat>)
    requires WfFields(fields) && i < |fields| == |got.slots| && fields[i].rule.Repeated? && !Packable(fields[i].kind)
    requires n <= |items| && n <= fields[i].arraySize && forall k | 0 <= k < n :: SoundVal(fields[i], items[k])
    requires got.slots[i].Rep? && got.slots[i].count == 0 && Filled(fields[i], got.slots[i].items, items, 0)
    requires EncTaggedItems(fields[i], items, n) == Some(e) && |e| < TWO_32
    ensures DecLoop(fields, got, seen, e) == Some(State(SetSlot(got, i, Rep(n, r)), seen', [], false))
    ensures Filled(fields[i], r, items, n) && seen <= seen'
    decreases fields, 6, n
  {
    if n == 0 {
      r, seen' := got.slots[i].items, seen;
      NoItems(fields, i, got, seen);
    } else {
      TaggedParts(fields[i], items, n);
      var a := EncTaggedItems(fields[i], items, n - 1).value;
      var q, before := TaggedItemsRoundTrip(fields, i, got, seen, items, n - 1, a);
      r, seen' := LastItem(fields, i, got, seen, items, n, a, q, before, e);
    }
  }

  /** The last of n tagged items, after the others. */
  lemma {:induction false} LastItem(fields: seq<Field>, i: nat, got: Msg, seen: set<nat>, items: seq<Val>, n: nat,
                                    a: bytes, q: seq<Val>, before: set<nat>, e: bytes)
    returns (r: seq<Val>, seen': set<nat>)
    requires WfFields(fields) && i < |fields| == |got.slots| && fields[i].rule.Repeated? && !Packable(fields[i].kind)
    requires 0 < n <= |items| && n <= fields[i].arraySize && SoundVal(fields[i], items[n - 1])
    requires Filled(fields[i], q, items, n - 1) && seen <= before
    requires EncTagged(fields[i], items[n - 1]).Some? && |EncTagged(fields[i], items[n - 1]).value| < TWO_32
    requires e == a + EncTagged(fields[i], items[n - 1]).value
    requires DecLoop(fields, got, seen, a) == Some(State(SetSlot(got, i, Rep(n - 1, q)), before, [], false))
    ensures DecLoop(fields, got, seen, e) == Some(State(SetSlot(got, i, Rep(n, r)), seen', [], false))
    ensures Filled(fields[i], r, items, n) && seen <= seen'
    decreases fields, 5, 1
  {
    var mid := SetSlot(got, i, Rep(n - 1, q));
    r := ItemRoundTrip(fields, i, mid, before, items, n - 1);
    seen' := before + {i};
    SetSlotTwice(got, i, Rep(n - 1, q), Some(Rep(n, r)));
    JoinRuns(fields, got, seen, a, State(mid, before, [], false), EncTagged(fields[i], items[n - 1]).value,
             State(SetSlot(got, i, Rep(n, r)), seen', [], false));
  }

  lemma NoItems(fields: seq<Field>, i: nat, got: Msg, seen: set<nat>)
    requires i < |got.slots| && got.slots[i].Rep? && got.slots[i].count == 0
    ensures DecLoop(fields, got, seen, []) ==
            Some(State(SetSlot(got, i, Rep(0, got.slots[i].items)), seen, [], false))
  {
    assert SetSlot(got, i, Rep(0, got.slots[i].items)) == got;
  }

  lemma TaggedParts(f: Field, items: seq<Val>, n: nat)
    requires 0 < n <= |items| && EncTaggedItems(f, items, n).Some?
    ensures EncTaggedItems(f, items, n - 1).Some? && EncTagged(f, items[n - 1]).Some?
    ensures EncTaggedItems(f, items, n).value ==
            EncTaggedItems(f, items, n - 1).value + EncTagged(f, items[n - 1]).value
    ensures |EncTaggedItems(f, items, n).value| ==
            |EncTaggedItems(f, items, n - 1).value| + |EncTagged(f, items[n - 1]).value|
  {
  }

  /** One more tagged item on top of k of them. */
  lemma {:induction false} ItemRoundTrip(fields: seq<Field>, i: nat, got: Msg, seen: set<nat>, items: seq<Val>, k: nat)
    returns (r: seq<Val>)
    requires WfFields(fields) && i < |fields| == |got.slots| && fields[i].rule.Repeated? && !Packable(fields[i].kind)
    requires k < |items| && k < fields[i].arraySize && SoundVal(fields[i], items[k])
    requires got.slots[i].Rep? && got.slots[i].count == k && Filled(fields[i], got.slots[i].items, items, k)
    requires EncTagged(fields[i], items[k]).Some? && |EncTagged(fields[i], items[k]).value| < TWO_32
    ensures DecLoop(fields, got, seen, EncTagged(fields[i], items[k]).value) ==
            Some(State(SetSlot(got, i, Rep(k + 1, r)), seen + {i}, [], false))
    ensures Filled(fields[i], r, items, k + 1)
    decreases fields, 5, 0
  {
    var f, q := fields[i], got.slots[i].items;
    var ev := EncVal(f, items[k]).value;
    FindsItself(fields, i);
    LoopOnField(fields, got, seen, i, WireType(f.kind), ev);
    ValRoundTrip(f, items[k], q[k], []);
    assert ev + [] == ev;
    DecFieldItem(fields, got, i, WireType(f.kind), ev);
    var w := DecVal(f, q[k], ev).value.v;
    FillOne(f, q, items, k, w);
    r := q[k := w];
  }

  lemma {:induction false} ArrayRoundTrip(fields: seq<Field>, m: Msg, base: Msg, n: nat, got: Msg, seen: set<nat>)
    returns (now: Msg, seen': set<nat>)
    requires WfFields(fields) && Fresh(fields, base) && n < |fields| == |m.slots|
    requires Done(fields, m, base, n, got, seen) && fields[n].rule.Repeated? && SoundSlot(fields[n], m.slots[n], 0)
    requires EncArray(fields[n], m.slots[n].count, m.slots[n].items).Some?
    requires |EncArray(fields[n], m.slots[n].count, m.slots[n].items).value| < TWO_32
    ensures DecLoop(fields, got, seen, EncArray(fields[n], m.slots[n].count, m.slots[n].items).value) ==
            Some(State(now, seen', [], false))
    ensures Done(fields, m, base, n + 1, now, seen')
    decreases fields, 7
  {
    var f := fields[n];
    var Rep(count, items) := m.slots[n];
    FreshSlot(fields, base, n);
    var prior := base.slots[n].items;
    if count == 0 {
      now, seen' := got, seen;
      DoneSkip(fields, m, base, n, got, seen);
    } else {
      var r;
      if Packable(f.kind) {
        PackedItemsRoundTrip(f, items, count, prior);
        var body := EncItems(f, items, count).value;
        FindsItself(fields, n);
        LoopOnField(fields, got, seen, n, WT_STRING, EncodeString(body));
        PackedField(fields, got, n, body, []);
        assert EncodeString(body) + [] == EncodeString(body);
        r, seen' := DecPacked(f, 0, prior, body).value.items, seen + {n};
      } else {
        r, seen' := TaggedItemsRoundTrip(fields, n, got, seen, items, count, EncTaggedItems(f, items, count).value);
      }
      now := SetSlot(got, n, Rep(count, r));
      DoneArray(fields, m, base, n, got, seen, Rep(count, r), seen');
    }
  }

  lemma {:induction false} FieldRoundTrip(fields: seq<Field>, m: Msg, base: Msg, n: nat, got: Msg, seen: set<nat>)
    returns (now: Msg, seen': set<nat>)
    requires WfFields(fields) && Fresh(fields, base) && SoundMsg(fields, m) && n < |fields|
    requires Done(fields, m, base, n, got, seen)
    requires EncField(fields[n], m.slots[n], UnionTag(fields[n], m)).Some?
    requires |EncField(fields[n], m.slots[n], UnionTag(fields[n], m)).value| < TWO_32
    ensures DecLoop(fields, got, seen, EncField(fields[n], m.slots[n], UnionTag(fields[n], m)).value) ==
            Some(State(now, seen', [], false))
    ensures Done(fields, m, base, n + 1, now, seen')
    decreases fields, 8
  {
    var f, slot := fields[n], m.slots[n];
    if f.rule.Repeated? {
      now, seen' := ArrayRoundTrip(fields, m, base, n, got, seen);
    } else if Absent(f, slot, UnionTag(f, m)) {
      AbsentIsSame(fields, m, base, n);
      DoneSkip(fields, m, base, n, got, seen);
      now, seen' := got, seen;
    } else {
      now := SingleRoundTrip(fields, m, base, n, got, seen, slot.v);
      seen' := seen + {n};
    }
  }

  /** The encoder writes nothing for this field. */
  predicate Absent(f: Field, slot: Slot, which: nat) {
    match f.rule
    case Optional => slot.Opt? && !slot.has
    case Singular => slot.One? && IsDefault(f, slot.v)
    case OneOf(_) => which != f.tag
    case _ => false
  }

  lemma AbsentIsSame(fields: seq<Field>, m: Msg, base: Msg, n: nat)
    requires WfFields(fields) && Fresh(fields, base) && SoundMsg(fields, m) && n < |fields|
    requires Absent(fields[n], m.slots[n], UnionTag(fields[n], m))
    ensures SameSlot(fields[n], base.slots[n], m.slots[n], UnionTag(fields[n], m))
    ensures ShapedSlot(fields[n], base.slots[n])
    ensures EncField(fields[n], m.slots[n], UnionTag(fields[n], m)) == Some([])
  {
    FreshSlot(fields, base, n);
    if fields[n].rule.Singular? {
      DefaultSame(fields[n], m.slots[n].v, base.slots[n].v);
    }
  }

  lemma {:induction false} PrefixRoundTrip(fields: seq<Field>, m: Msg, base: Msg, n: nat)
    returns (got: Msg, seen: set<nat>)
    requires WfFields(fields) && Fresh(fields, base) && SoundMsg(fields, m) && n <= |fields|
    requires EncPrefix(fields, m, n).Some? && |EncPrefix(fields, m, n).value| < TWO_32
    ensures DecLoop(fields, base, {}, EncPrefix(fields, m, n).value) == Some(State(got, seen, [], false))
    ensures Done(fields, m, base, n, got, seen)
    decreases fields, 9, n
  {
    if n == 0 {
      got, seen := base, {};
      StartsUndone(fields, m, base);
    } else {
      var mid, before := PrefixRoundTrip(fields, m, base, n - 1);
      var a := EncPrefix(fields, m, n - 1).value;
      var b := EncField(fields[n - 1], m.slots[n - 1], UnionTag(fields[n - 1], m)).value;
      got, seen := FieldRoundTrip(fields, m, base, n - 1, mid, before);
      JoinRuns(fields, base, {}, a, State(mid, before, [], false), b, State(got, seen, [], false));
    }
  }

  lemma StartsUndone(fields: seq<Field>, m: Msg, base: Msg)
    requires Fresh(fields, base) && |m.slots| == |fields|
    ensures Done(fields, m, base, 0, base, {})
  {
    assert base.which == map[] by {
      assert SetDefaults(fields, base).which == map[];
    }
    assert forall u {:trigger Which(base, u)} :: Which(base, u) == 0;
  }

  /** After all fields, the content is the same, unions included. */
  lemma AllDone(fields: seq<Field>, m: Msg, base: Msg, got: Msg, seen: set<nat>)
    requires WfFields(fields) && SoundMsg(fields, m) && |base.slots| == |fields|
    requires Done(fields, m, base, |fields|, got, seen)
    ensures SameMsg(fields, got, m) && ShapedMsg(fields, got) && RequiredSeen(fields, seen)
  {
    forall i | 0 <= i < |fields| ensures UnionTag(fields[i], got) == UnionTag(fields[i], m) {
      if fields[i].rule.OneOf? {
        var u := fields[i].rule.union;
        assert SoundUnion(fields, m, u);
        assert Which(got, u) == 0 || Which(got, u) == Which(m, u);
        if Which(m, u) != 0 {
          var j :| 0 <= j < |fields| && fields[j].rule == OneOf(u) && fields[j].tag == Which(m, u);
          assert UnionTag(fields[j], got) == fields[j].tag;
        }
      }
    }
  }

  lemma {:induction false} MsgRoundTrip(fields: seq<Field>, m: Msg, base: Msg)
    requires WfFields(fields) && Fresh(fields, base) && SoundMsg(fields, m)
    requires EncMsg(fields, m).Some? && |EncMsg(fields, m).value| < TWO_32
    ensures var r := DecNoInit(fields, base, EncMsg(fields, m).value);
            && r.Some? && r.value.rest == [] && !r.value.ended
            && SameMsg(fields, r.value.m, m) && ShapedMsg(fields, r.value.m)
    decreases fields, 10
  {
    var got, seen := PrefixRoundTrip(fields, m, base, |fields|);
    AllDone(fields, m, base, got, seen);
  }

  /**
   For every well-formed descriptor tree and every struct that fits it, with an encoding below 4 GB:
   encoding succeeds, and decoding the bytes into any struct of the same layout succeeds, consumes
   all of them and gives the same message.
   */
  lemma EncodeDecodeRoundTrip(fields: seq<Field>, m: Msg, dest: Msg)
    requires WfFields(fields) && SoundMsg(fields, m) && ShapedMsg(fields, dest)
    ensures EncMsg(fields, m).Some?
    ensures |EncMsg(fields, m).value| < TWO_32 ==>
              var r := DecMsg(fields, dest, EncMsg(fields, m).value);
              r.Some? && r.value.rest == [] && SameMsg(fields, r.value.m, m)
  {
    EncodeSucceeds(fields, m);
    DefaultsFresh(fields, dest);
    if |EncMsg(fields, m).value| < TWO_32 {
      MsgRoundTrip(fields, m, SetDefaults(fields, dest));
    }
  }
}
