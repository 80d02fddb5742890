/**
 Missing required fields: which messages pb_decode_noinit refuses, told by the tags of the top-level
 records it reads.
 */
module RequiredPresence {
  import opened Slices
  import opened Words
  import V = Varints
  import VA = VarintAcceptance
  import opened Schema
  import opened WireFormat
  import opened WireDecode
  import opened WireLaws
  import opened Soundness
  import WS = WireSpecification
  import MRT = MessageRoundTrip

  /** The tags of the top-level records, up to the end of the message. */
  ghost function TagsRead(fields: seq<Field>, m: Msg, s: bytes): set<nat>
    decreases |s|
  {
    var t := DecodeTag(s);
    if s == [] || !t.Tag? then {}
    else
      var u := DecRecord(fields, m, t.tag, t.wireType, t.rest);
      if u.None? then {} else {t.tag} + TagsRead(fields, u.value.m, u.value.rest)
  }

  /** The required fields before field i. */
  ghost function RequiredBefore(fields: seq<Field>, i: nat): set<nat>
    requires i <= |fields|
  {
    set j | 0 <= j < i && fields[j].rule.Required?
  }

  /** One of the first 64 required fields. */
  ghost predicate Watched(fields: seq<Field>, i: nat)
    requires i < |fields|
  {
    fields[i].rule.Required? && |RequiredBefore(fields, i)| < 64
  }

  lemma {:induction false} IndexCounts(fields: seq<Field>, i: nat)
    requires i <= |fields|
    ensures RequiredIndex(fields, i) == |RequiredBefore(fields, i)|
  {
    if i > 0 {
      IndexCounts(fields, i - 1);
      var before := RequiredBefore(fields, i - 1);
      if fields[i - 1].rule.Required? {
        assert RequiredBefore(fields, i) == before + {i - 1};
      } else {
        assert RequiredBefore(fields, i) == before;
      }
    }
  }

  /** What the loop marks are the fields whose tags it reads. */
  lemma {:induction false} SeenIsRead(fields: seq<Field>, m: Msg, seen: set<nat>, s: bytes, i: nat)
    requires Described(fields) && i < |fields| && DecLoop(fields, m, seen, s).Some?
    ensures i in DecLoop(fields, m, seen, s).value.seen <==> i in seen || fields[i].tag in TagsRead(fields, m, s)
    decreases |s|
  {
    if s != [] {
      var t := DecodeTag(s);
      if t.Tag? {
        var u := DecRecord(fields, m, t.tag, t.wireType, t.rest).value;
        FindsItself(fields, i);
        SeenIsRead(fields, u.m, Mark(fields, seen, t.tag), u.rest, i);
      }
    }
  }

  /**
   pb_decode_noinit accepts exactly when its records decode and each of the first 64 required fields
   of the descriptor has its tag on one of them.
   */
  lemma AcceptsIff(fields: seq<Field>, m: Msg, s: bytes)
    requires Described(fields)
    ensures DecNoInit(fields, m, s).Some? <==>
            && DecLoop(fields, m, {}, s).Some?
            && forall i | 0 <= i < |fields| && Watched(fields, i) :: fields[i].tag in TagsRead(fields, m, s)
  {
    if DecLoop(fields, m, {}, s).Some? {
      var seen := DecLoop(fields, m, {}, s).value.seen;
      forall i | 0 <= i < |fields|
        ensures i in seen <==> fields[i].tag in TagsRead(fields, m, s)
        ensures RequiredIndex(fields, i) == |RequiredBefore(fields, i)|
      {
        SeenIsRead(fields, m, {}, s, i);
        IndexCounts(fields, i);
      }
      assert RequiredSeen(fields, seen) <==>
             forall i | 0 <= i < |fields| && Watched(fields, i) :: fields[i].tag in TagsRead(fields, m, s);
    }
  }

  /** The first required field is watched. */
  lemma {:induction false} FirstRequired(fields: seq<Field>, i: nat) returns (k: nat)
    requires i < |fields| && fields[i].rule.Required?
    ensures k < |fields| && Watched(fields, k)
    decreases i
  {
    if j :| 0 <= j < i && fields[j].rule.Required? {
      k := FirstRequired(fields, j);
    } else {
      k := i;
      assert RequiredBefore(fields, i) == {};
    }
  }

  /** The empty message is accepted iff nothing is required. */
  lemma EmptyAcceptedIff(fields: seq<Field>, m: Msg)
    requires Described(fields)
    ensures DecNoInit(fields, m, []).Some? <==> forall i | 0 <= i < |fields| :: !fields[i].rule.Required?
  {
    AcceptsIff(fields, m, []);
    if i :| 0 <= i < |fields| && fields[i].rule.Required? {
      var k := FirstRequired(fields, i);
    }
  }

  // ---- Decoding consumes what skipping does ----

  lemma IntSkips(f: Field, s: bytes)
    requires DecInt(f, s).Some?
    ensures SkipVarint(s) == Some(DecInt(f, s).value.rest)
  {
    VA.Accepts64(s);
    VA.Rest64From(s, 0, 0);
    WS.SkipVarintOnTheWire(s);
  }

  lemma BytesSkip(f: Field, prior: Val, s: bytes)
    requires DecBytes(f, prior, s).Some?
    ensures SkipField(WT_STRING, s) == Some(DecBytes(f, prior, s).value.rest)
  {
    var d := V.DecodeVarint32(s).value;
    assert d.rest[0..] == d.rest;
  }

  /** A value decoded under its own wire type ends where pb_skip_field would. */
  lemma ValSkips(f: Field, prior: Val, s: bytes)
    requires DecVal(f, prior, s).Some?
    ensures SkipField(WireType(f.kind), s) == Some(DecVal(f, prior, s).value.rest)
  {
    match f.kind
    case Fixed32 =>
    case Fixed64 =>
    case Submessage(_) =>
    case Bytes => BytesSkip(f, prior, s);
    case String => BytesSkip(f, prior, s);
    case FixedBytes => BytesSkip(f, prior, s);
    case _ => IntSkips(f, s);
  }

  /** The wire types the encoder uses for a field: its type's own, or length-delimited for a packed array. */
  predicate OwnWireType(f: Field, wireType: nat) {
    wireType == WireType(f.kind) || (wireType == WT_STRING && f.rule.Repeated? && Packable(f.kind))
  }

  lemma FieldSkips(fields: seq<Field>, m: Msg, i: nat, wireType: nat, s: bytes)
    requires i < |fields| && OwnWireType(fields[i], wireType) && DecField(fields, m, i, wireType, s).Some?
    ensures SkipField(wireType, s) == Some(DecField(fields, m, i, wireType, s).value.rest)
  {
    var f := fields[i];
    match (f.rule, SlotAt(m, i))
    case (Repeated, Rep(count, items)) =>
      if !(wireType == WT_STRING && Packable(f.kind)) {
        ValSkips(f, items[count], s);
      }
    case (OneOf(u), One(v)) => ValSkips(f, Start(f, v), s);
    case (Optional, Opt(_, v)) => ValSkips(f, v, s);
    case (Required, One(v)) => ValSkips(f, v, s);
    case (Singular, One(v)) => ValSkips(f, v, s);
  }

  // ---- A message without one of its required fields ----

  /** Whatever the struct, no top-level record of s carries the tag. */
  ghost predicate Lacks(fields: seq<Field>, s: bytes, tag: nat) {
    forall m {:trigger TagsRead(fields, m, s)} :: tag !in TagsRead(fields, m, s)
  }

  lemma RecordLacksIn(fields: seq<Field>, m: Msg, j: nat, wireType: nat, s: bytes, rest: bytes, t: bytes, tag: nat)
    requires j < |fields| && FindField(fields, fields[j].tag) == j && fields[j].tag != tag && s != []
    requires DecodeTag(s) == Tag(fields[j].tag, wireType, rest)
    requires OwnWireType(fields[j], wireType) && SkipField(wireType, rest) == Some(t) && Lacks(fields, t, tag)
    ensures tag !in TagsRead(fields, m, s)
  {
    var u := DecField(fields, m, j, wireType, rest);
    if u.Some? {
      FieldSkips(fields, m, j, wireType, rest);
      assert tag !in TagsRead(fields, u.value.m, t);
    }
  }

  /** One encoded record of another field in front changes nothing. */
  lemma RecordLacks(fields: seq<Field>, j: nat, wireType: nat, e: bytes, t: bytes, tag: nat)
    requires Described(fields) && j < |fields| && fields[j].tag <= MAX_TAG && fields[j].tag != tag
    requires wireType < 8 && OwnWireType(fields[j], wireType) && SkipField(wireType, e + t) == Some(t)
    requires Lacks(fields, t, tag)
    ensures Lacks(fields, EncodeTag(wireType, fields[j].tag) + e + t, tag)
  {
    var s := EncodeTag(wireType, fields[j].tag) + e + t;
    assert s == EncodeTag(wireType, fields[j].tag) + (e + t);
    TagRoundTrip(wireType, fields[j].tag, e + t);
    FindsItself(fields, j);
    forall m {:trigger TagsRead(fields, m, s)} ensures tag !in TagsRead(fields, m, s) {
      RecordLacksIn(fields, m, j, wireType, s, e + t, t, tag);
    }
  }

  lemma TaggedLacks(fields: seq<Field>, j: nat, v: Val, t: bytes, tag: nat)
    requires Described(fields) && j < |fields| && fields[j].tag <= MAX_TAG && fields[j].tag != tag
    requires EncTagged(fields[j], v).Some? && |EncTagged(fields[j], v).value| < TWO_32 && Lacks(fields, t, tag)
    ensures Lacks(fields, EncTagged(fields[j], v).value + t, tag)
  {
    SkipUndoesEncode(fields[j], v, t);
    RecordLacks(fields, j, WireType(fields[j].kind), EncVal(fields[j], v).value, t, tag);
  }

  lemma {:induction false} ItemsLack(fields: seq<Field>, j: nat, items: seq<Val>, n: nat, t: bytes, tag: nat)
    requires Described(fields) && j < |fields| && fields[j].tag <= MAX_TAG && fields[j].tag != tag && n <= |items|
    requires EncTaggedItems(fields[j], items, n).Some? && |EncTaggedItems(fields[j], items, n).value| < TWO_32
    requires Lacks(fields, t, tag)
    ensures Lacks(fields, EncTaggedItems(fields[j], items, n).value + t, tag)
    decreases n
  {
    var f := fields[j];
    if n == 0 {
      assert [] + t == t;
    } else {
      var a, b := EncTaggedItems(f, items, n - 1).value, EncTagged(f, items[n - 1]).value;
      TaggedLacks(fields, j, items[n - 1], t, tag);
      ItemsLack(fields, j, items, n - 1, b + t, tag);
      assert a + b + t == a + (b + t);
    }
  }

  lemma FieldLacks(fields: seq<Field>, j: nat, slot: Slot, which: nat, t: bytes, tag: nat)
    requires Described(fields) && j < |fields| && fields[j].tag <= MAX_TAG && fields[j].tag != tag
    requires EncField(fields[j], slot, which).Some? && |EncField(fields[j], slot, which).value| < TWO_32
    requires Lacks(fields, t, tag)
    ensures Lacks(fields, EncField(fields[j], slot, which).value + t, tag)
  {
    var f, e := fields[j], EncField(fields[j], slot, which).value;
    if e == [] {
      assert e + t == t;
    } else if f.rule.Repeated? && Packable(f.kind) {
      var body := EncItems(f, slot.items, slot.count).value;
      SkipEncodedString(body, t);
      RecordLacks(fields, j, WT_STRING, EncodeString(body), t, tag);
    } else if f.rule.Repeated? {
      ItemsLack(fields, j, slot.items, slot.count, t, tag);
    } else {
      TaggedLacks(fields, j, slot.v, t, tag);
    }
  }

  /** The first n fields of a struct, without field i. */
  function EncOthers(fields: seq<Field>, m: Msg, i: nat, n: nat): Option<bytes>
    requires n <= |fields|
  {
    if n == 0 then Some([])
    else if n - 1 == i then EncOthers(fields, m, i, n - 1)
    else Concat(EncOthers(fields, m, i, n - 1),
                EncField(fields[n - 1], SlotAt(m, n - 1), UnionTag(fields[n - 1], m)))
  }

  lemma {:induction false} OthersLack(fields: seq<Field>, m: Msg, i: nat, n: nat, t: bytes)
    requires WfFields(fields) && i < |fields| && n <= |fields|
    requires EncOthers(fields, m, i, n).Some? && |EncOthers(fields, m, i, n).value| < TWO_32
    requires Lacks(fields, t, fields[i].tag)
    ensures Lacks(fields, EncOthers(fields, m, i, n).value + t, fields[i].tag)
    decreases n
  {
    if n == 0 {
      assert [] + t == t;
    } else if n - 1 == i {
      OthersLack(fields, m, i, n - 1, t);
    } else {
      var a := EncOthers(fields, m, i, n - 1).value;
      var b := EncField(fields[n - 1], SlotAt(m, n - 1), UnionTag(fields[n - 1], m)).value;
      FieldLacks(fields, n - 1, SlotAt(m, n - 1), UnionTag(fields[n - 1], m), t, fields[i].tag);
      OthersLack(fields, m, i, n - 1, b + t);
      assert a + b + t == a + (b + t);
    }
  }

  lemma {:induction false} OthersEncode(fields: seq<Field>, m: Msg, i: nat, n: nat)
    requires WfFields(fields) && SoundMsg(fields, m) && n <= |fields|
    ensures EncOthers(fields, m, i, n).Some?
  {
    if n > 0 {
      OthersEncode(fields, m, i, n - 1);
      MRT.EncFieldSucceeds(fields[n - 1], m.slots[n - 1], UnionTag(fields[n - 1], m));
    }
  }

  /**
   Leaving one of the first 64 required fields out of the encoding of a sound struct, and nothing else,
   makes the decoder refuse it, whatever struct it decodes into.
   */
  lemma MissingFieldRefused(fields: seq<Field>, m: Msg, i: nat, dest: Msg)
    requires WfFields(fields) && SoundMsg(fields, m) && i < |fields| && Watched(fields, i)
    ensures EncOthers(fields, m, i, |fields|).Some?
    ensures var e := EncOthers(fields, m, i, |fields|).value;
            |e| < TWO_32 ==> DecNoInit(fields, dest, e) == None && DecMsg(fields, dest, e) == None
  {
    OthersEncode(fields, m, i, |fields|);
    if |EncOthers(fields, m, i, |fields|).value| < TWO_32 {
      WithoutIsRefused(fields, m, i, dest);
      WithoutIsRefused(fields, m, i, SetDefaults(fields, dest));
    }
  }

  lemma WithoutIsRefused(fields: seq<Field>, m: Msg, i: nat, dest: Msg)
    requires WfFields(fields) && i < |fields| && Watched(fields, i)
    requires EncOthers(fields, m, i, |fields|).Some? && |EncOthers(fields, m, i, |fields|).value| < TWO_32
    ensures DecNoInit(fields, dest, EncOthers(fields, m, i, |fields|).value) == None
  {
    var e := EncOthers(fields, m, i, |fields|).value;
    assert Lacks(fields, [], fields[i].tag);
    OthersLack(fields, m, i, |fields|, []);
    assert e + [] == e;
    AcceptsIff(fields, dest, e);
    assert fields[i].tag !in TagsRead(fields, dest, e);
  }
}
