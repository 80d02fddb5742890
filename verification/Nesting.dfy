/** How deep pb_decode_noinit calls itself, on any input, well-formed or not. */
module Nesting {
  import opened Slices
  import opened Schema
  import opened WireFormat
  import opened WireDecode
  import opened WireLaws

  function Max(a: nat, b: nat): nat {
    if a < b then b else a
  }

  /** Nested pb_decode_noinit calls while decoding one value. */
  ghost function ValDepth(f: Field, prior: Val, s: bytes): nat
    decreases |s|, 0
  {
    var sub := MakeSubstream(s);
    if !f.kind.Submessage? || sub.None? || !prior.Sub? then 0
    else
      var fields := f.kind.fields;
      MsgDepth(fields, if f.rule.Repeated? then SetDefaults(fields, prior.m) else prior.m, sub.value.body)
  }

  ghost function FieldDepth(fields: seq<Field>, m: Msg, i: nat, wireType: nat, s: bytes): nat
    requires i < |fields|
    decreases |s|, 1
  {
    var f := fields[i];
    match SlotAt(m, i)
    case Rep(count, items) =>
      if (wireType == WT_STRING && Packable(f.kind)) || count >= f.arraySize || count >= |items| then 0
      else ValDepth(f, items[count], s)
    case Opt(_, v) => ValDepth(f, v, s)
    case One(v) =>
      if !f.rule.OneOf? then ValDepth(f, v, s)
      else if UnionOk(fields, m, f.rule.union, f.tag) then ValDepth(f, Start(f, v), s)
      else 0
  }

  ghost function RecordDepth(fields: seq<Field>, m: Msg, tag: nat, wireType: nat, s: bytes): nat
    decreases |s|, 2
  {
    var i := FindField(fields, tag);
    if i < |fields| then FieldDepth(fields, m, i, wireType, s) else 0
  }

  /** pb_decode_noinit counts itself and the deepest of its records. */
  ghost function MsgDepth(fields: seq<Field>, m: Msg, s: bytes): (n: nat)
    ensures n >= 1
    decreases |s|, 3
  {
    if s == [] then 1
    else
      var t := DecodeTag(s);
      if !t.Tag? then 1
      else
        var here := 1 + RecordDepth(fields, m, t.tag, t.wireType, t.rest);
        var u := DecRecord(fields, m, t.tag, t.wireType, t.rest);
        if u.None? then here else Max(here, MsgDepth(fields, u.value.m, u.value.rest))
  }

  lemma {:induction false} ValDepthBound(f: Field, prior: Val, s: bytes)
    ensures 2 * ValDepth(f, prior, s) <= |s| + 1
    decreases |s|, 0
  {
    var sub := MakeSubstream(s);
    if f.kind.Submessage? && sub.Some? && prior.Sub? {
      var fields := f.kind.fields;
      DepthBound(fields, if f.rule.Repeated? then SetDefaults(fields, prior.m) else prior.m, sub.value.body);
    }
  }

  lemma {:induction false} FieldDepthBound(fields: seq<Field>, m: Msg, i: nat, wireType: nat, s: bytes)
    requires i < |fields|
    ensures 2 * FieldDepth(fields, m, i, wireType, s) <= |s| + 1
    decreases |s|, 1
  {
    match SlotAt(m, i)
    case Rep(count, items) =>
      if count < |items| {
        ValDepthBound(fields[i], items[count], s);
      }
    case Opt(_, v) => ValDepthBound(fields[i], v, s);
    case One(v) =>
      ValDepthBound(fields[i], v, s);
      ValDepthBound(fields[i], Start(fields[i], v), s);
  }

  /** Each nested message costs a tag and a length byte: n bytes nest at most 1 + n / 2 calls deep. */
  lemma {:induction false} DepthBound(fields: seq<Field>, m: Msg, s: bytes)
    ensures MsgDepth(fields, m, s) <= 1 + |s| / 2
    decreases |s|, 3
  {
    if s != [] {
      var t := DecodeTag(s);
      if t.Tag? {
        var i := FindField(fields, t.tag);
        if i < |fields| {
          FieldDepthBound(fields, m, i, t.wireType, t.rest);
        }
        var u := DecRecord(fields, m, t.tag, t.wireType, t.rest);
        if u.Some? {
          DepthBound(fields, u.value.m, u.value.rest);
        }
      }
    }
  }

  // ---- The bound is reached ----

  /** k messages, each with the next as its only field. */
  function Chain(k: nat): seq<Field> {
    if k == 0 then [] else [Field(1, Optional, Submessage(Chain(k - 1)), 0, -1, 0, 0, None)]
  }

  /** One record for each: its tag, its length, and the next. */
  function ChainBytes(k: nat): bytes
  {
    if k == 0 then [] else EncodeTag(2, 1) + EncodeString(ChainBytes(k - 1))
  }

  lemma {:induction false} ChainLength(k: nat)
    requires k <= 64
    ensures |ChainBytes(k)| == 2 * k
  {
    if k > 0 {
      ChainLength(k - 1);
    }
  }

  lemma InsideValue(f: Field, v: Val, body: bytes)
    requires f.kind.Submessage? && !f.rule.Repeated? && v.Sub? && |body| < 128
    ensures ValDepth(f, v, EncodeString(body)) == MsgDepth(f.kind.fields, v.m, body)
    ensures DecVal(f, v, EncodeString(body)).Some? ==> DecVal(f, v, EncodeString(body)).value.rest == []
  {
    SkipEncodedString(body, []);
    assert EncodeString(body) + [] == EncodeString(body);
  }

  lemma InsideRecord(f: Field, m: Msg, e: bytes)
    requires f.tag == 1 && f.rule.Optional? && |m.slots| == 1 && m.slots[0].Opt?
    ensures RecordDepth([f], m, 1, 2, e) == ValDepth(f, m.slots[0].v, e)
    ensures var u, r := DecRecord([f], m, 1, 2, e), DecVal(f, m.slots[0].v, e);
            u.Some? ==> r.Some? && u.value.rest == r.value.rest
  {
    assert FindField([f], 1) == 0;
  }

  lemma OneInside(f: Field, m: Msg, body: bytes)
    requires f.tag == 1 && f.rule.Optional? && f.kind.Submessage? && |body| < 128
    requires |m.slots| == 1 && m.slots[0].Opt? && m.slots[0].v.Sub?
    ensures MsgDepth([f], m, EncodeTag(2, 1) + EncodeString(body)) == 1 + MsgDepth(f.kind.fields, m.slots[0].v.m, body)
  {
    var e := EncodeString(body);
    TagRoundTrip(2, 1, e);
    InsideValue(f, m.slots[0].v, body);
    InsideRecord(f, m, e);
    LastRecord([f], m, EncodeTag(2, 1) + e, 1, 2, e);
  }

  /** A message of one record. */
  lemma LastRecord(fields: seq<Field>, m: Msg, s: bytes, tag: nat, wireType: nat, e: bytes)
    requires s != [] && DecodeTag(s) == Tag(tag, wireType, e)
    requires var u := DecRecord(fields, m, tag, wireType, e); u.Some? ==> u.value.rest == []
    ensures MsgDepth(fields, m, s) == 1 + RecordDepth(fields, m, tag, wireType, e)
  {
    var u := DecRecord(fields, m, tag, wireType, e);
    if u.Some? {
      assert MsgDepth(fields, u.value.m, []) == 1;
    }
  }

  lemma ChainSlot(k: nat)
    requires k > 0
    ensures |Chain(k)| == 1 && ZeroMsg(Chain(k)).slots == [Opt(false, Sub(ZeroMsg(Chain(k - 1))))]
  {
    var f := Chain(k)[0];
    assert ZeroVal(f) == Sub(ZeroMsg(Chain(k - 1)));
  }

  lemma ChainStep(k: nat, f: Field, body: bytes)
    requires k > 0 && Chain(k) == [f] && body == ChainBytes(k - 1) && |body| < 128
    ensures MsgDepth(Chain(k), ZeroMsg(Chain(k)), ChainBytes(k)) ==
            1 + MsgDepth(Chain(k - 1), ZeroMsg(Chain(k - 1)), ChainBytes(k - 1))
  {
    ChainSlot(k);
    OneInside(f, ZeroMsg(Chain(k)), body);
  }

  /** On 2 * k bytes a chain of k messages nests k + 1 calls deep, the most there can be, for lengths of one byte. */
  lemma {:induction false} DepthReached(k: nat)
    requires k <= 64
    ensures |ChainBytes(k)| == 2 * k && MsgDepth(Chain(k), ZeroMsg(Chain(k)), ChainBytes(k)) == k + 1
  {
    ChainLength(k);
    if k > 0 {
      ChainLength(k - 1);
      ChainStep(k, Chain(k)[0], ChainBytes(k - 1));
      DepthReached(k - 1);
    }
  }
}
