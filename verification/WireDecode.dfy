/**
 The decoder of nanopb (pb_decode.c) as a function of the remaining input: what pb_decode_noinit
 makes of a byte stream, a descriptor and a destination struct. None is a decoding error.
 */
module WireDecode {
  import opened Slices
  import V = Varints
  import opened LittleEndian
  import opened Schema
  import opened WireFormat
  import opened Words

  // ---- Single values ----

  /** A decoded value and the input after it. */
  datatype Parsed = Parsed(v: Val, rest: bytes)

  /** Conversion to a signed integer type of the given size. */
  function CastSigned(n: int, dataSize: nat): int {
    var h := SignedHalf(dataSize);
    (n + h) % (2 * h) - h
  }

  /** Conversion to an unsigned integer type of the given size. */
  function CastUnsigned(n: int, dataSize: nat): int {
    n % (2 * SignedHalf(dataSize))
  }

  /** pb_decode_svarint's mapping back. */
  function UnZigZag(u: nat): int {
    if u % 2 == 1 then -(u / 2) - 1 else u / 2
  }

  /** pb_dec_varint after the varint itself: sizes up to 32 bits go through int32 first. */
  function StoreVarint(dataSize: nat, value: nat): Option<Val> {
    var svalue := if dataSize == 8 then CastSigned(value, 8) else CastSigned(value, 4);
    if !IntSize(dataSize) || CastSigned(svalue, dataSize) != svalue then None else Some(Num(svalue))
  }

  /** pb_dec_uvarint after the varint itself. */
  function StoreUVarint(dataSize: nat, value: nat): Option<Val> {
    if !IntSize(dataSize) || CastUnsigned(value, dataSize) != value then None else Some(Num(value))
  }

  /** pb_dec_svarint after the varint itself. */
  function StoreSVarint(dataSize: nat, value: nat): Option<Val> {
    var n := UnZigZag(value);
    if !IntSize(dataSize) || CastSigned(n, dataSize) != n then None else Some(Num(n))
  }

  function StoreInt(f: Field, value: nat): Option<Val> {
    match f.kind
    case UVarint => StoreUVarint(f.dataSize, value)
    case SVarint => StoreSVarint(f.dataSize, value)
    case _ => StoreVarint(f.dataSize, value)
  }

  function DecFixed(n: nat, s: bytes): Option<Parsed> {
    if n <= |s| then Some(Parsed(Num(DecodeLE(s[..n])), s[n..])) else None
  }

  /** What pb_dec_bytes, pb_dec_string and pb_dec_fixed_length_bytes do with a length and the input after it. */
  function StoreBytes(f: Field, prior: Val, size: nat, s: bytes): Option<Parsed>
  {
    match (f.kind, prior)
    case (Bytes, Blob(_, data)) =>
      if size > PB_SIZE_MAX || BYTES_OFFSET + size > f.dataSize || size > |data| || size > |s| then None
      else Some(Parsed(Blob(size, s[..size] + data[size..]), s[size..]))
    case (String, Chars(data)) =>
      // alloc_size is computed in 32 bits; the terminator goes right after the text
      var allocSize := (size + 1) % TWO_32;
      if allocSize < size || allocSize > f.dataSize || size >= |data| || size > |s| then None
      else Some(Parsed(Chars(s[..size] + [0] + data[size + 1..]), s[size..]))
    case (FixedBytes, Chars(_)) =>
      if size > PB_SIZE_MAX then None
      else if size == 0 then Some(Parsed(Chars(Zeros(f.dataSize)), s))
      else if size != f.dataSize || size > |s| then None
      else Some(Parsed(Chars(s[..size]), s[size..]))
    case _ => None
  }

  /** The pb_dec_* functions other than pb_dec_submessage. */
  function DecScalar(f: Field, prior: Val, s: bytes): (r: Option<Parsed>)
    ensures r.Some? ==> |r.value.rest| < |s|
  {
    match f.kind
    case Fixed32 => DecFixed(4, s)
    case Fixed64 => DecFixed(8, s)
    case Submessage(_) => None
    case Bytes => DecBytes(f, prior, s)
    case String => DecBytes(f, prior, s)
    case FixedBytes => DecBytes(f, prior, s)
    case _ => DecInt(f, s)
  }

  function DecInt(f: Field, s: bytes): (r: Option<Parsed>)
    ensures r.Some? ==> |r.value.rest| < |s|
  {
    var d := V.DecodeVarint(s);
    if d.None? then None
    else
      var v := StoreInt(f, d.value.value);
      if v.None? then None else Some(Parsed(v.value, d.value.rest))
  }

  function DecBytes(f: Field, prior: Val, s: bytes): (r: Option<Parsed>)
    ensures r.Some? ==> |r.value.rest| < |s|
  {
    var d := V.DecodeVarint32(s);
    if d.None? then None else StoreBytes(f, prior, d.value.value, d.value.rest)
  }

  // ---- Tags, unknown fields and substreams ----

  datatype TagResult = BadTag | EndTag(rest: bytes) | Tag(tag: nat, wireType: nat, rest: bytes)

  /** pb_decode_tag: a zero tag ends the message. */
  function DecodeTag(s: bytes): (r: TagResult)
    ensures !r.BadTag? ==> |r.rest| < |s|
  {
    var d := V.DecodeVarint32(s);
    if d.None? then BadTag
    else if d.value.value == 0 then EndTag(d.value.rest)
    else Tag(d.value.value / 8, d.value.value % 8, d.value.rest)
  }

  function SkipVarint(s: bytes): (r: Option<bytes>)
    ensures r.Some? ==> |r.value| < |s|
  {
    if s == [] then None else if s[0] >= 128 then SkipVarint(s[1..]) else Some(s[1..])
  }

  /** pb_skip_field. */
  function SkipField(wireType: nat, s: bytes): (r: Option<bytes>)
    ensures r.Some? ==> |r.value| <= |s|
  {
    if wireType == WT_VARINT then SkipVarint(s)
    else if wireType == WT_64BIT then (if 8 <= |s| then Some(s[8..]) else None)
    else if wireType == WT_STRING then
      var d := V.DecodeVarint32(s);
      if d.None? || d.value.value > |d.value.rest| then None else Some(d.value.rest[d.value.value..])
    else if wireType == WT_32BIT then (if 4 <= |s| then Some(s[4..]) else None)
    else None
  }

  /** A length-limited substream and the parent's input after it. */
  datatype Substream = Substream(body: bytes, rest: bytes)

  /** pb_make_string_substream; closing it leaves the parent at rest, whatever was read of body. */
  function MakeSubstream(s: bytes): (r: Option<Substream>)
    ensures r.Some? ==> |r.value.body| + |r.value.rest| < |s|
  {
    var d := V.DecodeVarint32(s);
    if d.None? || d.value.value > |d.value.rest| then None
    else Some(Substream(d.value.rest[..d.value.value], d.value.rest[d.value.value..]))
  }

  /** The packed branch of decode_static_field, on the items' substream. */
  function DecPacked(f: Field, count: nat, items: seq<Val>, s: bytes): Option<Slot>
    decreases |s|
  {
    if s == [] then Some(Rep(count, items))
    else if count >= f.arraySize || count >= |items| then None
    else
      var r := DecScalar(f, items[count], s);
      if r.None? then None else DecPacked(f, count + 1, items[count := r.value.v], r.value.rest)
  }

  // ---- Fields ----

  /** pb_field_iter_find: the index of the field with this tag, |fields| if there is none. */
  function FindField(fields: seq<Field>, tag: nat): (i: nat)
    ensures i <= |fields|
    ensures i < |fields| ==> fields[i].tag == tag
    ensures forall j | 0 <= j < i :: fields[j].tag != tag
  {
    FindFrom(fields, tag, 0)
  }

  function FindFrom(fields: seq<Field>, tag: nat, k: nat): (i: nat)
    requires k <= |fields|
    ensures k <= i <= |fields|
    ensures i < |fields| ==> fields[i].tag == tag
    ensures forall j | k <= j < i :: fields[j].tag != tag
    decreases |fields| - k
  {
    if k == |fields| || fields[k].tag == tag then k else FindFrom(fields, tag, k + 1)
  }

  /** The number of required fields before index i: required_field_index. */
  function RequiredIndex(fields: seq<Field>, i: nat): (n: nat)
    requires i <= |fields|
    ensures n <= i
  {
    if i == 0 then 0 else RequiredIndex(fields, i - 1) + if fields[i - 1].rule.Required? then 1 else 0
  }

  /** Each of the first 64 required fields has occurred. */
  predicate RequiredSeen(fields: seq<Field>, seen: set<nat>) {
    forall i | 0 <= i < |fields| ::
      fields[i].rule.Required? && RequiredIndex(fields, i) < PB_MAX_REQUIRED_FIELDS ==> i in seen
  }

  /** A struct after decoding one record into it, and the input after the record. */
  datatype Updated = Updated(m: Msg, rest: bytes)

  /** Where a decoder stands: struct, required fields seen, input left, and whether a zero tag ended the message. */
  datatype State = State(m: Msg, seen: set<nat>, rest: bytes, ended: bool)

  function SetSlot(m: Msg, i: nat, slot: Slot): Msg {
    if i < |m.slots| then m.(slots := m.slots[i := slot]) else m
  }

  /** Any decoder of a single value; submessages recurse on their substream. */
  function DecVal(f: Field, prior: Val, s: bytes): (r: Option<Parsed>)
    ensures r.Some? ==> |r.value.rest| < |s|
    decreases |s|, 0
  {
    match f.kind
    case Submessage(fields) =>
      var sub := MakeSubstream(s);
      if sub.None? || !prior.Sub? then None
      else
        var start := if f.rule.Repeated? then SetDefaults(fields, prior.m) else prior.m;
        var r := DecNoInit(fields, start, sub.value.body);
        if r.None? then None else Some(Parsed(Sub(r.value.m), sub.value.rest))
    case _ => DecScalar(f, prior, s)
  }

  /** With malloc support, switching a oneof looks up the old member first. */
  predicate UnionOk(fields: seq<Field>, m: Msg, union: nat, tag: nat) {
    var w := Which(m, union);
    w == 0 || w == tag || FindField(fields, w) < |fields|
  }

  /** What a oneof member is decoded over: a submessage is wiped and set to defaults first. */
  function Start(f: Field, v: Val): Val {
    if f.kind.Submessage? then Sub(SetDefaults(f.kind.fields, ZeroMsg(f.kind.fields))) else v
  }

  /** decode_static_field for fields[i]. */
  function DecField(fields: seq<Field>, m: Msg, i: nat, wireType: nat, s: bytes): (r: Option<Updated>)
    requires i < |fields|
    ensures r.Some? ==> |r.value.rest| < |s|
    decreases |s|, 1
  {
    var f := fields[i];
    match (f.rule, SlotAt(m, i))
    case (Required, One(v)) =>
      var r := DecVal(f, v, s);
      if r.None? then None else Some(Updated(SetSlot(m, i, One(r.value.v)), r.value.rest))
    case (Singular, One(v)) =>
      var r := DecVal(f, v, s);
      if r.None? then None else Some(Updated(SetSlot(m, i, One(r.value.v)), r.value.rest))
    case (Optional, Opt(_, v)) =>
      var r := DecVal(f, v, s);
      if r.None? then None else Some(Updated(SetSlot(m, i, Opt(true, r.value.v)), r.value.rest))
    case (Repeated, Rep(count, items)) =>
      if wireType == WT_STRING && Packable(f.kind) then
        var sub := MakeSubstream(s);
        if sub.None? then None
        else
          var slot := DecPacked(f, count, items, sub.value.body);
          if slot.None? then None else Some(Updated(SetSlot(m, i, slot.value), sub.value.rest))
      else if count >= f.arraySize || count >= |items| then None
      else
        var r := DecVal(f, items[count], s);
        if r.None? then None
        else Some(Updated(SetSlot(m, i, Rep(count + 1, items[count := r.value.v])), r.value.rest))
    case (OneOf(u), One(v)) =>
      if !UnionOk(fields, m, u, f.tag) then None
      else
        var r := DecVal(f, Start(f, v), s);
        if r.None? then None
        else Some(Updated(SetSlot(m, i, One(r.value.v)).(which := m.which[u := f.tag]), r.value.rest))
    case _ => None
  }

  /** One record after its tag: a known field is decoded, an unknown one skipped. */
  function DecRecord(fields: seq<Field>, m: Msg, tag: nat, wireType: nat, s: bytes): (r: Option<Updated>)
    ensures r.Some? ==> |r.value.rest| <= |s|
    decreases |s|, 2
  {
    var i := FindField(fields, tag);
    if i < |fields| then DecField(fields, m, i, wireType, s)
    else if fields == [] && tag == 0 then None  // the search stops on the terminator of an empty descriptor
    else
      var rest := SkipField(wireType, s);
      if rest.None? then None else Some(Updated(m, rest.value))
  }

  function Mark(fields: seq<Field>, seen: set<nat>, tag: nat): set<nat> {
    var i := FindField(fields, tag);
    if i < |fields| then seen + {i} else seen
  }

  /** The loop of pb_decode_noinit. */
  function DecLoop(fields: seq<Field>, m: Msg, seen: set<nat>, s: bytes): (r: Option<State>)
    ensures r.Some? ==> |r.value.rest| <= |s|
    decreases |s|, 3
  {
    if s == [] then Some(State(m, seen, [], false))
    else
      var t := DecodeTag(s);
      if t.BadTag? then None
      else if t.EndTag? then Some(State(m, seen, t.rest, true))
      else
        var u := DecRecord(fields, m, t.tag, t.wireType, t.rest);
        if u.None? then None
        else DecLoop(fields, u.value.m, Mark(fields, seen, t.tag), u.value.rest)
  }

  /** pb_decode_noinit. */
  function DecNoInit(fields: seq<Field>, m: Msg, s: bytes): (r: Option<State>)
    ensures r.Some? ==> |r.value.rest| <= |s|
    decreases |s|, 4
  {
    var r := DecLoop(fields, m, {}, s);
    if r.Some? && RequiredSeen(fields, r.value.seen) then r else None
  }

  /** pb_decode. */
  function DecMsg(fields: seq<Field>, m: Msg, s: bytes): Option<State> {
    DecNoInit(fields, SetDefaults(fields, m), s)
  }
}
