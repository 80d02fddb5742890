/** The encoder of nanopb (pb_encode.c), step by step on output streams. */
module Encoder {
  import opened Slices
  import V = Varints
  import opened LittleEndian
  import opened Schema
  import opened WireFormat
  import opened Soundness
  import opened Storage
  import opened FieldIters
  import opened OStreams
  import ZigZags
  import opened Words

  // ---- Basic encoders ----

  /** The buffer of pb_encode_varint after i digits: value is what remains. */
  ghost predicate Digits(v: nat, done: bytes, value: nat) {
    if value > 0 then done + V.EncodeVarint(value) == V.EncodeVarint(v)
    else
      && |done| > 0 && done[|done| - 1] >= 128
      && done[..|done| - 1] + [done[|done| - 1] % 128] == V.EncodeVarint(v)
  }

  lemma NextDigit(v: nat, done: bytes, value: nat)
    requires value > 0 && Digits(v, done, value)
    ensures Digits(v, done + [value % 128 + 128], value / 128)
  {
    var d := done + [value % 128 + 128];
    assert d[..|d| - 1] == done;
    assert (value % 128 + 128) % 128 == value % 128;
    if value >= 128 {
      assert d + V.EncodeVarint(value / 128) == done + ([value % 128 + 128] + V.EncodeVarint(value / 128));
    }
  }

  /** The loop of pb_encode_varint, which fills a ten-byte buffer, and the fixup of the last byte. */
  method VarintDigits(v: nat) returns (buffer: array<byte>, n: nat)
    requires 0 < v < TWO_64
    ensures fresh(buffer) && n <= buffer.Length == 10
    ensures buffer[..n] == V.EncodeVarint(v)
  {
    buffer, n := new byte[10], 0;
    var value := v;
    V.TenBytes(v);
    while value != 0
      invariant n <= 10 && Digits(v, buffer[..n], value)
    {
      assert n + |V.EncodeVarint(value)| == |V.EncodeVarint(v)|;
      NextDigit(v, buffer[..n], value);
      buffer[n] := value % 128 + 128;
      assert buffer[..n + 1] == buffer[..n] + [value % 128 + 128];
      value := value / 128;
      n := n + 1;
    }
    ghost var digits := buffer[..n];
    buffer[n - 1] := buffer[n - 1] % 128;
    assert buffer[..n] == digits[..n - 1] + [digits[n - 1] % 128];
  }

  /** pb_encode_varint. */
  method EncodeVarint(s: OStream, v: nat) returns (ok: bool)
    requires s.Ok() && v < TWO_64
    modifies s, s.buf
    ensures Outcome(old(s.Now()), s.Now(), Some(V.EncodeVarint(v)), ok)
  {
    if v <= 0x7F {
      ok := s.Write([v], 1, [v]);
      return;
    }
    var buffer, n := VarintDigits(v);
    ok := s.Write(buffer[..], n, buffer[..n]);
  }

  /** pb_encode_svarint. */
  method EncodeSVarint(s: OStream, value: int) returns (ok: bool)
    requires s.Ok() && InSigned(value, 8)
    modifies s, s.buf
    ensures Outcome(old(s.Now()), s.Now(), Some(V.EncodeVarint(ZigZag(value))), ok)
  {
    ZigZags.EncodesZigZag(value, 64);
    ok := EncodeVarint(s, ZigZags.NanopbEncode(value));
  }

  lemma {:induction false} FixedBytesOf(n: nat)
    ensures FixedLE(n, 4) == [n % 256, n / 0x100 % 256, n / 0x1_0000 % 256, n / 0x100_0000 % 256]
    ensures FixedLE(n, 8) == FixedLE(n, 4) + FixedLE(n / 0x1_0000_0000, 4)
  {
    var n1 := n / 256;
    var n2 := n1 / 256;
    var n3 := n2 / 256;
    var n4 := n3 / 256;
    assert n2 == n / 0x1_0000 && n3 == n / 0x100_0000 && n4 == n / 0x1_0000_0000;
    assert FixedLE(n3, 1) == [n3 % 256];
    assert FixedLE(n2, 2) == [n2 % 256] + FixedLE(n3, 1);
    assert FixedLE(n1, 3) == [n1 % 256] + FixedLE(n2, 2);
    assert FixedLE(n, 8) == [n % 256] + ([n1 % 256] + ([n2 % 256] + ([n3 % 256] + FixedLE(n4, 4)))) by {
      assert FixedLE(n1, 7) == [n1 % 256] + FixedLE(n2, 6);
      assert FixedLE(n2, 6) == [n2 % 256] + FixedLE(n3, 5);
      assert FixedLE(n3, 5) == [n3 % 256] + FixedLE(n4, 4);
    }
  }

  /** pb_encode_fixed32. */
  method EncodeFixed32(s: OStream, val: nat) returns (ok: bool)
    requires s.Ok()
    modifies s, s.buf
    ensures Outcome(old(s.Now()), s.Now(), Some(FixedLE(val, 4)), ok)
  {
    var data := [val % 256, val / 0x100 % 256, val / 0x1_0000 % 256, val / 0x100_0000 % 256];
    FixedBytesOf(val);
    ok := s.Write(data, 4, data);
  }

  /** pb_encode_fixed64. */
  method EncodeFixed64(s: OStream, val: nat) returns (ok: bool)
    requires s.Ok()
    modifies s, s.buf
    ensures Outcome(old(s.Now()), s.Now(), Some(FixedLE(val, 8)), ok)
  {
    var high := val / 0x1_0000_0000;
    var data := [val % 256, val / 0x100 % 256, val / 0x1_0000 % 256, val / 0x100_0000 % 256,
                 high % 256, high / 0x100 % 256, high / 0x1_0000 % 256, high / 0x100_0000 % 256];
    FixedBytesOf(val);
    FixedBytesOf(high);
    assert data == FixedLE(val, 4) + FixedLE(high, 4);
    ok := s.Write(data, 8, data);
  }

  /** pb_encode_tag. */
  method EncodeTagTo(s: OStream, wireType: nat, tag: nat) returns (ok: bool)
    requires s.Ok() && wireType < 8 && tag <= PB_SIZE_MAX
    modifies s, s.buf
    ensures Outcome(old(s.Now()), s.Now(), Some(EncodeTag(wireType, tag)), ok)
  {
    ok := EncodeVarint(s, tag * 8 + wireType);
  }

  /** pb_encode_tag_for_field. */
  method EncodeTagForField(s: OStream, f: Field) returns (ok: bool)
    requires s.Ok() && f.tag <= PB_SIZE_MAX
    modifies s, s.buf
    ensures Outcome(old(s.Now()), s.Now(), Some(EncodeTag(WireType(f.kind), f.tag)), ok)
  {
    var wireType;
    match f.kind {
      case Varint => wireType := WT_VARINT;
      case UVarint => wireType := WT_VARINT;
      case SVarint => wireType := WT_VARINT;
      case Fixed32 => wireType := WT_32BIT;
      case Fixed64 => wireType := WT_64BIT;
      case _ => wireType := WT_STRING;
    }
    ok := EncodeTagTo(s, wireType, f.tag);
  }

  /** pb_encode_string, on the first size bytes of buffer. */
  method EncodeStringTo(s: OStream, buffer: bytes, size: nat) returns (ok: bool)
    requires s.Ok() && size <= |buffer| && size < TWO_64
    modifies s, s.buf
    ensures Outcome(old(s.Now()), s.Now(), Some(EncodeString(buffer[..size])), ok)
  {
    ghost var a, len, text := s.Now(), V.EncodeVarint(size), buffer[..size];
    ok := EncodeVarint(s, size);
    ghost var b := s.Now();
    if !ok {
      Abort(a, b, Some(len), Some(text));
      return;
    }
    ok := s.Write(buffer, size, text);
    Then(a, b, s.Now(), Some(len), Some(text), ok);
  }

  // ---- Values ----

  /** pb_enc_varint. */
  method EncVarint(s: OStream, f: Field, v: Val) returns (ok: bool)
    requires s.Ok() && f.kind.Varint? && Stored(f, v)
    modifies s, s.buf
    ensures Outcome(old(s.Now()), s.Now(), EncVal(f, v), ok)
  {
    if !IntSize(f.dataSize) {
      return false;
    }
    ok := EncodeVarint(s, AsUnsigned(v.n));
  }

  /** pb_enc_uvarint. */
  method EncUVarint(s: OStream, f: Field, v: Val) returns (ok: bool)
    requires s.Ok() && f.kind.UVarint? && Stored(f, v)
    modifies s, s.buf
    ensures Outcome(old(s.Now()), s.Now(), EncVal(f, v), ok)
  {
    if !IntSize(f.dataSize) {
      return false;
    }
    ok := EncodeVarint(s, v.n);
  }

  /** pb_enc_svarint. */
  method EncSVarint(s: OStream, f: Field, v: Val) returns (ok: bool)
    requires s.Ok() && f.kind.SVarint? && Stored(f, v)
    modifies s, s.buf
    ensures Outcome(old(s.Now()), s.Now(), EncVal(f, v), ok)
  {
    if !IntSize(f.dataSize) {
      return false;
    }
    ok := EncodeSVarint(s, v.n);
  }

  /** pb_enc_bytes. */
  method EncBytes(s: OStream, f: Field, v: Val) returns (ok: bool)
    requires s.Ok() && f.kind.Bytes? && f.dataSize <= PB_SIZE_MAX && Stored(f, v)
    modifies s, s.buf
    ensures Outcome(old(s.Now()), s.Now(), EncVal(f, v), ok)
  {
    if BYTES_OFFSET + v.size > f.dataSize {
      return false;
    }
    ok := EncodeStringTo(s, v.data, v.size);
  }

  /** pb_enc_string: the text ends at the first NUL, or at the end of the member. */
  method EncString(s: OStream, f: Field, v: Val) returns (ok: bool)
    requires s.Ok() && f.kind.String? && f.dataSize <= PB_SIZE_MAX && Stored(f, v)
    modifies s, s.buf
    ensures Outcome(old(s.Now()), s.Now(), EncVal(f, v), ok)
  {
    var size := 0;
    while size < f.dataSize && v.data[size] != 0
      invariant size <= f.dataSize
      invariant forall i | 0 <= i < size :: v.data[i] != 0
    {
      size := size + 1;
    }
    assert size == StrLen(v.data);
    ok := EncodeStringTo(s, v.data, size);
  }

  /** The encoder that PB_ENCODERS holds for the field's type. */
  method EncValue(s: OStream, f: Field, v: Val) returns (ok: bool)
    requires s.Ok() && Declared(f) && Stored(f, v)
    modifies s, s.buf
    ensures Outcome(old(s.Now()), s.Now(), EncVal(f, v), ok)
    decreases f, 0
  {
    match f.kind {
      case Varint => ok := EncVarint(s, f, v);
      case UVarint => ok := EncUVarint(s, f, v);
      case SVarint => ok := EncSVarint(s, f, v);
      case Fixed32 => ok := EncodeFixed32(s, v.n);
      case Fixed64 => ok := EncodeFixed64(s, v.n);
      case Bytes => ok := EncBytes(s, f, v);
      case String => ok := EncString(s, f, v);
      case FixedBytes =>
        assert v.data[..f.dataSize] == v.data;
        ok := EncodeStringTo(s, v.data, f.dataSize);
      case Submessage(fields) => ok := EncodeSubmessage(s, fields, v.m);
    }
  }

  /** Tag and value. */
  method EncTaggedValue(s: OStream, f: Field, v: Val) returns (ok: bool)
    requires s.Ok() && Declared(f) && Stored(f, v)
    modifies s, s.buf
    ensures Outcome(old(s.Now()), s.Now(), EncTagged(f, v), ok)
    decreases f, 1
  {
    ghost var a, tag := s.Now(), Some(EncodeTag(WireType(f.kind), f.tag));
    ok := EncodeTagForField(s, f);
    ghost var b := s.Now();
    if !ok {
      Abort(a, b, tag, EncVal(f, v));
      return;
    }
    ok := EncValue(s, f, v);
    Then(a, b, s.Now(), tag, EncVal(f, v), ok);
  }

  // ---- Submessages ----

  /** What a message's encoding on a nested stream of exactly its size means for the parent. */
  lemma Nested(b: Output, n: Output, n': Output, c: Output, e: bytes, status: bool)
    requires InBounds(b) && !b.sizing && Room(b, |e|)
    requires n == Output(false, b.buffer, |e|, b.state, 0) && Outcome(n, n', Some(e), status)
    requires c == b.(buffer := n'.buffer, state := n'.state, written := b.written + n'.written)
    ensures status && n'.written == |e| && Outcome(b, c, Some(e), true)
  {
  }

  /** The writing pass of pb_encode_submessage, on a nested stream limited to the size counted before. */
  method EncodeNested(s: OStream, fields: seq<Field>, m: Msg, size: nat) returns (ok: bool)
    requires s.Ok() && !s.sizing && StoredMsg(fields, m)
    requires EncMsg(fields, m).Some? && |EncMsg(fields, m).value| == size
    modifies s, s.buf
    ensures Outcome(old(s.Now()), s.Now(), EncMsg(fields, m), ok)
    decreases fields, 3
  {
    if s.written + size > s.maxSize {
      return false;
    }
    ghost var b, e := s.Now(), EncMsg(fields, m).value;
    var substream := new OStream.FromBuffer(s.buf, s.state, size);
    ghost var n := substream.Now();
    var status := PbEncode(substream, fields, m);
    s.written := s.written + substream.written;
    s.state := substream.state;
    Nested(b, n, substream.Now(), s.Now(), e, status);
    return substream.written == size && status;
  }

  /** pb_get_encoded_size: the sizing pass counts exactly the bytes of the encoding. */
  method GetEncodedSize(fields: seq<Field>, m: Msg) returns (ok: bool, size: nat)
    requires StoredMsg(fields, m)
    ensures ok <==> EncMsg(fields, m).Some?
    ensures ok ==> size == |EncMsg(fields, m).value|
    decreases fields, 3
  {
    var stream := new OStream.Sizing();
    ok := PbEncode(stream, fields, m);
    size := stream.written;
  }

  /**
   pb_encode_submessage: a sizing pass, the length, and a pass on a nested stream limited to that
   length. The sizes of the two passes never differ.
   */
  method EncodeSubmessage(s: OStream, fields: seq<Field>, m: Msg) returns (ok: bool)
    requires s.Ok() && StoredMsg(fields, m) && SizeFits(fields, m)
    modifies s, s.buf
    ensures var e := EncMsg(fields, m);
            Outcome(old(s.Now()), s.Now(), if e.Some? then Some(EncodeString(e.value)) else None, ok)
    decreases fields, 4
  {
    ghost var a, e := s.Now(), EncMsg(fields, m);
    var size;
    ok, size := GetEncodedSize(fields, m);
    assert s.Now() == a;
    if !ok {
      return;
    }
    ghost var len := Some(V.EncodeVarint(size));
    ok := EncodeVarint(s, size);
    ghost var b := s.Now();
    if !ok {
      Abort(a, b, len, e);
      return;
    }
    if s.sizing {
      ok := s.Write([], size, e.value);
    } else {
      ok := EncodeNested(s, fields, m, size);
    }
    Then(a, b, s.Now(), len, e, ok);
  }

  // ---- Arrays ----

  lemma PackableLength(f: Field, v: Val)
    requires Packable(f.kind) && Stored(f, v)
    ensures EncVal(f, v).Some? ==> |EncVal(f, v).value| <= 10
    ensures f.kind.Fixed32? ==> EncVal(f, v).Some? && |EncVal(f, v).value| == 4
    ensures f.kind.Fixed64? ==> EncVal(f, v).Some? && |EncVal(f, v).value| == 8
  {
    if !f.kind.Fixed32? && !f.kind.Fixed64? && IntSize(f.dataSize) {
      V.TenBytes(if f.kind.Varint? then AsUnsigned(v.n) else if f.kind.SVarint? then ZigZag(v.n) else v.n);
    }
  }

  lemma {:induction false} PackedLength(f: Field, items: seq<Val>, n: nat)
    requires Packable(f.kind) && n <= |items| && forall v | v in items :: Stored(f, v)
    ensures EncItems(f, items, n).Some? ==> |EncItems(f, items, n).value| <= 10 * n
    ensures f.kind.Fixed32? ==> EncItems(f, items, n).Some? && |EncItems(f, items, n).value| == 4 * n
    ensures f.kind.Fixed64? ==> EncItems(f, items, n).Some? && |EncItems(f, items, n).value| == 8 * n
  {
    if n > 0 {
      PackedLength(f, items, n - 1);
      assert items[n - 1] in items;
      PackableLength(f, items[n - 1]);
    }
  }

  lemma {:induction false} ItemsAbort(a: Output, b: Output, f: Field, items: seq<Val>, k: nat, n: nat)
    requires k <= n <= |items| && InBounds(a) && Outcome(a, b, EncItems(f, items, k), false)
    ensures Outcome(a, b, EncItems(f, items, n), false)
  {
    if k < n {
      ItemsAbort(a, b, f, items, k, n - 1);
      Abort(a, b, EncItems(f, items, n - 1), EncVal(f, items[n - 1]));
    }
  }

  lemma {:induction false} TaggedItemsAbort(a: Output, b: Output, f: Field, items: seq<Val>, k: nat, n: nat)
    requires k <= n <= |items| && InBounds(a) && Outcome(a, b, EncTaggedItems(f, items, k), false)
    ensures Outcome(a, b, EncTaggedItems(f, items, n), false)
  {
    if k < n {
      TaggedItemsAbort(a, b, f, items, k, n - 1);
      Abort(a, b, EncTaggedItems(f, items, n - 1), EncTagged(f, items[n - 1]));
    }
  }

  /** The items of a packed array, for counting or for writing. */
  method EncodeItems(s: OStream, f: Field, count: nat, items: seq<Val>) returns (ok: bool)
    requires s.Ok() && Declared(f) && count <= |items| && forall v | v in items :: Stored(f, v)
    modifies s, s.buf
    ensures Outcome(old(s.Now()), s.Now(), EncItems(f, items, count), ok)
    decreases f, 1
  {
    ghost var a := s.Now();
    for i := 0 to count
      invariant s.Ok() && Outcome(a, s.Now(), EncItems(f, items, i), true)
    {
      ghost var b := s.Now();
      ok := EncValue(s, f, items[i]);
      Then(a, b, s.Now(), EncItems(f, items, i), EncVal(f, items[i]), ok);
      if !ok {
        ItemsAbort(a, s.Now(), f, items, i + 1, count);
        return;
      }
    }
    return true;
  }

  method EncodeTaggedItems(s: OStream, f: Field, count: nat, items: seq<Val>) returns (ok: bool)
    requires s.Ok() && Declared(f) && count <= |items| && forall v | v in items :: Stored(f, v)
    modifies s, s.buf
    ensures Outcome(old(s.Now()), s.Now(), EncTaggedItems(f, items, count), ok)
    decreases f, 2
  {
    ghost var a := s.Now();
    for i := 0 to count
      invariant s.Ok() && Outcome(a, s.Now(), EncTaggedItems(f, items, i), true)
    {
      ghost var b := s.Now();
      ok := EncTaggedValue(s, f, items[i]);
      Then(a, b, s.Now(), EncTaggedItems(f, items, i), EncTagged(f, items[i]), ok);
      if !ok {
        TaggedItemsAbort(a, s.Now(), f, items, i + 1, count);
        return;
      }
    }
    return true;
  }

  /** The total size of a packed array: computed for fixed-width types, counted for the others. */
  method PackedSize(f: Field, count: nat, items: seq<Val>) returns (ok: bool, size: nat)
    requires Packable(f.kind) && Declared(f) && count <= |items| && forall v | v in items :: Stored(f, v)
    ensures ok <==> EncItems(f, items, count).Some?
    ensures ok ==> size == |EncItems(f, items, count).value|
    decreases f, 2
  {
    PackedLength(f, items, count);
    if f.kind.Fixed32? {
      return true, 4 * count;
    }
    if f.kind.Fixed64? {
      return true, 8 * count;
    }
    var sizestream := new OStream.Sizing();
    ok := EncodeItems(sizestream, f, count, items);
    size := sizestream.written;
  }

  /** The packed branch of encode_array: tag, total size, then the items; a sizing stream skips the last pass. */
  method EncodePacked(s: OStream, f: Field, count: nat, items: seq<Val>) returns (ok: bool)
    requires s.Ok() && Packable(f.kind) && Declared(f)
    requires 0 < count <= f.arraySize == |items| && forall v | v in items :: Stored(f, v)
    modifies s, s.buf
    ensures Outcome(old(s.Now()), s.Now(), EncArray(f, count, items), ok)
    decreases f, 3
  {
    ghost var a, tag, body := s.Now(), Some(EncodeTag(WT_STRING, f.tag)), EncItems(f, items, count);
    ok := EncodeTagTo(s, WT_STRING, f.tag);
    ghost var b := s.Now();
    if !ok {
      Abort(a, b, tag, if body.Some? then Some(EncodeString(body.value)) else None);
      return;
    }
    var size;
    ok, size := PackedSize(f, count, items);
    if !ok {
      return;
    }
    PackedLength(f, items, count);
    ghost var len := Some(V.EncodeVarint(size));
    ok := EncodeVarint(s, size);
    ghost var c := s.Now();
    Then(a, b, c, tag, len, ok);
    assert Concat(Concat(tag, len), body) == EncArray(f, count, items) by {
      assert tag.value + (len.value + body.value) == tag.value + len.value + body.value;
    }
    if !ok {
      Abort(a, c, Concat(tag, len), body);
      return;
    }
    if s.sizing {
      ok := s.Write([], size, body.value);
    } else {
      ok := EncodeItems(s, f, count, items);
    }
    Then(a, c, s.Now(), Concat(tag, len), body, ok);
  }

  /** encode_array. */
  method EncodeArray(s: OStream, f: Field, count: nat, items: seq<Val>) returns (ok: bool)
    requires s.Ok() && Declared(f) && |items| == f.arraySize && forall v | v in items :: Stored(f, v)
    modifies s, s.buf
    ensures Outcome(old(s.Now()), s.Now(), EncArray(f, count, items), ok)
    decreases f, 4
  {
    if count == 0 {
      return true;
    }
    if count > f.arraySize {
      return false;
    }
    if Packable(f.kind) {
      ok := EncodePacked(s, f, count, items);
    } else {
      ok := EncodeTaggedItems(s, f, count, items);
    }
  }

  // ---- Fields ----

  /** The byte-per-byte comparison with zero. */
  method BytesAreZero(data: bytes) returns (zero: bool)
    ensures zero <==> AllZero(data)
  {
    for i := 0 to |data|
      invariant forall j | 0 <= j < i :: data[j] == 0
    {
      if data[i] != 0 {
        return false;
      }
    }
    return true;
  }

  /** pb_check_proto3_default_value on a singular field. */
  method IsDefaultValue(f: Field, v: Val) returns (d: bool)
    requires Stored(f, v)
    ensures d <==> IsDefault(f, v)
    decreases f, 0
  {
    match f.kind {
      case Bytes => d := v.size == 0;
      case String => d := v.data == [] || v.data[0] == 0;
      case FixedBytes => d := f.dataSize == 0;
      case Submessage(fields) =>
        var iter := new FieldIter(fields, 0);
        if fields == [] {
          return true;
        }
        while true
          invariant iter.Ok() && fresh(iter) && iter.fields == fields
          invariant forall i | 0 <= i < iter.pos :: IsDefaultSlot(fields[i], SlotAt(v.m, i), UnionTag(fields[i], v.m))
          decreases |fields| - iter.pos
        {
          var i := iter.pos;
          d := IsDefaultField(fields[i], v.m.slots[i], UnionTag(fields[i], v.m));
          if !d {
            return false;
          }
          var more := iter.Next();
          if !more {
            return true;
          }
        }
      case _ =>
        NumberIsZero(v.n, f.dataSize, !f.kind.UVarint? && !f.kind.Fixed32? && !f.kind.Fixed64?);
        d := BytesAreZero(FixedLE(Unsigned(v.n, f.dataSize), f.dataSize));
    }
  }

  /** pb_check_proto3_default_value. */
  method IsDefaultField(f: Field, slot: Slot, which: nat) returns (d: bool)
    requires StoredSlot(f, slot)
    ensures d <==> IsDefaultSlot(f, slot, which)
    decreases f, 1
  {
    match f.rule {
      case Required => d := false;
      case Repeated => d := slot.count == 0;
      case OneOf(_) => d := which == 0;
      case Optional => d := !slot.has;
      case Singular => d := IsDefaultValue(f, slot.v);
    }
  }

  /** encode_basic_field. */
  method EncodeBasicField(s: OStream, f: Field, slot: Slot, which: nat) returns (ok: bool)
    requires s.Ok() && Declared(f) && StoredSlot(f, slot)
    modifies s, s.buf
    ensures Outcome(old(s.Now()), s.Now(), EncField(f, slot, which), ok)
    decreases f, 5
  {
    ok := true;
    match f.rule {
      case Required => ok := EncTaggedValue(s, f, slot.v);
      case Singular =>
        var zero := IsDefaultField(f, slot, which);
        if !zero {
          ok := EncTaggedValue(s, f, slot.v);
        }
      case Optional =>
        if slot.has {
          ok := EncTaggedValue(s, f, slot.v);
        }
      case Repeated => ok := EncodeArray(s, f, slot.count, slot.items);
      case OneOf(_) =>
        if which == f.tag {
          ok := EncTaggedValue(s, f, slot.v);
        }
    }
  }

  // ---- Messages ----

  lemma {:induction false} PrefixAbort(a: Output, b: Output, fields: seq<Field>, m: Msg, k: nat, n: nat)
    requires k <= n <= |fields| && InBounds(a) && Outcome(a, b, EncPrefix(fields, m, k), false)
    ensures Outcome(a, b, EncPrefix(fields, m, n), false)
  {
    if k < n {
      PrefixAbort(a, b, fields, m, k, n - 1);
      Abort(a, b, EncPrefix(fields, m, n - 1),
            EncField(fields[n - 1], SlotAt(m, n - 1), UnionTag(fields[n - 1], m)));
    }
  }

  /** encode_field, after the fields before i have gone out since a. */
  method EncodeField(s: OStream, fields: seq<Field>, m: Msg, i: nat, ghost a: Output) returns (ok: bool)
    requires s.Ok() && StoredMsg(fields, m) && i < |fields|
    requires InBounds(a) && Outcome(a, s.Now(), EncPrefix(fields, m, i), true)
    modifies s, s.buf
    ensures Outcome(a, s.Now(), EncPrefix(fields, m, i + 1), ok)
    decreases fields, 0
  {
    ghost var b := s.Now();
    ghost var before, e := EncPrefix(fields, m, i), EncField(fields[i], SlotAt(m, i), UnionTag(fields[i], m));
    ok := EncodeBasicField(s, fields[i], m.slots[i], UnionTag(fields[i], m));
    Then(a, b, s.Now(), before, e, ok);
  }

  lemma TagsNotZero(fields: seq<Field>, m: Msg)
    requires StoredMsg(fields, m)
    ensures forall f | f in fields :: f.tag != 0
  {
  }

  /** One turn of pb_encode's loop: a field, then the iterator's step. */
  method EncodeTurn(s: OStream, iter: FieldIter, m: Msg, ghost a: Output) returns (ok: bool, more: bool)
    requires s.Ok() && iter.Ok() && iter.pos < |iter.fields| && StoredMsg(iter.fields, m)
    requires InBounds(a) && Outcome(a, s.Now(), EncPrefix(iter.fields, m, iter.pos), true)
    modifies s, s.buf, iter
    ensures iter.Ok() && (more ==> iter.pos == old(iter.pos) + 1 < |iter.fields|)
    ensures Outcome(a, s.Now(), if ok && more then EncPrefix(iter.fields, m, iter.pos) else EncMsg(iter.fields, m), ok)
    decreases iter.fields, 1
  {
    more := false;
    ok := EncodeField(s, iter.fields, m, iter.pos, a);
    if !ok {
      PrefixAbort(a, s.Now(), iter.fields, m, iter.pos + 1, |iter.fields|);
      return;
    }
    ghost var now := s.Now();
    TagsNotZero(iter.fields, m);
    more := iter.Next();
    assert s.Now() == now;
  }

  /** pb_encode. */
  method PbEncode(s: OStream, fields: seq<Field>, m: Msg) returns (ok: bool)
    requires s.Ok() && StoredMsg(fields, m)
    modifies s, s.buf
    ensures Outcome(old(s.Now()), s.Now(), EncMsg(fields, m), ok)
    decreases fields, 2
  {
    ghost var a := s.Now();
    var iter := new FieldIter(fields, 0);
    if fields == [] {
      return true;
    }
    while true
      invariant s.Ok() && iter.Ok() && fresh(iter) && iter.fields == fields && iter.pos < |fields|
      invariant Outcome(a, s.Now(), EncPrefix(fields, m, iter.pos), true)
      decreases |fields| - iter.pos
    {
      var more;
      ok, more := EncodeTurn(s, iter, m, a);
      if !ok || !more {
        return;
      }
    }
  }

  /**
   pb_encode into a caller's buffer of the given capacity: it succeeds iff the message encodes in that
   many bytes, and then they stand at the front of the buffer; past the capacity nothing is touched.
   */
  method EncodeToBuffer(buf: array<byte>, capacity: nat, fields: seq<Field>, m: Msg) returns (ok: bool, size: nat)
    requires capacity <= buf.Length && StoredMsg(fields, m)
    modifies buf
    ensures ok <==> EncMsg(fields, m).Some? && |EncMsg(fields, m).value| <= capacity
    ensures ok ==> size == |EncMsg(fields, m).value| && buf[..size] == EncMsg(fields, m).value
    ensures ok ==> buf[size..] == old(buf[size..])
    ensures size <= capacity && buf[capacity..] == old(buf[capacity..])
  {
    ghost var before := buf[..];
    var stream := new OStream.FromBuffer(buf, 0, capacity);
    ok := PbEncode(stream, fields, m);
    size := stream.written;
    ghost var e := EncMsg(fields, m);
    assert ok ==> buf[..] == Splice(before, 0, e.value);
  }
}
