/** Input streams over a buffer (pb_decode.c): reading, varints, tags, skipping and substreams. */
module IStreams {
  import opened Slices
  import V = Varints
  import opened WireFormat
  import opened WireDecode

  class IStream {
    const buf: bytes
    var state: nat
    var bytesLeft: nat

    ghost predicate Ok()
      reads this
    {
      state + bytesLeft <= |buf|
    }

    /** The input left. */
    ghost function Rest(): bytes
      requires Ok()
      reads this
    {
      buf[state..state + bytesLeft]
    }

    /** position + bytes_left, which no successful decoder changes. */
    ghost function End(): nat
      reads this
    {
      state + bytesLeft
    }

    /** The input left is rest, and the end of the stream is still end. */
    ghost predicate At(end: nat, rest: bytes)
      reads this
    {
      Ok() && End() == end && Rest() == rest
    }

    /** pb_istream_from_buffer, and the copy of a stream with a shorter limit that a substream is. */
    constructor (buf: bytes, state: nat, bytesLeft: nat)
      requires state + bytesLeft <= |buf|
      ensures Ok() && this.buf == buf && this.state == state && this.bytesLeft == bytesLeft
    {
      this.buf, this.state, this.bytesLeft := buf, state, bytesLeft;
    }

    /** pb_read into memory; the bytes go out as data. */
    method Read(count: nat) returns (ok: bool, data: bytes)
      requires Ok()
      modifies this
      ensures ok <==> count <= |old(Rest())|
      ensures ok ==> data == old(Rest())[..count] && At(old(End()), old(Rest())[count..])
      ensures !ok ==> At(old(End()), old(Rest()))
    {
      data := [];
      if bytesLeft < count {
        return false, data;
      }
      var source := state;
      state := state + count;
      for i := 0 to count
        invariant data == buf[source..source + i]
      {
        data := data + [buf[source + i]];
      }
      bytesLeft := bytesLeft - count;
      return true, data;
    }

    /** pb_read with no destination. */
    method Skip(count: nat) returns (ok: bool)
      requires Ok()
      modifies this
      ensures ok <==> count <= |old(Rest())|
      ensures At(old(End()), if ok then old(Rest())[count..] else old(Rest()))
    {
      if bytesLeft < count {
        return false;
      }
      state := state + count;
      bytesLeft := bytesLeft - count;
      return true;
    }

    /** pb_readbyte. */
    method ReadByte() returns (ok: bool, b: byte)
      requires Ok()
      modifies this
      ensures ok <==> old(Rest()) != []
      ensures ok ==> b == old(Rest())[0] && At(old(End()), old(Rest())[1..]) && bytesLeft == old(bytesLeft) - 1
      ensures !ok ==> At(old(End()), [])
    {
      if bytesLeft == 0 {
        return false, 0;
      }
      b := buf[state];
      state := state + 1;
      bytesLeft := bytesLeft - 1;
      return true, b;
    }
  }

  // ---- Varints ----

  /** pb_decode_varint. */
  method DecodeVarint(s: IStream) returns (ok: bool, value: nat)
    requires s.Ok()
    modifies s
    ensures s.Ok() && s.End() == old(s.End()) && s.bytesLeft <= old(s.bytesLeft)
    ensures var d := V.DecodeVarint(old(s.Rest()));
            (ok <==> d.Some?) && (ok ==> value == d.value.value && s.Rest() == d.value.rest)
  {
    var bitpos, result := 0, 0;
    while true
      invariant s.Ok() && s.End() == old(s.End()) && s.bytesLeft <= old(s.bytesLeft)
      invariant V.Decode64From(s.Rest(), bitpos, result) == V.DecodeVarint(old(s.Rest()))
      decreases s.bytesLeft
    {
      if bitpos >= 64 {
        return false, 0;
      }
      var more, b := s.ReadByte();
      if !more {
        return false, 0;
      }
      result := V.Push64(result, b, bitpos);
      bitpos := bitpos + 7;
      if b < 128 {
        return true, result;
      }
    }
  }

  /** pb_decode_varint32_eof: at the end of the stream, and only there, eof is set. */
  method DecodeVarint32Eof(s: IStream) returns (ok: bool, value: nat, eof: bool)
    requires s.Ok()
    modifies s
    ensures s.Ok() && s.End() == old(s.End()) && s.bytesLeft <= old(s.bytesLeft)
    ensures eof <==> old(s.Rest()) == []
    ensures var d := V.DecodeVarint32(old(s.Rest()));
            (ok <==> d.Some?) && (ok ==> value == d.value.value && s.Rest() == d.value.rest)
  {
    eof := false;
    var more, b := s.ReadByte();
    if !more {
      return false, 0, s.bytesLeft == 0;
    }
    if b < 128 {
      return true, b, false;
    }
    ok, value := MultibyteVarint32(s, b % 128);
  }

  /** pb_decode_varint32. */
  method DecodeVarint32(s: IStream) returns (ok: bool, value: nat)
    requires s.Ok()
    modifies s
    ensures s.Ok() && s.End() == old(s.End()) && s.bytesLeft <= old(s.bytesLeft)
    ensures var d := V.DecodeVarint32(old(s.Rest()));
            (ok <==> d.Some?) && (ok ==> value == d.value.value && s.Rest() == d.value.rest)
  {
    var eof;
    ok, value, eof := DecodeVarint32Eof(s);
  }

  /** Its multibyte case, after the first byte. */
  method MultibyteVarint32(s: IStream, first: nat) returns (ok: bool, value: nat)
    requires s.Ok()
    modifies s
    ensures s.Ok() && s.End() == old(s.End()) && s.bytesLeft <= old(s.bytesLeft)
    ensures var d := V.Decode32From(old(s.Rest()), 7, first);
            (ok <==> d.Some?) && (ok ==> value == d.value.value && s.Rest() == d.value.rest)
  {
    var bitpos: nat, result: nat := 7, first;
    while true
      invariant s.Ok() && s.End() == old(s.End()) && s.bytesLeft <= old(s.bytesLeft)
      invariant V.Decode32From(s.Rest(), bitpos, result) == V.Decode32From(old(s.Rest()), 7, first)
      decreases s.bytesLeft
    {
      var more, b := s.ReadByte();
      if !more {
        return false, 0;
      }
      var r := V.Accept32(b, bitpos, result);
      if r.None? {
        return false, 0;
      }
      result := r.value;
      bitpos := (bitpos + 7) % 256;
      if b < 128 {
        if bitpos == 35 && b / 16 != 0 {
          return false, 0;
        }
        return true, result;
      }
    }
  }

  // ---- Tags and unknown fields ----

  /** pb_decode_tag: a zero tag and an empty stream are the end of the message, not errors. */
  method DecodeTagFrom(s: IStream) returns (ok: bool, eof: bool, tag: nat, wireType: nat)
    requires s.Ok()
    modifies s
    ensures s.Ok() && s.End() == old(s.End()) && s.bytesLeft <= old(s.bytesLeft)
    ensures var t := DecodeTag(old(s.Rest()));
            && (ok <==> t.Tag?) && (eof <==> t.EndTag? || old(s.Rest()) == [])
            && (!t.BadTag? ==> s.Rest() == t.rest)
            && (ok ==> tag == t.tag && wireType == t.wireType)
  {
    var good, temp, end := DecodeVarint32Eof(s);
    if !good {
      return false, end, 0, 0;
    }
    if temp == 0 {
      return false, true, 0, 0;
    }
    return true, false, temp / 8, temp % 8;
  }

  /** pb_skip_varint. */
  method SkipVarintFrom(s: IStream) returns (ok: bool)
    requires s.Ok()
    modifies s
    ensures s.Ok() && s.End() == old(s.End()) && s.bytesLeft <= old(s.bytesLeft)
    ensures var r := SkipVarint(old(s.Rest()));
            (ok <==> r.Some?) && (ok ==> s.Rest() == r.value)
  {
    while true
      invariant s.Ok() && s.End() == old(s.End()) && s.bytesLeft <= old(s.bytesLeft)
      invariant SkipVarint(s.Rest()) == SkipVarint(old(s.Rest()))
      decreases s.bytesLeft
    {
      var more, b := s.ReadByte();
      if !more {
        return false;
      }
      if b < 128 {
        return true;
      }
    }
  }

  /** pb_skip_string. */
  method SkipString(s: IStream) returns (ok: bool)
    requires s.Ok()
    modifies s
    ensures s.Ok() && s.End() == old(s.End()) && s.bytesLeft <= old(s.bytesLeft)
    ensures var r := SkipField(WT_STRING, old(s.Rest()));
            (ok <==> r.Some?) && (ok ==> s.Rest() == r.value)
  {
    var length;
    ok, length := DecodeVarint32(s);
    if ok {
      ok := s.Skip(length);
    }
  }

  /** pb_skip_field. */
  method SkipFieldFrom(s: IStream, wireType: nat) returns (ok: bool)
    requires s.Ok()
    modifies s
    ensures s.Ok() && s.End() == old(s.End()) && s.bytesLeft <= old(s.bytesLeft)
    ensures var r := SkipField(wireType, old(s.Rest()));
            (ok <==> r.Some?) && (ok ==> s.Rest() == r.value)
  {
    if wireType == WT_VARINT {
      ok := SkipVarintFrom(s);
    } else if wireType == WT_64BIT {
      ok := s.Skip(8);
    } else if wireType == WT_STRING {
      ok := SkipString(s);
    } else if wireType == WT_32BIT {
      ok := s.Skip(4);
    } else {
      ok := false;
    }
  }

  // ---- Substreams ----

  /** A window of the buffer, cut in two. */
  lemma CutWindow(buf: bytes, state: nat, left: nat, size: nat)
    requires size <= left && state + left <= |buf|
    ensures buf[state..state + left][..size] == buf[state..state + size]
    ensures buf[state..state + left][size..] == buf[state + size..state + left]
  {
  }

  /** pb_make_string_substream: the parent gives up the substream's bytes but does not move past them yet. */
  method MakeStringSubstream(s: IStream) returns (ok: bool, sub: IStream)
    requires s.Ok()
    modifies s
    ensures fresh(sub) && sub.Ok() && sub.buf == s.buf && s.Ok() && s.End() <= old(s.End())
    ensures s.bytesLeft <= old(s.bytesLeft)
    ensures var r := MakeSubstream(old(s.Rest()));
            && (ok <==> r.Some?)
            && (ok ==> sub.Rest() == r.value.body && sub.End() + s.bytesLeft == old(s.End())
                       && s.buf[sub.End()..sub.End() + s.bytesLeft] == r.value.rest
                       && sub.bytesLeft < old(s.bytesLeft))
  {
    var size;
    ok, size := DecodeVarint32(s);
    sub := new IStream(s.buf, s.state, s.bytesLeft);
    if !ok {
      return;
    }
    if sub.bytesLeft < size {
      ok := false;
      return;
    }
    CutWindow(s.buf, s.state, s.bytesLeft, size);
    sub.bytesLeft := size;
    s.bytesLeft := s.bytesLeft - size;
  }

  /** pb_close_string_substream: whatever is left of the substream is skipped, and the parent moves to its end. */
  method CloseStringSubstream(s: IStream, sub: IStream) returns (ok: bool)
    requires s != sub && sub.Ok() && sub.buf == s.buf && sub.End() + s.bytesLeft <= |s.buf|
    modifies s, sub
    ensures ok && s.Ok() && s.state == old(sub.End()) && s.bytesLeft == old(s.bytesLeft)
  {
    ok := true;
    if sub.bytesLeft != 0 {
      ok := sub.Skip(sub.bytesLeft);
    }
    if ok {
      s.state := sub.state;
    }
  }
}
