/** Output streams (pb_encode.c): a window of a caller's buffer, or a sizing stream that only counts. */
module OStreams {
  import opened Slices
  import opened WireFormat

  /** A stream seen as a value: the whole buffer, the write position, the bytes written and their limit. */
  datatype Output = Output(sizing: bool, buffer: bytes, maxSize: nat, state: nat, written: nat)

  /** The bytes still allowed lie inside the buffer. */
  predicate InBounds(a: Output) {
    a.sizing || (a.written <= a.maxSize && a.state + (a.maxSize - a.written) <= |a.buffer|)
  }

  predicate Room(a: Output, n: nat) {
    a.sizing || a.written + n <= a.maxSize
  }

  /** b with e written over it at position at. */
  function Splice(b: bytes, at: nat, e: bytes): (r: bytes)
    requires at + |e| <= |b|
    ensures |r| == |b|
  {
    b[..at] + e + b[at + |e|..]
  }

  /** The stream after e has gone out: exactly those bytes of the buffer change, and none when sizing. */
  function After(a: Output, e: bytes): Output
    requires InBounds(a) && Room(a, |e|)
  {
    if a.sizing then a.(written := a.written + |e|)
    else a.(written := a.written + |e|, state := a.state + |e|, buffer := Splice(a.buffer, a.state, e))
  }

  /** Never more than the limit, and the buffer untouched before the window and past its limit. */
  predicate Contained(a: Output, b: Output)
    requires InBounds(a)
  {
    && b.sizing == a.sizing && b.maxSize == a.maxSize && |b.buffer| == |a.buffer| && InBounds(b)
    && if a.sizing then b.buffer == a.buffer
       else
         var limit := a.state + (a.maxSize - a.written);
         && b.state + (b.maxSize - b.written) == limit && a.written <= b.written
         && b.buffer[..a.state] == a.buffer[..a.state] && b.buffer[limit..] == a.buffer[limit..]
  }

  /**
   What every encoder promises. It succeeds exactly when there is an encoding e and room for it,
   and then e and nothing else has gone out; succeeding or not, it stays within the limit.
   */
  ghost predicate Outcome(a: Output, b: Output, e: Option<bytes>, ok: bool)
    requires InBounds(a)
  {
    && (ok <==> e.Some? && Room(a, |e.value|))
    && (ok ==> b == After(a, e.value))
    && Contained(a, b)
  }

  lemma SpliceTwice(b: bytes, at: nat, e: bytes, e': bytes)
    requires at + |e| + |e'| <= |b|
    ensures Splice(Splice(b, at, e), at + |e|, e') == Splice(b, at, e + e')
  {
  }

  lemma SpliceByte(b: bytes, at: nat, data: bytes, i: nat)
    requires i < |data| && at + i < |b|
    ensures Splice(b, at, data[..i])[at + i := data[i]] == Splice(b, at, data[..i + 1])
  {
  }

  /** Success and then another step. */
  lemma Then(a: Output, b: Output, c: Output, e: Option<bytes>, e': Option<bytes>, ok: bool)
    requires InBounds(a) && Outcome(a, b, e, true) && Outcome(b, c, e', ok)
    ensures Outcome(a, c, Concat(e, e'), ok)
  {
    if ok && !a.sizing {
      SpliceTwice(a.buffer, a.state, e.value, e'.value);
    }
    if !a.sizing {
      ContainedTwice(a, b, c);
    }
  }

  lemma ContainedTwice(a: Output, b: Output, c: Output)
    requires InBounds(a) && !a.sizing && Contained(a, b) && Contained(b, c)
    ensures Contained(a, c)
  {
    var limit := a.state + (a.maxSize - a.written);
    assert a.state <= b.state;
    assert c.buffer[..a.state] == c.buffer[..b.state][..a.state];
    assert b.buffer[..a.state] == b.buffer[..b.state][..a.state];
  }

  /** A failed step fails the whole, whatever was to follow. */
  lemma Abort(a: Output, b: Output, e: Option<bytes>, e': Option<bytes>)
    requires InBounds(a) && Outcome(a, b, e, false)
    ensures Outcome(a, b, Concat(e, e'), false)
  {
  }

  class OStream {
    const sizing: bool  // callback == NULL
    const buf: array<byte>
    const maxSize: nat
    var state: nat
    var written: nat

    ghost function Now(): Output
      reads this, buf
    {
      Output(sizing, buf[..], maxSize, state, written)
    }

    ghost predicate Ok()
      reads this, buf
    {
      InBounds(Now())
    }

    /** pb_ostream_from_buffer, at any place of a larger buffer. */
    constructor FromBuffer(buf: array<byte>, start: nat, size: nat)
      requires start + size <= buf.Length
      ensures Ok() && Now() == Output(false, buf[..], size, start, 0) && this.buf == buf
    {
      sizing, this.buf, maxSize, state, written := false, buf, size, start, 0;
    }

    /** PB_OSTREAM_SIZING. */
    constructor Sizing()
      ensures Ok() && sizing && written == 0 && fresh(buf)
    {
      sizing, maxSize, state, written := true, 0, 0, 0;
      buf := new byte[0];
    }

    /** buf_write. */
    method BufWrite(data: bytes, count: nat)
      requires Ok() && !sizing && written + count <= maxSize && count <= |data|
      modifies this, buf
      ensures buf[..] == Splice(old(buf[..]), old(state), data[..count])
      ensures state == old(state) + count && written == old(written)
    {
      var dest := state;
      state := dest + count;
      for i := 0 to count
        invariant buf[..] == Splice(old(buf[..]), dest, data[..i])
        invariant state == dest + count && written == old(written)
      {
        ghost var before := buf[..];
        buf[dest + i] := data[i];
        assert buf[..] == before[dest + i := data[i]];
        SpliceByte(old(buf[..]), dest, data, i);
      }
    }

    /** pb_write; a sizing stream never looks at data. */
    method Write(data: bytes, count: nat, ghost e: bytes) returns (ok: bool)
      requires Ok() && |e| == count && (!sizing ==> count <= |data| && data[..count] == e)
      modifies this, buf
      ensures Outcome(old(Now()), Now(), Some(e), ok)
    {
      if !sizing {
        if written + count > maxSize {
          return false;
        }
        BufWrite(data, count);
      }
      written := written + count;
      return true;
    }
  }
}
