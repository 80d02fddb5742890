/**
 Decoding what the encoder wrote gives the message back: for every well-formed descriptor tree and
 every struct that fits it, at every nesting depth.
 */
module RoundTrip {
  import opened Slices
  import V = Varints
  import VA = VarintAcceptance
  import opened LittleEndian
  import opened Schema
  import opened WireFormat
  import opened WireDecode
  import opened WireLaws
  import DL = DecodeLaws
  import opened Soundness
  import opened Words

  // ---- Numbers ----

  /** The number the encoder makes of an integer. */
  function Unsigned64(k: Kind, n: int): int {
    match k
    case Varint => AsUnsigned(n)
    case SVarint => ZigZag(n)
    case _ => n
  }

  /** It fits in 64 bits, and the decoder stores the integer again. */
  lemma IntStores(f: Field, v: Val)
    requires (f.kind.Varint? || f.kind.UVarint? || f.kind.SVarint?) && IntSize(f.dataSize) && SoundVal(f, v)
    ensures var u := Unsigned64(f.kind, v.n); 0 <= u < TWO_64 && StoreInt(f, u) == Some(v)
  {
    DL.StoreIff(f, Unsigned64(f.kind, v.n), v.n);
  }

  lemma IntRoundTrip(f: Field, v: Val, t: bytes)
    requires WfField(f) && SoundVal(f, v) && (f.kind.Varint? || f.kind.UVarint? || f.kind.SVarint?)
    ensures EncVal(f, v).Some? && DecInt(f, EncVal(f, v).value + t) == Some(Parsed(v, t))
  {
    IntStores(f, v);
    VA.VarintRoundTrip(Unsigned64(f.kind, v.n), t);
  }

  lemma Pow256Of4()
    ensures Pow256(4) == TWO_32
  {
  }

  lemma FixedRoundTrip(n: nat, width: nat, t: bytes)
    requires n < Pow256(width)
    ensures DecFixed(width, FixedLE(n, width) + t) == Some(Parsed(Num(n), t))
  {
    var s := FixedLE(n, width) + t;
    assert s[..width] == FixedLE(n, width) && s[width..] == t;
    DecodeFixed(n, width);
  }

  // ---- Byte strings ----

  lemma StringDecodes(f: Field, prior: Val, b: bytes, t: bytes)
    requires |b| < TWO_32
    ensures DecBytes(f, prior, EncodeString(b) + t) == StoreBytes(f, prior, |b|, b + t)
  {
    assert EncodeString(b) + t == V.EncodeVarint(|b|) + (b + t);
    VA.Varint32RoundTrip(|b|, b + t);
  }

  lemma {:induction false} StrLenOf(s: bytes, n: nat)
    requires n < |s| && s[n] == 0 && forall i | 0 <= i < n :: s[i] != 0
    ensures StrLen(s) == n
  {
    if n > 0 {
      StrLenOf(s[1..], n - 1);
    }
  }

  lemma BytesRoundTrip(f: Field, v: Val, prior: Val, t: bytes)
    requires WfField(f) && f.kind.Bytes? && SoundVal(f, v) && Shaped(f, prior)
    ensures EncVal(f, v).Some?
    ensures var r := DecBytes(f, prior, EncVal(f, v).value + t);
            r.Some? && r.value.rest == t && SameVal(f, r.value.v, v) && Shaped(f, r.value.v)
  {
    var b := v.data[..v.size];
    StringDecodes(f, prior, b, t);
    SliceOfConcat(b, t, |b|);
    assert (b + t)[..|b|] == b && (b + t)[|b|..] == t;
    var data := b + prior.data[v.size..];
    assert data[..v.size] == b;
  }

  /** A string written over an old buffer reads back up to its terminator. */
  lemma TextReadsBack(b: bytes, tail: bytes)
    requires forall i | 0 <= i < |b| :: b[i] != 0
    ensures var data := b + [0] + tail; StrLen(data) == |b| && data[..StrLen(data)] == b
  {
    StrLenOf(b + [0] + tail, |b|);
  }

  lemma TextStores(f: Field, prior: Val, b: bytes, t: bytes)
    requires f.kind.String? && Shaped(f, prior) && |b| < f.dataSize <= PB_SIZE_MAX
    ensures StoreBytes(f, prior, |b|, b + t) == Some(Parsed(Chars(b + [0] + prior.data[|b| + 1..]), t))
  {
    DL.WrapIsFit(|b|, f.dataSize);
    assert (b + t)[..|b|] == b && (b + t)[|b|..] == t;
  }

  lemma TextRoundTrip(f: Field, v: Val, prior: Val, t: bytes)
    requires WfField(f) && f.kind.String? && SoundVal(f, v) && Shaped(f, prior)
    ensures EncVal(f, v).Some?
    ensures var r := DecBytes(f, prior, EncVal(f, v).value + t);
            r.Some? && r.value.rest == t && SameVal(f, r.value.v, v) && Shaped(f, r.value.v)
  {
    var b := v.data[..StrLen(v.data)];
    StringDecodes(f, prior, b, t);
    TextStores(f, prior, b, t);
    TextReadsBack(b, prior.data[|b| + 1..]);
  }

  lemma FixedBytesRoundTrip(f: Field, v: Val, prior: Val, t: bytes)
    requires WfField(f) && f.kind.FixedBytes? && SoundVal(f, v) && Shaped(f, prior)
    ensures EncVal(f, v).Some? && DecBytes(f, prior, EncVal(f, v).value + t) == Some(Parsed(v, t))
  {
    StringDecodes(f, prior, v.data, t);
    var b := v.data;
    assert (b + t)[..|b|] == b && (b + t)[|b|..] == t;
    if b == [] {
      assert Zeros(0) == b;
      assert b + t == t;
    }
  }

  /** Every value that is not a submessage. */
  lemma ScalarRoundTrip(f: Field, v: Val, prior: Val, t: bytes)
    requires WfField(f) && !f.kind.Submessage? && SoundVal(f, v) && Shaped(f, prior)
    ensures EncVal(f, v).Some?
    ensures var r := DecScalar(f, prior, EncVal(f, v).value + t);
            r.Some? && r.value.rest == t && SameVal(f, r.value.v, v) && Shaped(f, r.value.v)
  {
    match f.kind
    case Fixed32 => Pow256Of4(); FixedRoundTrip(v.n, 4, t);
    case Fixed64 => Pow256Of8(); FixedRoundTrip(v.n, 8, t);
    case Bytes => BytesRoundTrip(f, v, prior, t);
    case String => TextRoundTrip(f, v, prior, t);
    case FixedBytes => FixedBytesRoundTrip(f, v, prior, t);
    case _ => IntRoundTrip(f, v, t);
  }
}
