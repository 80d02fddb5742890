/** What the decoder makes of single records: which values it accepts, which it refuses, and how repeats combine. */
module DecodeLaws {
  import opened Slices
  import opened Words
  import V = Varints
  import opened VarintAcceptance
  import opened Schema
  import opened WireFormat
  import opened WireDecode
  import opened WireLaws
  import opened Soundness

  // ---- Integers ----

  lemma CastIff4(u: nat, n: int)
    ensures CastSigned(u, 4) == n <==> InSigned(n, 4) && (u - n) % 0x1_0000_0000 == 0
  {
  }

  lemma CastIff8(u: nat, n: int)
    ensures CastSigned(u, 8) == n <==> InSigned(n, 8) && (u - n) % 0x1_0000_0000_0000_0000 == 0
  {
  }

  lemma CastSame(n: int, dataSize: nat)
    requires IntSize(dataSize)
    ensures CastSigned(n, dataSize) == n <==> InSigned(n, dataSize)
    ensures CastUnsigned(n, dataSize) == n <==> 0 <= n < 2 * SignedHalf(dataSize)
  {
  }

  /**
   The number an integer field takes from a varint that reads u: for signed types the one congruent to u,
   modulo 2^64 for eight bytes and 2^32 below; u itself; or the one whose zigzag number is u.
   */
  predicate Reads(f: Field, u: nat, n: int) {
    match f.kind
    case UVarint => n == u
    case SVarint => u == if n < 0 then -2 * n - 1 else 2 * n
    case _ => if f.dataSize == 8 then (u - n) % 0x1_0000_0000_0000_0000 == 0 else (u - n) % 0x1_0000_0000 == 0
  }

  predicate InRange(f: Field, n: int) {
    if f.kind.UVarint? then 0 <= n < 2 * SignedHalf(f.dataSize) else InSigned(n, f.dataSize)
  }

  lemma VarintStoresIff(dataSize: nat, u: nat, n: int)
    requires IntSize(dataSize)
    ensures StoreVarint(dataSize, u) == Some(Num(n)) <==>
            CastSigned(u, if dataSize == 8 then 8 else 4) == n && InSigned(n, dataSize)
  {
    CastSame(CastSigned(u, if dataSize == 8 then 8 else 4), dataSize);
  }

  lemma ZigZagIff(u: nat, n: int)
    ensures UnZigZag(u) == n <==> u == if n < 0 then -2 * n - 1 else 2 * n
  {
  }

  lemma StoreIff(f: Field, u: nat, n: int)
    requires (f.kind.Varint? || f.kind.UVarint? || f.kind.SVarint?) && IntSize(f.dataSize)
    ensures StoreInt(f, u) == Some(Num(n)) <==> Reads(f, u, n) && InRange(f, n)
  {
    if f.kind.Varint? {
      VarintStoresIff(f.dataSize, u, n);
      if f.dataSize == 8 {
        CastIff8(u, n);
      } else {
        CastIff4(u, n);
      }
    } else if f.kind.UVarint? {
      CastSame(u, f.dataSize);
    } else {
      ZigZagIff(u, n);
      CastSame(UnZigZag(u), f.dataSize);
    }
  }

  /** An integer is accepted iff its varint is and the number it reads as is in the field's range; then that is stored. */
  lemma IntAcceptedIff(f: Field, s: bytes, n: int)
    requires (f.kind.Varint? || f.kind.UVarint? || f.kind.SVarint?) && IntSize(f.dataSize)
    ensures DecInt(f, s).Some? && DecInt(f, s).value.v == Num(n) <==>
            && 1 <= VarLen(s) <= 10 && V.DecodeVarint(s).Some?
            && Reads(f, V.DecodeVarint(s).value.value, n) && InRange(f, n)
  {
    Accepts64(s);
    if V.DecodeVarint(s).Some? {
      StoreIff(f, V.DecodeVarint(s).value.value, n);
    }
  }

  // ---- Bytes and text ----

  lemma WrapIsFit(size: nat, dataSize: nat)
    requires size < TWO_32 && dataSize <= PB_SIZE_MAX
    ensures size <= (size + 1) % TWO_32 <= dataSize <==> size < dataSize
  {
  }

  lemma ReadBelow32(s: bytes)
    requires V.DecodeVarint32(s).Some?
    ensures V.DecodeVarint32(s).value.value < TWO_32
  {
    if s[0] >= 128 {
      Below32(s[1..], 7, s[0] % 128);
    }
  }

  /** The length a member can take: bytes up to its capacity, text with room for the terminator, fixed bytes all or none. */
  predicate Takes(f: Field, prior: Val, size: nat) {
    match (f.kind, prior)
    case (Bytes, Blob(_, data)) => size <= |data|
    case (String, Chars(data)) => size < |data|
    case (FixedBytes, Chars(data)) => size == 0 || size == |data|
    case _ => false
  }

  /** What it then holds: the bytes read, zero-terminated in a string; no bytes at all for fixed length mean zeros. */
  predicate Took(f: Field, v: Val, text: bytes) {
    match (f.kind, v)
    case (Bytes, Blob(size, data)) => size == |text| <= |data| && data[..size] == text
    case (String, Chars(data)) => |text| < |data| && data[..|text|] == text && data[|text|] == 0
    case (FixedBytes, Chars(data)) => if text == [] then forall i | 0 <= i < |data| :: data[i] == 0 else data == text
    case _ => false
  }

  /** A length-delimited value is accepted iff its length is readable, fits the member and is all there. */
  lemma BytesAcceptedIff(f: Field, prior: Val, s: bytes)
    requires (f.kind.Bytes? || f.kind.String? || f.kind.FixedBytes?) && Shaped(f, prior) && f.dataSize <= PB_SIZE_MAX
    ensures var d := V.DecodeVarint32(s);
            && (DecBytes(f, prior, s).Some? <==>
                  d.Some? && Takes(f, prior, d.value.value) && d.value.value <= |d.value.rest|)
            && (DecBytes(f, prior, s).Some? ==>
                  && Took(f, DecBytes(f, prior, s).value.v, d.value.rest[..d.value.value])
                  && DecBytes(f, prior, s).value.rest == d.value.rest[d.value.value..])
  {
    var d := V.DecodeVarint32(s);
    if d.Some? {
      ReadBelow32(s);
      WrapIsFit(d.value.value, f.dataSize);
      assert d.value.rest[0..] == d.value.rest;
    }
  }

  // ---- Arrays and oneofs ----

  /** A full array takes nothing more: an element fails, and so does a packed record that is not empty. */
  lemma FullArrayRefuses(fields: seq<Field>, m: Msg, i: nat, wireType: nat, s: bytes)
    requires i < |fields| && fields[i].rule.Repeated? && SlotAt(m, i).Rep? && SlotAt(m, i).count >= fields[i].arraySize
    ensures DecField(fields, m, i, wireType, s).Some? ==>
              Packable(fields[i].kind) && wireType == 2 && MakeSubstream(s).Some? && MakeSubstream(s).value.body == []
  {
  }

  /** A oneof whose which_ is neither zero nor the tag of a field is corrupt: nothing is decoded into it. */
  lemma CorruptUnionRefuses(fields: seq<Field>, m: Msg, i: nat, wireType: nat, s: bytes)
    requires i < |fields| && fields[i].rule.OneOf?
    requires var w := Which(m, fields[i].rule.union);
             w != 0 && forall j | 0 <= j < |fields| :: fields[j].tag != w
    ensures DecField(fields, m, i, wireType, s) == None
  {
    assert fields[i].tag != Which(m, fields[i].rule.union);
  }

  /** Selecting a oneof member records its tag. */
  lemma UnionRemembers(fields: seq<Field>, m: Msg, i: nat, wireType: nat, s: bytes)
    requires i < |fields| && fields[i].rule.OneOf? && DecField(fields, m, i, wireType, s).Some?
    ensures Which(DecField(fields, m, i, wireType, s).value.m, fields[i].rule.union) == fields[i].tag
  {
  }

  /** A zero tag, however spelled, ends the message there. */
  lemma ZeroTagEnds(fields: seq<Field>, m: Msg, seen: set<nat>, s: bytes)
    requires V.DecodeVarint32(s).Some? && V.DecodeVarint32(s).value.value == 0
    ensures DecLoop(fields, m, seen, s) == Some(State(m, seen, V.DecodeVarint32(s).value.rest, true))
  {
  }

  // ---- Repeats of a field that is not repeated ----

  /** Last one wins: the content decoded from a record does not depend on what an earlier one left. */
  lemma LastOneWins(f: Field, prior: Val, other: Val, s: bytes)
    requires !f.kind.Submessage? && Shaped(f, prior) && Shaped(f, other) && f.dataSize <= PB_SIZE_MAX
    ensures DecScalar(f, prior, s).Some? <==> DecScalar(f, other, s).Some?
    ensures DecScalar(f, prior, s).Some? ==>
              && SameVal(f, DecScalar(f, prior, s).value.v, DecScalar(f, other, s).value.v)
              && DecScalar(f, prior, s).value.rest == DecScalar(f, other, s).value.rest
  {
    if f.kind.Bytes? || f.kind.String? || f.kind.FixedBytes? {
      BytesAcceptedIff(f, prior, s);
      BytesAcceptedIff(f, other, s);
      if f.kind.String? && DecScalar(f, prior, s).Some? {
        SameText(DecScalar(f, prior, s).value.v.data, DecScalar(f, other, s).value.v.data,
                 V.DecodeVarint32(s).value.value);
      }
    }
  }

  lemma SameText(a: bytes, b: bytes, n: nat)
    requires n < |a| && n < |b| && a[..n] == b[..n] && a[n] == 0 && b[n] == 0
    ensures a[..StrLen(a)] == b[..StrLen(b)]
  {
    assert StrLen(a) <= n && StrLen(b) <= n;
    assert forall i | 0 <= i < n :: a[i] == a[..n][i] && b[i] == b[..n][i];
    assert StrLen(a) == StrLen(b);
    assert a[..StrLen(a)] == a[..n][..StrLen(a)];
    assert b[..StrLen(b)] == b[..n][..StrLen(b)];
  }

  lemma SubmessageRecord(f: Field, prior: Val, a: bytes, t: bytes)
    requires f.kind.Submessage? && !f.rule.Repeated? && prior.Sub? && |a| < TWO_32
    ensures var r := DecNoInit(f.kind.fields, prior.m, a);
            DecVal(f, prior, EncodeString(a) + t) == if r.None? then None else Some(Parsed(Sub(r.value.m), t))
  {
    SkipEncodedString(a, t);
  }

  /** Submessages merge: two records of one, one after the other, are one record of the two bodies together. */
  lemma SubmessagesMerge(f: Field, prior: Val, a: bytes, b: bytes, t: bytes)
    requires f.kind.Submessage? && !f.rule.Repeated? && prior.Sub? && |a| + |b| < TWO_32
    requires DecNoInit(f.kind.fields, prior.m, a).Some? && !DecNoInit(f.kind.fields, prior.m, a).value.ended
    requires DecNoInit(f.kind.fields, DecNoInit(f.kind.fields, prior.m, a).value.m, b).Some?
    ensures var first := DecVal(f, prior, EncodeString(a) + (EncodeString(b) + t));
            && first.Some? && first.value.rest == EncodeString(b) + t
            && DecVal(f, first.value.v, first.value.rest) == DecVal(f, prior, EncodeString(a + b) + t)
  {
    SubmessageRecord(f, prior, a, EncodeString(b) + t);
    SubmessageRecord(f, Sub(DecNoInit(f.kind.fields, prior.m, a).value.m), b, t);
    SubmessageRecord(f, prior, a + b, t);
    MergeTwoMessages(f.kind.fields, prior.m, a, b);
  }
}
