/**
 Base-128 varints as nanopb writes and reads them (pb_encode.c, pb_decode.c), with the
 machine-word effects of the two decoders: OR into a truncated word, an 8-bit bit position.
 */
module Varints {
  import opened Slices
  import opened Words

  // ---- Encoding ----

  /** pb_encode_varint: seven bits a byte, low bits first, the high bit set on all but the last. */
  function EncodeVarint(v: nat): (s: bytes)
    ensures |s| >= 1
  {
    if v < 128 then [v] else [v % 128 + 128] + EncodeVarint(v / 128)
  }

  lemma {:induction false} VarintLength(v: nat, k: nat)
    requires k >= 1 && v < Shl(1, 7 * k)
    ensures |EncodeVarint(v)| <= k
  {
    if v >= 128 {
      Shl7(Shl(1, 7 * (k - 1)));
      ShlShl(1, 7 * (k - 1), 7);
      VarintLength(v / 128, k - 1);
    }
  }

  lemma TenBytes(v: nat)
    requires v < TWO_64
    ensures |EncodeVarint(v)| <= 10
  {
    ShlValues64();
    VarintLength(v, 10);
  }

  lemma EncodeSplits(v: nat, t: bytes)
    requires v >= 128
    ensures EncodeVarint(v) + t == [v % 128 + 128] + (EncodeVarint(v / 128) + t)
  {
  }

  // ---- The 64-bit decoder ----

  datatype Decoded = Decoded(value: nat, rest: bytes)

  /** The low bits of x that a word keeps. */
  function Word64(x: nat): nat {
    if x < TWO_64 then x else x % TWO_64
  }

  function Word32(x: nat): nat {
    if x < TWO_32 then x else x % TWO_32
  }

  /** result |= (uint64_t)(byte & 0x7F) << bitpos. */
  function Push64(result: nat, b: byte, bitpos: nat): nat {
    Or(result, Word64(Shl(b % 128, bitpos)))
  }

  /** result |= (uint32_t)(byte & 0x7F) << bitpos. */
  function Push32(result: nat, b: byte, bitpos: nat): nat {
    Or(result, Word32(Shl(b % 128, bitpos)))
  }

  /** The loop of pb_decode_varint. */
  function Decode64From(s: bytes, bitpos: nat, result: nat): (d: Option<Decoded>)
    ensures d.Some? ==> |d.value.rest| < |s|
    decreases |s|
  {
    if bitpos >= 64 || s == [] then None
    else
      var r := Push64(result, s[0], bitpos);
      if s[0] >= 128 then Decode64From(s[1..], bitpos + 7, r) else Some(Decoded(r, s[1..]))
  }

  function DecodeVarint(s: bytes): (d: Option<Decoded>)
    ensures d.Some? ==> |d.value.rest| < |s|
  {
    Decode64From(s, 0, 0)
  }

  // ---- The 32-bit decoder ----

  /** One byte of the 32-bit loop: the new result, unless the byte overflows it. */
  function Accept32(b: byte, bitpos: nat, result: nat): Option<nat> {
    var signExtension := if bitpos < 63 then 0xFF else 0x01;
    if bitpos >= 32 then
      if b % 128 != 0 && (result < TWO_31 || b != signExtension) then None else Some(result)
    else
      Some(Push32(result, b, bitpos))
  }

  /** The do-while loop of pb_decode_varint32_eof; bitpos is an eight-bit counter. */
  function Decode32From(s: bytes, bitpos: nat, result: nat): (d: Option<Decoded>)
    ensures d.Some? ==> |d.value.rest| < |s|
    decreases |s|
  {
    if s == [] then None
    else
      var r := Accept32(s[0], bitpos, result);
      var next := (bitpos + 7) % 256;
      if r.None? then None
      else if s[0] >= 128 then Decode32From(s[1..], next, r.value)
      else if next == 35 && s[0] / 16 != 0 then None
      else Some(Decoded(r.value, s[1..]))
  }

  function DecodeVarint32(s: bytes): (d: Option<Decoded>)
    ensures d.Some? ==> |d.value.rest| < |s|
  {
    if s == [] then None
    else if s[0] < 128 then Some(Decoded(s[0], s[1..]))
    else Decode32From(s[1..], 7, s[0] % 128)
  }

  // ---- One digit ----

  lemma PushByte64(d: nat, b: byte, bitpos: nat, r: nat)
    requires b % 128 == d && r < Shl(1, bitpos) && Shl(d, bitpos) < TWO_64
    ensures Push64(r, b, bitpos) == r + Shl(d, bitpos)
  {
    OrDisjoint(r, d, bitpos);
  }

  lemma PushByte32(d: nat, b: byte, bitpos: nat, r: nat)
    requires b % 128 == d && r < Shl(1, bitpos) && Shl(d, bitpos) < TWO_32
    ensures Push32(r, b, bitpos) == r + Shl(d, bitpos)
  {
    OrDisjoint(r, d, bitpos);
  }

  // ---- Streams ----

  /** rest is what remains of s after at least one byte. */
  predicate ProperSuffix(rest: bytes, s: bytes) {
    |rest| < |s| && rest == s[|s| - |rest|..]
  }

  /** A decoder that succeeds on s behaves the same on any longer stream. */
  lemma {:induction false} Decode64Extends(s: bytes, t: bytes, bitpos: nat, r: nat)
    requires Decode64From(s, bitpos, r).Some?
    ensures var d := Decode64From(s, bitpos, r).value;
            Decode64From(s + t, bitpos, r) == Some(Decoded(d.value, d.rest + t)) && ProperSuffix(d.rest, s)
    decreases |s|
  {
    assert (s + t)[1..] == s[1..] + t;
    if s[0] >= 128 {
      Decode64Extends(s[1..], t, bitpos + 7, Push64(r, s[0], bitpos));
    }
  }

  lemma {:induction false} Decode32Extends(s: bytes, t: bytes, bitpos: nat, r: nat)
    requires Decode32From(s, bitpos, r).Some?
    ensures var d := Decode32From(s, bitpos, r).value;
            Decode32From(s + t, bitpos, r) == Some(Decoded(d.value, d.rest + t)) && ProperSuffix(d.rest, s)
    decreases |s|
  {
    assert (s + t)[1..] == s[1..] + t;
    if s[0] >= 128 {
      Decode32Extends(s[1..], t, (bitpos + 7) % 256, Accept32(s[0], bitpos, r).value);
    }
  }

  lemma VarintExtends(s: bytes, t: bytes)
    requires DecodeVarint(s).Some?
    ensures var d := DecodeVarint(s).value;
            DecodeVarint(s + t) == Some(Decoded(d.value, d.rest + t)) && ProperSuffix(d.rest, s)
  {
    Decode64Extends(s, t, 0, 0);
  }

  lemma Varint32Extends(s: bytes, t: bytes)
    requires DecodeVarint32(s).Some?
    ensures var d := DecodeVarint32(s).value;
            DecodeVarint32(s + t) == Some(Decoded(d.value, d.rest + t)) && ProperSuffix(d.rest, s)
  {
    assert (s + t)[1..] == s[1..] + t;
    if s[0] >= 128 {
      Decode32Extends(s[1..], t, 7, s[0] % 128);
    }
  }

  // ---- The two decoders agree ----

  lemma DoubleMod(x: nat, m: nat)
    requires m > 0
    ensures (2 * x) % (2 * m) == 2 * (x % m)
  {
    var q := x / m;
    assert x == m * q + x % m;
    assert 2 * x == (2 * m) * q + 2 * (x % m);
    ModUnique(2 * x, 2 * m, q, 2 * (x % m));
  }

  lemma MulStrict(a: nat, b: nat, m: nat)
    requires a < b
    ensures m * a + m <= m * b
  {
    var k := b - a - 1;
    assert m * b == m * a + m + m * k;
  }

  lemma ModUnique(x: nat, m: nat, q: nat, r: nat)
    requires r < m && x == m * q + r
    ensures x % m == r
  {
    var q' := x / m;
    if q' < q {
      MulStrict(q', q, m);
    } else if q < q' {
      MulStrict(q, q', m);
    }
  }

  lemma AddMod32(r: nat, x: nat)
    requires r + x % TWO_32 < TWO_32
    ensures (r + x) % TWO_32 == r + x % TWO_32
  {
  }

  /** Truncating a shifted number to w bits drops its own high bits. */
  lemma {:induction false} TruncateShift(d: nat, k: nat, w: nat)
    requires k <= w
    ensures Shl(d, k) % Shl(1, w) == Shl(d % Shl(1, w - k), k)
    ensures Shl(d % Shl(1, w - k), k) + Shl(1, k) <= Shl(1, w)
  {
    if k > 0 {
      TruncateShift(d, k - 1, w - 1);
      DoubleMod(Shl(d, k - 1), Shl(1, w - 1));
    }
  }

  lemma TruncateTo(d: nat, k: nat, w: nat, m: nat)
    requires k <= w && m == Shl(1, w) && m > 0
    ensures Shl(d, k) % m == Shl(d % Shl(1, w - k), k)
    ensures Shl(d % Shl(1, w - k), k) + Shl(1, k) <= m
  {
    TruncateShift(d, k, w);
  }

  lemma WordIsMod(x: nat)
    ensures Word32(x) == x % TWO_32 && Word64(x) == x % TWO_64
  {
  }

  lemma KeptBits32(d: nat, bitpos: nat) returns (kept: nat)
    requires bitpos < 32
    ensures Word32(Shl(d, bitpos)) == Shl(d, bitpos) % TWO_32 == Shl(kept, bitpos)
    ensures Shl(kept, bitpos) + Shl(1, bitpos) <= TWO_32
  {
    ShlValues();
    kept := d % Shl(1, 32 - bitpos);
    TruncateTo(d, bitpos, 32, TWO_32);
    WordIsMod(Shl(d, bitpos));
  }

  lemma KeptBits64(d: nat, bitpos: nat) returns (kept: nat)
    requires bitpos < 64
    ensures Word64(Shl(d, bitpos)) == Shl(kept, bitpos)
    ensures Shl(kept, bitpos) + Shl(1, bitpos) <= TWO_64
  {
    ShlValues64();
    kept := d % Shl(1, 64 - bitpos);
    TruncateTo(d, bitpos, 64, TWO_64);
    WordIsMod(Shl(d, bitpos));
  }

  /** The 32-bit step adds modulo the word size. */
  lemma PushMod32(b: byte, bitpos: nat, r: nat)
    requires bitpos < 32 && r < Shl(1, bitpos)
    ensures Push32(r, b, bitpos) == (r + Shl(b % 128, bitpos)) % TWO_32
  {
    var kept := KeptBits32(b % 128, bitpos);
    OrDisjoint(r, kept, bitpos);
    AddMod32(r, Shl(b % 128, bitpos));
  }

  /** Up to bit 57 the 64-bit step loses nothing. */
  lemma PushExact64(b: byte, bitpos: nat, r: nat)
    requires bitpos + 7 <= 64 && r < Shl(1, bitpos)
    ensures Push64(r, b, bitpos) == r + Shl(b % 128, bitpos) < Shl(1, bitpos + 7)
  {
    var d := b % 128;
    ShlMonotone(d, 127, bitpos);
    ShlAdd(127, 1, bitpos);
    Shl7(1);
    ShlShl(1, 7, bitpos);
    ShlGrows(1, bitpos + 7, 64);
    ShlValues64();
    PushByte64(d, b, bitpos, r);
  }

  /** From bit 32 on the 64-bit step leaves the low word alone. */
  lemma PushHigh64(b: byte, bitpos: nat, r: nat)
    requires 32 <= bitpos < 64 && r < Shl(1, bitpos)
    ensures Push64(r, b, bitpos) % TWO_32 == r % TWO_32
  {
    var kept := KeptBits64(b % 128, bitpos);
    OrDisjoint(r, kept, bitpos);
    MultipleOf32(kept, bitpos, r);
  }

  lemma {:induction false} ShlZero(k: nat)
    ensures Shl(0, k) == 0
  {
    if k > 0 { ShlZero(k - 1); }
  }

  lemma MultipleOf32(c: nat, bitpos: nat, r: nat)
    requires bitpos >= 32
    ensures (r + Shl(c, bitpos)) % TWO_32 == r % TWO_32
  {
    var h := Shl(c, bitpos - 32);
    ShlShl(c, bitpos - 32, 32);
    ShlValues();
    TruncateTo(h, 32, 32, TWO_32);
    ShlZero(32);
    AddMultiple(r, Shl(c, bitpos));
  }

  lemma AddMultiple(r: nat, x: nat)
    requires x % TWO_32 == 0
    ensures (r + x) % TWO_32 == r % TWO_32
  {
  }

  lemma LowWord(bitpos: nat, r: nat)
    requires bitpos < 32 && r < Shl(1, bitpos)
    ensures r % TWO_32 == r
  {
    ShlValues();
    ShlGrows(1, bitpos, 32);
  }

  lemma StepsAgreeLow(b: byte, bitpos: nat, r: nat)
    requires bitpos < 32 && r < Shl(1, bitpos)
    ensures Push32(r, b, bitpos) == Push64(r, b, bitpos) % TWO_32
  {
    PushExact64(b, bitpos, r);
    PushMod32(b, bitpos, r);
  }

  /** One byte keeps the short result equal to the low word of the long one. */
  lemma StepsAgree(b: byte, bitpos: nat, r32: nat, r64: nat)
    requires bitpos < 64 && r64 < Shl(1, bitpos) && r32 == r64 % TWO_32
    requires Accept32(b, bitpos, r32).Some?
    ensures Accept32(b, bitpos, r32).value == Push64(r64, b, bitpos) % TWO_32
  {
    if bitpos >= 32 {
      PushHigh64(b, bitpos, r64);
    } else {
      LowWord(bitpos, r64);
      StepsAgreeLow(b, bitpos, r64);
    }
  }

  /** One byte of both loops. */
  lemma Unfold(s: bytes, bitpos: nat, r32: nat, r64: nat)
    requires bitpos < 64 && Decode32From(s, bitpos, r32).Some? && Decode64From(s, bitpos, r64).Some?
    ensures s != [] && Accept32(s[0], bitpos, r32).Some?
    ensures var n32, n64 := Accept32(s[0], bitpos, r32).value, Push64(r64, s[0], bitpos);
            if s[0] >= 128 then
              && Decode32From(s, bitpos, r32) == Decode32From(s[1..], bitpos + 7, n32)
              && Decode64From(s, bitpos, r64) == Decode64From(s[1..], bitpos + 7, n64)
            else
              && Decode32From(s, bitpos, r32) == Some(Decoded(n32, s[1..]))
              && Decode64From(s, bitpos, r64) == Some(Decoded(n64, s[1..]))
  {
  }

  /** Where both decoders succeed, the short one is the long one modulo 2^32, on the same bytes. */
  lemma {:induction false} LoopsAgree(s: bytes, bitpos: nat, r32: nat, r64: nat)
    requires bitpos < 64 && r64 < Shl(1, bitpos) && r32 == r64 % TWO_32
    requires Decode32From(s, bitpos, r32).Some? && Decode64From(s, bitpos, r64).Some?
    ensures Decode32From(s, bitpos, r32).value.value == Decode64From(s, bitpos, r64).value.value % TWO_32
    ensures Decode32From(s, bitpos, r32).value.rest == Decode64From(s, bitpos, r64).value.rest
    decreases |s|
  {
    StepsAgree(s[0], bitpos, r32, r64);
    var n32, n64 := Accept32(s[0], bitpos, r32).value, Push64(r64, s[0], bitpos);
    Unfold(s, bitpos, r32, r64);
    if s[0] >= 128 {
      PushExact64(s[0], bitpos, r64);
      LoopsAgree(s[1..], bitpos + 7, n32, n64);
    }
  }

  lemma FirstByte64(s: bytes)
    requires s != []
    ensures DecodeVarint(s) == if s[0] >= 128 then Decode64From(s[1..], 7, s[0] % 128) else Some(Decoded(s[0], s[1..]))
  {
    assert Shl(1, 0) == 1 && Shl(s[0] % 128, 0) == s[0] % 128;
    PushByte64(s[0] % 128, s[0], 0, 0);
  }

  /** The digit of the first byte starts both loops. */
  lemma FirstDigit(b: byte)
    ensures (b % 128) % TWO_32 == b % 128 < Shl(1, 7)
  {
    Shl7(1);
  }

  lemma DecodersAgree(s: bytes)
    requires DecodeVarint32(s).Some? && DecodeVarint(s).Some?
    ensures DecodeVarint32(s).value.value == DecodeVarint(s).value.value % TWO_32
    ensures DecodeVarint32(s).value.rest == DecodeVarint(s).value.rest
  {
    FirstByte64(s);
    FirstDigit(s[0]);
    if s[0] >= 128 {
      LoopsAgree(s[1..], 7, s[0] % 128, s[0] % 128);
    }
  }
}
