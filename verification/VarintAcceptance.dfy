/**
 Exactly which varints nanopb's two decoders accept, byte by byte and for every length, and when the
 32-bit decoder's result is the number that the bytes spell (pb_decode.c).
 */
module VarintAcceptance {
  import opened Slices
  import opened Words
  import opened Varints

  /** The length of the varint at the front of s, up to the first byte below 128; 0 when it does not end. */
  function VarLen(s: bytes): (n: nat)
    ensures n <= |s|
    ensures n > 0 ==> s[n - 1] < 128
    ensures forall i | 0 <= i < (if n == 0 then |s| else n - 1) :: s[i] >= 128
  {
    if s == [] then 0
    else if s[0] < 128 then 1
    else
      var n := VarLen(s[1..]);
      assert forall i | 1 <= i < |s| :: s[i] == s[1..][i - 1];
      if n == 0 then 0 else n + 1
  }

  lemma VarLenStep(s: bytes)
    requires s != [] && s[0] >= 128 && VarLen(s) > 0
    ensures VarLen(s) == VarLen(s[1..]) + 1 > 1
  {
  }

  lemma {:induction false} EncodedLength(v: nat, t: bytes)
    ensures VarLen(EncodeVarint(v) + t) == |EncodeVarint(v)|
  {
    var s := EncodeVarint(v) + t;
    if v >= 128 {
      EncodedLength(v / 128, t);
      assert s[1..] == EncodeVarint(v / 128) + t;
    }
  }

  /** The number the varint spells, in as many bits as it takes. */
  function Spelled(s: bytes): nat {
    if s == [] then 0 else if s[0] < 128 then s[0] else s[0] % 128 + 128 * Spelled(s[1..])
  }

  // ---- The sign bit of the 32-bit result ----

  lemma {:induction false} NoHighBit(d: nat, k: nat)
    requires d < Shl(1, k)
    ensures !Bit(d, k)
  {
    if k > 0 {
      NoHighBit(d / 2, k - 1);
    }
  }

  lemma SevenBits(d: nat, k: nat)
    requires d < 128 && k >= 7
    ensures !Bit(d, k)
  {
    Shl7(1);
    ShlGrows(1, 7, k);
    NoHighBit(d, k);
  }

  lemma {:induction false} TopBit(r: nat, n: nat)
    requires r < Shl(1, n + 1)
    ensures Bit(r, n) <==> r >= Shl(1, n)
  {
    if n > 0 {
      TopBit(r / 2, n - 1);
    }
  }

  lemma {:induction false} ShiftedBit(d: nat, k: nat, j: nat)
    ensures Bit(Shl(d, k), j + k) <==> Bit(d, j)
  {
    if k > 0 {
      ShiftedBit(d, k - 1, j);
      assert Shl(d, k) / 2 == Shl(d, k - 1);
    }
  }

  lemma HalfOfMod(x: nat, m: nat)
    requires m > 0
    ensures (x % (2 * m)) / 2 == (x / 2) % m && (x % (2 * m)) % 2 == x % 2
  {
    DoubleMod(x / 2, m);
    var y, b := x / 2, x % 2;
    var q := y / m;
    assert x == (2 * m) * q + (2 * (y % m) + b);
    ModUnique(x, 2 * m, q, 2 * (y % m) + b);
  }

  lemma {:induction false} TruncatedBit(x: nat, n: nat, k: nat)
    requires k < n
    ensures Bit(x % Shl(1, n), k) <==> Bit(x, k)
  {
    HalfOfMod(x, Shl(1, n - 1));
    if k > 0 {
      TruncatedBit(x / 2, n - 1, k - 1);
    }
  }

  lemma SignOf(w: nat)
    requires w < TWO_32
    ensures Bit(w, 31) <==> w >= TWO_31
  {
    ShlValues();
    assert Shl(1, 32) == 2 * Shl(1, 31);
    TopBit(w, 31);
  }

  /** The 32-bit step keeps a word, and sets its sign bit exactly from the digit's bit that lands there. */
  lemma PushSign(r: nat, b: byte, pos: nat)
    requires pos < 32 && r < TWO_32
    ensures Push32(r, b, pos) < TWO_32
    ensures Push32(r, b, pos) >= TWO_31 <==> r >= TWO_31 || Bit(b % 128, 31 - pos)
  {
    var x := Shl(b % 128, pos);
    var w := x % TWO_32;
    WordIsMod(x);
    ShlValues();
    OrBelow(r, w, 32);
    OrBit(r, w, 31);
    SignOf(r);
    SignOf(Or(r, w));
    assert Bit(w, 31) <==> Bit(b % 128, 31 - pos) by {
      TruncatedBit(x, 32, 31);
      ShiftedBit(b % 128, pos, 31 - pos);
    }
  }

  // ---- Acceptance by the 32-bit decoder ----

  /** Where byte i lands: the bit position is counted in eight bits. */
  function Pos(i: nat): (p: nat)
    ensures p < 256
  {
    if i == 0 then 0 else if Pos(i - 1) + 7 < 256 then Pos(i - 1) + 7 else Pos(i - 1) + 7 - 256
  }

  lemma NextPos(i: nat)
    ensures Pos(i + 1) == (Pos(i) + 7) % 256
  {
  }

  /** It wraps at byte 37. */
  lemma {:induction false} PosBeforeWrap(i: nat)
    ensures i < 37 ==> Pos(i) == 7 * i
  {
    if i > 0 {
      PosBeforeWrap(i - 1);
    }
  }

  /** Byte i puts a one into bit 31 of the result. */
  predicate SetsSign(s: bytes, i: nat)
    requires i < |s|
  {
    Pos(i) < 32 && Bit(s[i] % 128, 31 - Pos(i))
  }

  predicate SignSet(s: bytes, i: nat)
    requires i <= |s|
  {
    exists k | 0 <= k < i :: SetsSign(s, k)
  }

  /** Past the word only padding may follow: zeros, or ones that extend a sign already set. */
  predicate Allowed(s: bytes, i: nat)
    requires i < |s|
  {
    || Pos(i) < 32 || s[i] % 128 == 0
    || (SignSet(s, i) && s[i] == if Pos(i) < 63 then 0xFF else 0x01)
  }

  /** A varint that ends at bit 28 has only four bits left there. */
  predicate LastFits(s: bytes, i: nat)
    requires i < |s|
  {
    Pos(i) != 28 || s[i] / 16 % 8 == 0
  }

  predicate Acceptable(s: bytes, from: nat, n: nat)
    requires from + n <= |s|
  {
    n > 0 && (forall i | from <= i < from + n :: Allowed(s, i)) && LastFits(s, from + n - 1)
  }

  lemma SignGrows(s: bytes, i: nat)
    requires i < |s|
    ensures SignSet(s, i + 1) <==> SignSet(s, i) || SetsSign(s, i)
  {
    if SetsSign(s, i) {
      assert SignSet(s, i + 1);
    }
  }

  /** One byte of the loop is accepted iff it is allowed, and keeps the sign bit known. */
  lemma AcceptOne(s: bytes, i: nat, r: nat)
    requires i < |s| && r < TWO_32 && (r >= TWO_31 <==> SignSet(s, i))
    ensures Accept32(s[i], Pos(i), r).Some? <==> Allowed(s, i)
    ensures Accept32(s[i], Pos(i), r).Some? ==>
              var r' := Accept32(s[i], Pos(i), r).value;
              r' < TWO_32 && (r' >= TWO_31 <==> SignSet(s, i + 1))
  {
    SignGrows(s, i);
    if Pos(i) < 32 {
      PushSign(r, s[i], Pos(i));
    }
  }

  lemma LoopByte(t: bytes, bitpos: nat, r: nat)
    requires t != [] && bitpos < 256
    ensures var a := Accept32(t[0], bitpos, r);
            Decode32From(t, bitpos, r) ==
            if a.None? then None
            else if t[0] >= 128 then Decode32From(t[1..], (bitpos + 7) % 256, a.value)
            else if bitpos == 28 && t[0] / 16 != 0 then None
            else Some(Decoded(a.value, t[1..]))
  {
    assert (bitpos + 7) % 256 == 35 <==> bitpos == 28;
  }

  lemma AcceptLast(s: bytes, i: nat, r: nat)
    requires i < |s| && s[i] < 128 && Accept32(s[i], Pos(i), r).Some? == Allowed(s, i)
    ensures Decode32From(s[i..], Pos(i), r).Some? <==> Acceptable(s, i, VarLen(s[i..]))
  {
    LoopByte(s[i..], Pos(i), r);
    AcceptableStep(s, i);
  }

  lemma AcceptMore(s: bytes, i: nat, r: nat)
    requires i < |s| && s[i] >= 128 && Accept32(s[i], Pos(i), r).Some? == Allowed(s, i)
    requires Allowed(s, i) ==> (Decode32From(s[i + 1..], Pos(i + 1), Accept32(s[i], Pos(i), r).value).Some?
                                <==> Acceptable(s, i + 1, VarLen(s[i + 1..])))
    ensures Decode32From(s[i..], Pos(i), r).Some? <==> Acceptable(s, i, VarLen(s[i..]))
  {
    LoopByte(s[i..], Pos(i), r);
    assert s[i..][1..] == s[i + 1..];
    NextPos(i);
    AcceptableStep(s, i);
  }

  lemma {:induction false} AcceptFrom(s: bytes, i: nat, r: nat)
    requires i <= |s| && r < TWO_32 && (r >= TWO_31 <==> SignSet(s, i))
    ensures Decode32From(s[i..], Pos(i), r).Some? <==> Acceptable(s, i, VarLen(s[i..]))
    decreases |s| - i
  {
    if i < |s| {
      AcceptOne(s, i, r);
      if s[i] < 128 {
        AcceptLast(s, i, r);
      } else {
        if Allowed(s, i) {
          AcceptFrom(s, i + 1, Accept32(s[i], Pos(i), r).value);
        }
        AcceptMore(s, i, r);
      }
    }
  }

  lemma AcceptableStep(s: bytes, i: nat)
    requires i < |s|
    ensures s[i] < 128 ==> VarLen(s[i..]) == 1 && (Acceptable(s, i, 1) <==> Allowed(s, i) && LastFits(s, i))
    ensures s[i] >= 128 ==>
              (Acceptable(s, i, VarLen(s[i..])) <==> Allowed(s, i) && Acceptable(s, i + 1, VarLen(s[i + 1..])))
  {
    assert s[i..][1..] == s[i + 1..];
  }

  /** Only a varint that ends can be accepted. */
  lemma {:induction false} Accept32Ends(s: bytes, bitpos: nat, r: nat)
    requires Decode32From(s, bitpos, r).Some?
    ensures VarLen(s) > 0
    decreases |s|
  {
    var a := Accept32(s[0], bitpos, r);
    if s[0] >= 128 {
      Accept32Ends(s[1..], (bitpos + 7) % 256, a.value);
    }
  }

  /** The first byte never reaches the sign bit. */
  lemma FirstSign(s: bytes)
    requires s != []
    ensures !SignSet(s, 1) && Allowed(s, 0) && LastFits(s, 0)
  {
    SevenBits(s[0] % 128, 31);
    assert !SetsSign(s, 0);
  }

  /**
   The 32-bit decoder accepts a varint of any length iff every byte past the word is padding of the
   value or of its sign, and a five-byte one has nothing above bit 31.
   */
  lemma Accepts32(s: bytes)
    ensures DecodeVarint32(s).Some? <==> Acceptable(s, 0, VarLen(s))
  {
    if s != [] {
      assert s[0..] == s && Pos(1) == 7;
      FirstSign(s);
      AcceptableStep(s, 0);
      if s[0] >= 128 {
        AcceptFrom(s, 1, s[0] % 128);
      }
    }
  }

  // ---- The same without the wrap ----

  lemma BitThree(d: nat)
    ensures Bit(d % 128, 3) <==> d / 8 % 2 == 1
  {
    Shl7(1);
    TruncatedBit(d, 7, 3);
    ThirdHalf(d);
  }

  lemma ThirdHalf(d: nat)
    ensures Bit(d, 3) <==> d / 8 % 2 == 1
  {
    assert Bit(d, 3) == Bit(d / 2 / 2, 1) == Bit(d / 2 / 2 / 2, 0);
    assert d / 2 / 2 / 2 == d / 8;
  }

  /** Up to 37 bytes the only byte that reaches the sign bit is the fifth, with its bit 3. */
  lemma SignIsInFifth(s: bytes, i: nat)
    requires 5 <= i <= 37 && i <= |s|
    ensures SignSet(s, i) <==> s[4] / 8 % 2 == 1
  {
    BitThree(s[4]);
    PosBeforeWrap(4);
    forall k | 0 <= k < i && k != 4 ensures !SetsSign(s, k) {
      PosBeforeWrap(k);
      if k < 4 {
        SevenBits(s[k] % 128, 31 - Pos(k));
      }
    }
    assert SetsSign(s, 4) <==> s[4] / 8 % 2 == 1;
  }

  /** Byte i, past the word, is padding. */
  predicate Padding(s: bytes, i: nat)
    requires 5 <= i < |s|
  {
    s[i] % 128 == 0 || (s[4] / 8 % 2 == 1 && s[i] == if i < 9 then 0xFF else 0x01)
  }

  lemma AllowedIsPadding(s: bytes, i: nat)
    requires i < 37 && i < |s|
    ensures Allowed(s, i) <==> i < 5 || Padding(s, i)
    ensures LastFits(s, i) <==> i != 4 || s[4] / 16 % 8 == 0
  {
    PosBeforeWrap(i);
    if i >= 5 {
      SignIsInFifth(s, i);
    }
  }

  /**
   Up to 37 bytes, before the bit position wraps, and so for every varint the 64-bit decoder can read:
   four bytes are always accepted, a fifth when it ends within four bits, and more when they are padding.
   */
  lemma Accepts32Bytes(s: bytes)
    requires 1 <= VarLen(s) <= 37
    ensures var n := VarLen(s);
            DecodeVarint32(s).Some? <==>
            || n <= 4 || (n == 5 && s[4] / 16 % 8 == 0)
            || (n >= 6 && forall i | 5 <= i < n :: Padding(s, i))
  {
    var n := VarLen(s);
    Accepts32(s);
    forall i | 0 <= i < n
      ensures Allowed(s, i) <==> i < 5 || Padding(s, i)
      ensures LastFits(s, i) <==> i != 4 || s[4] / 16 % 8 == 0
    {
      AllowedIsPadding(s, i);
    }
  }

  // ---- Acceptance by the 64-bit decoder ----

  lemma {:induction false} Accept64From(s: bytes, bitpos: nat, r: nat)
    ensures Decode64From(s, bitpos, r).Some? <==> VarLen(s) > 0 && bitpos + 7 * (VarLen(s) - 1) < 64
    decreases |s|
  {
    if s != [] && bitpos < 64 && s[0] >= 128 {
      Accept64From(s[1..], bitpos + 7, Push64(r, s[0], bitpos));
    }
  }

  /** The 64-bit decoder accepts exactly the varints of at most ten bytes. */
  lemma Accepts64(s: bytes)
    ensures DecodeVarint(s).Some? <==> 1 <= VarLen(s) <= 10
  {
    Accept64From(s, 0, 0);
  }

  // ---- The number spelled ----

  lemma SevenFurther(x: nat, k: nat)
    ensures Shl(x, k + 7) == 128 * Shl(x, k)
  {
    ShlShl(x, k, 7);
    Shl7(Shl(x, k));
  }

  lemma AddDigit(d: nat, low: nat, x: nat, p: nat)
    requires d < 128 && low < Shl(1, p)
    ensures d + 128 * low < Shl(1, p + 7)
    ensures d + 128 * (low + Shl(x, p)) == d + 128 * low + Shl(x, p + 7)
  {
    Plus7(p);
    SevenFurther(x, p);
  }

  /** The first k digits, and the rest shifted past them. */
  lemma {:induction false} SpelledSplit(s: bytes, k: nat, p: nat) returns (low: nat)
    requires k < VarLen(s) && p == 7 * k
    ensures low < Shl(1, p) && Spelled(s) == low + Shl(Spelled(s[k..]), p)
    decreases k
  {
    if k == 0 {
      assert s[0..] == s;
      low := 0;
    } else {
      VarLenStep(s);
      var rest := SpelledSplit(s[1..], k - 1, p - 7);
      assert s[1..][k - 1..] == s[k..];
      AddDigit(s[0] % 128, rest, Spelled(s[k..]), p - 7);
      low := s[0] % 128 + 128 * rest;
    }
  }

  lemma {:induction false} SpelledZero(s: bytes)
    requires VarLen(s) > 0
    ensures Spelled(s) == 0 <==> forall i | 0 <= i < VarLen(s) :: s[i] % 128 == 0
  {
    if s[0] >= 128 {
      var t := s[1..];
      SpelledZero(t);
      assert (forall i | 0 <= i < VarLen(s) :: s[i] % 128 == 0) <==>
             s[0] % 128 == 0 && forall i | 0 <= i < VarLen(t) :: t[i] % 128 == 0 by {
        assert forall i | 0 <= i < VarLen(t) :: t[i] == s[i + 1];
        assert forall i | 1 <= i < VarLen(s) :: s[i] == t[i - 1];
      }
    }
  }

  /** Nothing above bit 31: at most four digits, or four bits more and then only zeros. */
  predicate FitsWord(s: bytes) {
    var n := VarLen(s);
    n <= 4 || (s[4] / 16 % 8 == 0 && forall i | 5 <= i < n :: s[i] % 128 == 0)
  }

  lemma VarLenDrop(s: bytes, k: nat)
    requires k < VarLen(s)
    ensures VarLen(s[k..]) == VarLen(s) - k
  {
    var t := s[k..];
    var n, m := VarLen(s), VarLen(t);
    assert t[n - k - 1] == s[n - 1];
    assert forall i | 0 <= i < |t| :: t[i] == s[k + i];
  }

  lemma FourBits(b: byte, x: nat)
    ensures b % 128 + 128 * x < 16 <==> b / 16 % 8 == 0 && x == 0
  {
    assert b % 128 == 16 * (b / 16 % 8) + b % 16;
  }

  lemma TailIsZero(s: bytes)
    requires VarLen(s) > 5
    ensures Spelled(s[5..]) == 0 <==> forall i | 5 <= i < VarLen(s) :: s[i] % 128 == 0
  {
    var t := s[5..];
    VarLenDrop(s, 5);
    SpelledZero(t);
    assert forall i | 5 <= i < VarLen(s) :: s[i] == t[i - 5];
    assert forall i | 0 <= i < VarLen(t) :: t[i] == s[i + 5];
  }

  lemma FifthDigit(s: bytes)
    requires VarLen(s) >= 5
    ensures Spelled(s[4..]) == s[4] % 128 + 128 * if VarLen(s) > 5 then Spelled(s[5..]) else 0
  {
    assert s[4..][0] == s[4] && s[4..][1..] == s[5..];
  }

  /** The fifth digit and all that follow. */
  lemma FifthOn(s: bytes)
    requires VarLen(s) >= 5
    ensures Spelled(s[4..]) < 16 <==> FitsWord(s)
  {
    FifthDigit(s);
    FourBits(s[4], if VarLen(s) > 5 then Spelled(s[5..]) else 0);
    if VarLen(s) > 5 {
      TailIsZero(s);
    }
  }

  /** The number spelled fits in 32 bits iff no byte puts anything above bit 31. */
  lemma SpelledFits(s: bytes)
    requires VarLen(s) > 0
    ensures Spelled(s) < TWO_32 <==> FitsWord(s)
  {
    var n := VarLen(s);
    if n <= 4 {
      SpelledBound(s);
      ShlGrows(1, 7 * n, 28);
      ShlValues();
    } else {
      var low := SpelledSplit(s, 4, 28);
      ShlValues();
      Shl28(Spelled(s[4..]));
      FifthOn(s);
    }
  }

  lemma {:induction false} SpelledBound(s: bytes)
    requires VarLen(s) > 0
    ensures Spelled(s) < Shl(1, 7 * VarLen(s))
  {
    if s[0] < 128 {
      Shl7(1);
    } else {
      SpelledBound(s[1..]);
      Plus7(7 * VarLen(s[1..]));
    }
  }

  // ---- The decoded values ----

  /** Zero digits add nothing, wherever they land. */
  lemma {:induction false} ZeroTail(s: bytes, bitpos: nat, r: nat)
    requires bitpos < 256 && Decode32From(s, bitpos, r).Some? && Spelled(s) == 0
    ensures Decode32From(s, bitpos, r).value.value == r
    decreases |s|
  {
    LoopByte(s, bitpos, r);
    ShlZero(bitpos);
    assert Push32(r, s[0], bitpos) == r;
    if s[0] >= 128 {
      ZeroTail(s[1..], (bitpos + 7) % 256, r);
    }
  }

  /** One byte inside the word. */
  lemma LowByte(s: bytes, p: nat, r: nat)
    requires p <= 28 && s != [] && Decode32From(s, p, r).Some?
    ensures var r' := Push32(r, s[0], p);
            if s[0] < 128 then Decode32From(s, p, r).value.value == r'
            else Decode32From(s, p, r) == Decode32From(s[1..], p + 7, r')
  {
    LoopByte(s, p, r);
  }

  /** One digit that fits. */
  lemma Value32Step(s: bytes, p: nat, r: nat)
    requires p <= 28 && r < Shl(1, p) && s != [] && Decode32From(s, p, r).Some?
    requires Shl(s[0] % 128, p) < TWO_32
    ensures var r' := r + Shl(s[0] % 128, p);
            if s[0] < 128 then Decode32From(s, p, r).value.value == r'
            else Decode32From(s, p, r) == Decode32From(s[1..], p + 7, r')
  {
    LowByte(s, p, r);
    PushByte32(s[0] % 128, s[0], p, r);
  }

  /** Past the word only zeros fit. */
  lemma ValueAbove(t: bytes, r: nat)
    requires Shl(Spelled(t), 35) < TWO_32 && Decode32From(t, 35, r).Some?
    ensures Decode32From(t, 35, r).value.value == r + Shl(Spelled(t), 35)
  {
    PastTheWord(Spelled(t));
    ShlZero(35);
    ZeroTail(t, 35, r);
  }

  /** What the digits from bit p on add to the result so far. */
  predicate Adds(s: bytes, p: nat, r: nat) {
    var d := Decode32From(s, p, r);
    d.Some? ==> d.value.value == r + Shl(Spelled(s), p)
  }

  lemma AddsLast(s: bytes, p: nat, r: nat)
    requires p <= 28 && r < Shl(1, p) && s != [] && s[0] < 128 && Shl(s[0], p) < TWO_32
    ensures Adds(s, p, r)
  {
    assert s[0] % 128 == s[0] == Spelled(s);
    if Decode32From(s, p, r).Some? {
      Value32Step(s, p, r);
    }
  }

  lemma AddsMore(s: bytes, p: nat, r: nat)
    requires p <= 28 && r < Shl(1, p) && s != [] && s[0] >= 128 && Shl(s[0] % 128, p) < TWO_32
    requires Shl(Spelled(s), p) == Shl(s[0] % 128, p) + Shl(Spelled(s[1..]), p + 7)
    requires Adds(s[1..], p + 7, r + Shl(s[0] % 128, p))
    ensures Adds(s, p, r)
  {
    if Decode32From(s, p, r).Some? {
      Value32Step(s, p, r);
    }
  }

  /** The digits still to come, when they fit, are added above the result so far. */
  lemma {:induction false} Value32From(s: bytes, p: nat, r: nat)
    requires p % 7 == 0 && p <= 35 && r < Shl(1, p) && Shl(Spelled(s), p) < TWO_32
    ensures Adds(s, p, r)
    decreases |s|
  {
    if p == 35 {
      if Decode32From(s, 35, r).Some? {
        ValueAbove(s, r);
      }
    } else if s != [] {
      DigitsAbove(s, p, TWO_32);
      if s[0] < 128 {
        AddsLast(s, p, r);
      } else {
        DigitBelow(s[0] % 128, p, r);
        Value32From(s[1..], p + 7, r + Shl(s[0] % 128, p));
        AddsMore(s, p, r);
      }
    }
  }

  /** The first digit of s at bit p, and the rest seven further. */
  lemma DigitsAbove(s: bytes, p: nat, bound: nat)
    requires s != [] && Shl(Spelled(s), p) < bound
    ensures Shl(s[0] % 128, p) < bound
    ensures s[0] >= 128 ==> Shl(Spelled(s), p) == Shl(s[0] % 128, p) + Shl(Spelled(s[1..]), p + 7)
  {
    if s[0] >= 128 {
      SplitShift(Spelled(s), p);
    }
  }

  lemma DigitBelow(d: nat, p: nat, r: nat)
    requires d < 128 && r < Shl(1, p)
    ensures r + Shl(d, p) < Shl(1, p + 7)
  {
    ShlMonotone(d, 127, p);
    ShlAdd(127, 1, p);
    Plus7(p);
    ShlShl(1, 7, p);
    Shl7(1);
  }

  lemma PastTheWord(x: nat)
    requires Shl(x, 35) < TWO_32
    ensures x == 0
  {
    if x > 0 {
      ShlMonotone(1, x, 35);
      ShlGrows(1, 32, 35);
      ShlValues();
    }
  }

  /** The short result is a word. */
  lemma {:induction false} Below32(s: bytes, bitpos: nat, r: nat)
    requires bitpos < 256 && r < TWO_32 && Decode32From(s, bitpos, r).Some?
    ensures Decode32From(s, bitpos, r).value.value < TWO_32
    decreases |s|
  {
    LoopByte(s, bitpos, r);
    if bitpos < 32 {
      PushSign(r, s[0], bitpos);
    }
    if s[0] >= 128 {
      Below32(s[1..], (bitpos + 7) % 256, Accept32(s[0], bitpos, r).value);
    }
  }

  lemma Value32(s: bytes)
    requires DecodeVarint32(s).Some? && Spelled(s) < TWO_32
    ensures DecodeVarint32(s).value.value == Spelled(s)
  {
    if s[0] >= 128 {
      assert Shl(Spelled(s), 0) == Spelled(s) && Shl(s[0] % 128, 0) == s[0] % 128;
      DigitsAbove(s, 0, TWO_32);
      Shl7(1);
      Value32From(s[1..], 7, s[0] % 128);
    }
  }

  /**
   The 32-bit decoder's result, on a varint of any length that it accepts, is the number spelled iff
   no byte puts anything above bit 31; otherwise the number does not fit in 32 bits at all.
   */
  lemma ShortIsSpelledIff(s: bytes)
    requires DecodeVarint32(s).Some?
    ensures DecodeVarint32(s).value.value == Spelled(s) <==> FitsWord(s)
    ensures FitsWord(s) <==> Spelled(s) < TWO_32
  {
    Accepts32(s);
    SpelledFits(s);
    if Spelled(s) < TWO_32 {
      Value32(s);
    } else if s[0] >= 128 {
      Below32(s[1..], 7, s[0] % 128);
    }
  }

  lemma {:induction false} Value64From(s: bytes, bitpos: nat, r: nat)
    requires Decode64From(s, bitpos, r).Some? && r < Shl(1, bitpos) && Shl(Spelled(s), bitpos) < TWO_64
    ensures Decode64From(s, bitpos, r).value.value == r + Shl(Spelled(s), bitpos)
    decreases |s|
  {
    var d := s[0] % 128;
    DigitsAbove(s, bitpos, TWO_64);
    PushByte64(d, s[0], bitpos, r);
    if s[0] >= 128 {
      DigitBelow(d, bitpos, r);
      Value64From(s[1..], bitpos + 7, r + Shl(d, bitpos));
    }
  }

  lemma NineBytesFit64(s: bytes)
    requires 1 <= VarLen(s) <= 9
    ensures Spelled(s) < TWO_64
  {
    SpelledBound(s);
    ShlGrows(1, 7 * VarLen(s), 64);
    ShlValues64();
  }

  lemma TenBytesFit64(s: bytes)
    requires VarLen(s) == 10 && s[9] <= 1
    ensures Spelled(s) < TWO_64
  {
    var low := SpelledSplit(s, 9, 63);
    TenthDigit(s, low);
  }

  lemma TenthIsBit(s: bytes)
    requires VarLen(s) == 10 && DecodeVarint32(s).Some?
    ensures s[9] <= 1
  {
    Accepts32Bytes(s);
    assert Padding(s, 9);
  }

  /** What both decoders accept spells a number of at most 64 bits. */
  lemma BothFit64(s: bytes)
    requires DecodeVarint32(s).Some? && DecodeVarint(s).Some?
    ensures Spelled(s) < TWO_64
  {
    Accepts64(s);
    if VarLen(s) <= 9 {
      NineBytesFit64(s);
    } else {
      TenthIsBit(s);
      TenBytesFit64(s);
    }
  }

  lemma TenthDigit(s: bytes, low: nat)
    requires VarLen(s) == 10 && s[9] <= 1 && low < Shl(1, 63) && Spelled(s) == low + Shl(Spelled(s[9..]), 63)
    ensures Spelled(s) < TWO_64
  {
    assert Spelled(s[9..]) == s[9];
    ShlMonotone(s[9], 1, 63);
    ShlValues64();
  }

  /** Where both decoders succeed, they give the same number iff no byte puts anything above bit 31. */
  lemma DecodersEqualIff(s: bytes)
    requires DecodeVarint32(s).Some? && DecodeVarint(s).Some?
    ensures DecodeVarint(s).value.value == Spelled(s)
    ensures DecodeVarint32(s).value.value == DecodeVarint(s).value.value <==> FitsWord(s)
  {
    BothFit64(s);
    Value64(s);
    ShortIsSpelledIff(s);
  }

  // ---- Round trips ----

  lemma {:induction false} Rest64From(s: bytes, bitpos: nat, r: nat)
    requires Decode64From(s, bitpos, r).Some?
    ensures Decode64From(s, bitpos, r).value.rest == s[VarLen(s)..]
    decreases |s|
  {
    if s[0] >= 128 {
      Accept64From(s, bitpos, r);
      VarLenStep(s);
      Rest64From(s[1..], bitpos + 7, Push64(r, s[0], bitpos));
    }
  }

  lemma {:induction false} Rest32From(s: bytes, bitpos: nat, r: nat)
    requires Decode32From(s, bitpos, r).Some?
    ensures Decode32From(s, bitpos, r).value.rest == s[VarLen(s)..]
    decreases |s|
  {
    if s[0] >= 128 {
      Accept32Ends(s, bitpos, r);
      VarLenStep(s);
      Rest32From(s[1..], (bitpos + 7) % 256, Accept32(s[0], bitpos, r).value);
    }
  }

  lemma Rest32(s: bytes)
    requires DecodeVarint32(s).Some?
    ensures DecodeVarint32(s).value.rest == s[VarLen(s)..]
  {
    Accepts32(s);
    if s[0] >= 128 {
      VarLenStep(s);
      Rest32From(s[1..], 7, s[0] % 128);
    }
  }

  lemma {:induction false} SpelledEncoded(v: nat, t: bytes)
    ensures Spelled(EncodeVarint(v) + t) == v
  {
    if v >= 128 {
      SpelledEncoded(v / 128, t);
      assert (EncodeVarint(v) + t)[1..] == EncodeVarint(v / 128) + t;
    }
  }

  /** The 64-bit decoder undoes the encoder, on any continuation. */
  lemma VarintRoundTrip(v: nat, t: bytes)
    requires v < TWO_64
    ensures DecodeVarint(EncodeVarint(v) + t) == Some(Decoded(v, t))
  {
    var s := EncodeVarint(v) + t;
    TenBytes(v);
    EncodedLength(v, t);
    SpelledEncoded(v, t);
    Accepts64(s);
    Value64(s);
    Rest64From(s, 0, 0);
  }

  lemma Value64(s: bytes)
    requires DecodeVarint(s).Some? && Spelled(s) < TWO_64
    ensures DecodeVarint(s).value.value == Spelled(s)
  {
    assert Shl(Spelled(s), 0) == Spelled(s) && Shl(1, 0) == 1;
    Value64From(s, 0, 0);
  }

  lemma FiveBytes(v: nat)
    requires v < TWO_32
    ensures |EncodeVarint(v)| <= 5
  {
    ShlValues();
    ShlGrows(1, 32, 35);
    VarintLength(v, 5);
  }

  /** The 32-bit decoder accepts every uint32, on any continuation. */
  lemma Varint32RoundTrip(v: nat, t: bytes)
    requires v < TWO_32
    ensures DecodeVarint32(EncodeVarint(v) + t) == Some(Decoded(v, t))
  {
    var s := EncodeVarint(v) + t;
    FiveBytes(v);
    EncodedLength(v, t);
    SpelledEncoded(v, t);
    SpelledFits(s);
    Accepts32Bytes(s);
    Value32(s);
    Rest32(s);
  }

  // ---- Negative int32 values ----

  lemma Peel(s: bytes, i: nat)
    requires i + 1 < VarLen(s)
    ensures s[i] >= 128 && Spelled(s[i..]) == s[i] - 128 + 128 * Spelled(s[i + 1..])
  {
    assert s[i..][0] == s[i] && s[i..][1..] == s[i + 1..];
  }

  lemma SignLength(s: bytes)
    requires 1 <= VarLen(s) <= 10 && Spelled(s) >= TWO_64 - TWO_31
    ensures VarLen(s) == 10
  {
    if VarLen(s) <= 9 {
      SpelledBound(s);
      ShlGrows(1, 7 * VarLen(s), 63);
      ShlValues64();
    }
  }

  lemma DigitUnique(a: nat, y: nat, x: nat)
    requires a < 128 && a + 128 * y == 127 + 128 * x
    ensures a == 127 && y == x
  {
    assert (a + 128 * y) / 128 == y && (127 + 128 * x) / 128 == x;
  }

  lemma PeelOnes(s: bytes, i: nat, x: nat)
    requires i + 1 < VarLen(s) && Spelled(s[i..]) == 127 + 128 * x
    ensures s[i] == 0xFF && Spelled(s[i + 1..]) == x
  {
    Peel(s, i);
    DigitUnique(s[i] - 128, Spelled(s[i + 1..]), x);
  }

  /** From bit 28 on, a small negative number is ones. */
  lemma SignDigits(s: bytes)
    requires VarLen(s) == 10 && Spelled(s[4..]) / 8 == 0x1_FFFF_FFFF
    ensures s[4] / 8 % 2 == 1 && (forall i | 5 <= i < 9 :: s[i] == 0xFF) && s[9] == 1
  {
    Peel(s, 4);
    PeelOnes(s, 5, 0x3F_FFFF);
    PeelOnes(s, 6, 0x7FFF);
    PeelOnes(s, 7, 0xFF);
    PeelOnes(s, 8, 1);
    assert s[9..][0] == s[9];
  }

  lemma UpperDigits(s: bytes, k: nat)
    requires VarLen(s) == 10 && 1 <= k <= TWO_31 && Spelled(s) == TWO_64 - k
    ensures Spelled(s[4..]) / 8 == 0x1_FFFF_FFFF
  {
    var low := SpelledSplit(s, 4, 28);
    ShlValues();
    Shl28(Spelled(s[4..]));
  }

  lemma SignExtensionAccepted(s: bytes, k: nat)
    requires VarLen(s) == 10 && 1 <= k <= TWO_31 && Spelled(s) == TWO_64 - k
    ensures DecodeVarint32(s).Some?
  {
    UpperDigits(s, k);
    SignDigits(s);
    Accepts32Bytes(s);
  }

  /** Every negative int32, sign-extended to ten bytes as encoders send it, is accepted as its low word. */
  lemma SignExtendedAccepted(k: nat, t: bytes)
    requires 1 <= k <= TWO_31
    ensures DecodeVarint32(EncodeVarint(TWO_64 - k) + t) == Some(Decoded(TWO_32 - k, t))
  {
    var v := TWO_64 - k;
    var s := EncodeVarint(v) + t;
    VarintRoundTrip(v, t);
    Accepts64(s);
    SpelledEncoded(v, t);
    SignLength(s);
    SignExtensionAccepted(s, k);
    DecodersAgree(s);
    assert v % TWO_32 == TWO_32 - k;
  }

  // ---- An overlong varint ----

  lemma Prepend(b: byte, u: bytes)
    requires b >= 128 && VarLen(u) > 0
    ensures VarLen([b] + u) == VarLen(u) + 1 && Spelled([b] + u) == b - 128 + 128 * Spelled(u)
  {
    assert ([b] + u)[1..] == u;
  }

  /** 80 80 80 80 F0 00: seven bits at position 28, spelled with a byte more than needed. */
  function Overlong(t: bytes): bytes {
    [0x80] + ([0x80] + ([0x80] + ([0x80] + ([0xF0] + ([0x00] + t)))))
  }

  lemma OverlongSpells(t: bytes)
    ensures VarLen(Overlong(t)) == 6 && Spelled(Overlong(t)) == 0x7_0000_0000
  {
    var u := [0xF0] + ([0x00] + t);
    Prepend(0xF0, [0x00] + t);
    Prepend(0x80, u);
    Prepend(0x80, [0x80] + u);
    Prepend(0x80, [0x80] + ([0x80] + u));
    Prepend(0x80, [0x80] + ([0x80] + ([0x80] + u)));
  }

  /** Acceptance does not bound the value: this one is 0x700000000 to the 64-bit decoder and 0 to the 32-bit one. */
  lemma OverlongAccepted(t: bytes)
    ensures DecodeVarint(Overlong(t)).Some? && DecodeVarint(Overlong(t)).value.value == 0x7_0000_0000
    ensures DecodeVarint32(Overlong(t)).Some? && DecodeVarint32(Overlong(t)).value.value == 0
  {
    var s := Overlong(t);
    OverlongSpells(t);
    assert s[5] == 0;
    Accepts64(s);
    Accepts32Bytes(s);
    Value64(s);
    DecodersAgree(s);
  }

  // ---- Past ten bytes ----

  /** From the tenth byte on, padding that is not the end has to be zero. */
  lemma LatePadding(s: bytes)
    requires VarLen(s) > 10
    ensures var n := VarLen(s);
            (forall i | 5 <= i < n :: Padding(s, i)) <==>
            && (forall i | 5 <= i < 9 :: Padding(s, i)) && (forall i | 9 <= i < n - 1 :: s[i] == 0x80)
            && (s[n - 1] == 0 || (s[4] / 8 % 2 == 1 && s[n - 1] == 1))
  {
    var n := VarLen(s);
    assert Padding(s, n - 1) <==> s[n - 1] == 0 || (s[4] / 8 % 2 == 1 && s[n - 1] == 1);
    forall i | 9 <= i < n - 1 ensures Padding(s, i) <==> s[i] == 0x80 {
      assert s[i] >= 128;
    }
  }

  /**
   Past ten bytes only the 32-bit decoder can accept. Up to 37 bytes it does iff bytes five to eight are
   padding, the tenth and all later ones 0x80, and the last 0, or 1 after a sign; the result is the number
   spelled iff all of that padding is zeros.
   */
  lemma PastTenBytes(s: bytes)
    requires 10 < VarLen(s) <= 37
    ensures DecodeVarint(s).None?
    ensures var n := VarLen(s);
            DecodeVarint32(s).Some? <==>
            && (forall i | 5 <= i < 9 :: Padding(s, i)) && (forall i | 9 <= i < n - 1 :: s[i] == 0x80)
            && (s[n - 1] == 0 || (s[4] / 8 % 2 == 1 && s[n - 1] == 1))
    ensures DecodeVarint32(s).Some? ==> (DecodeVarint32(s).value.value == Spelled(s) <==> FitsWord(s))
  {
    Accepts64(s);
    Accepts32Bytes(s);
    LatePadding(s);
    if DecodeVarint32(s).Some? {
      ShortIsSpelledIff(s);
    }
  }

  /** k bytes of zero digits. */
  function Zeros(k: nat): (s: bytes)
    ensures |s| == k && forall i | 0 <= i < k :: s[i] == 0x80
  {
    if k == 0 then [] else [0x80] + Zeros(k - 1)
  }

  lemma ZeroByte(bitpos: nat)
    ensures Accept32(0x80, bitpos, 0) == Some(0)
  {
    ShlZero(bitpos);
  }

  lemma {:induction false} ZerosSkip(k: nat, i: nat, t: bytes)
    ensures Decode32From(Zeros(k) + t, Pos(i), 0) == Decode32From(t, Pos(i + k), 0)
  {
    if k == 0 {
      assert Zeros(0) + t == t;
    } else {
      var s := Zeros(k) + t;
      assert s[0] == 0x80 && s[1..] == Zeros(k - 1) + t;
      LoopByte(s, Pos(i), 0);
      ZeroByte(Pos(i));
      NextPos(i);
      ZerosSkip(k - 1, i + 1, t);
    }
  }

  lemma ZerosThenOne(k: nat)
    ensures VarLen(Zeros(k) + [1]) == k + 1 && (k >= 5 ==> !FitsWord(Zeros(k) + [1]))
  {
    var s := Zeros(k) + [1];
    assert s[k] == 1 && forall i | 0 <= i < k :: s[i] == 0x80;
  }

  lemma PosWraps(k: nat)
    requires k == 37
    ensures Pos(k) == 3
  {
    PosBeforeWrap(k - 1);
  }

  lemma OneAtBit3(p: nat)
    requires p == 3
    ensures Decode32From([1], p, 0) == Some(Decoded(8, []))
  {
    PushByte32(1, 1, p, 0);
    LoopByte([1], p, 0);
  }

  lemma FirstZero(t: bytes)
    ensures DecodeVarint32([0x80] + t) == Decode32From(t, Pos(1), 0)
  {
    assert ([0x80] + t)[1..] == t;
    PosBeforeWrap(1);
  }

  lemma ZerosThenOneDecodes(k: nat)
    requires k > 0 && Pos(k) == 3
    ensures DecodeVarint32(Zeros(k) + [1]) == Some(Decoded(8, []))
  {
    var t := Zeros(k - 1) + [1];
    assert Zeros(k) + [1] == [0x80] + t;
    FirstZero(t);
    ZerosSkip(k - 1, 1, [1]);
    OneAtBit3(Pos(k));
  }

  /** The bit position wraps: a one in the 38th byte, bit 259 of the number, is taken for bit 3 and accepted as 8. */
  lemma WrapsAround(k: nat)
    requires k == 37
    ensures VarLen(Zeros(k) + [1]) == k + 1 && !FitsWord(Zeros(k) + [1])
    ensures DecodeVarint32(Zeros(k) + [1]) == Some(Decoded(8, []))
  {
    ZerosThenOne(k);
    PosWraps(k);
    ZerosThenOneDecodes(k);
  }
}
