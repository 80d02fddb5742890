/**
 Zigzag on machine words: nanopb's branches (pb_encode.c, pb_decode.c) and the branch-free forms of
 the Protobuf runtime (GPBUtilities_PackagePrivate.h), in 32 and 64 bits.
 */
module ZigZags {
  import opened WireFormat
  import opened WireDecode
  import opened Words

  // ---- Words ----

  /** Bitwise exclusive or. */
  function Xor(a: nat, b: nat): nat
    decreases a + b
  {
    if a == 0 then b else if b == 0 then a
    else (if a % 2 == b % 2 then 0 else 1) + 2 * Xor(a / 2, b / 2)
  }

  lemma XorOdd(x: nat, h: nat)
    requires x > 0
    ensures Xor(x, 2 * h + 1) == 1 - x % 2 + 2 * Xor(x / 2, h)
  {
    assert (2 * h + 1) / 2 == h && (2 * h + 1) % 2 == 1;
  }

  lemma Halves(x: nat, h: int)
    ensures 1 - x % 2 + 2 * (h - x / 2) == 2 * h + 1 - x
  {
  }

  /** Exclusive or with a word of ones is the complement. */
  lemma {:induction false} XorOnes(x: nat, bits: nat)
    requires x < Shl(1, bits)
    ensures Xor(x, Shl(1, bits) - 1) == Shl(1, bits) - 1 - x
  {
    if bits > 0 && x > 0 {
      var half := Shl(1, bits - 1);
      XorOnes(x / 2, bits - 1);
      XorOdd(x, half - 1);
      Halves(x, half - 1);
    }
  }

  predicate WordSize(bits: nat) {
    bits == 32 || bits == 64
  }

  function Modulus(bits: nat): nat {
    if bits == 32 then TWO_32 else TWO_64
  }

  /** The word of so many bits that x is stored as. */
  function Word(x: int, bits: nat): (w: nat) {
    if bits == 32 then x % TWO_32 else x % TWO_64
  }

  function Signed(w: nat, bits: nat): int {
    if 2 * w >= Modulus(bits) then w - Modulus(bits) else w
  }

  predicate Fits(n: int, bits: nat) {
    0 <= 2 * n + Modulus(bits) < 2 * Modulus(bits)
  }

  lemma XorMask(x: nat, bits: nat)
    requires WordSize(bits) && x < Modulus(bits)
    ensures Xor(x, Word(-1, bits)) == Modulus(bits) - 1 - x && Xor(x, 0) == x
  {
    ShlValues();
    ShlValues64();
    XorOnes(x, bits);
  }

  // ---- The two forms ----

  /** ((uint)n << 1) ^ (uint)(n >> (bits - 1)), the right shift keeping the sign. */
  function GPBEncode(n: int, bits: nat): nat {
    Xor(Word(2 * Word(n, bits), bits), Word(if bits == 32 then n / TWO_31 else n / TWO_63, bits))
  }

  /** (n >> 1) ^ -(n & 1), read as signed. */
  function GPBDecode(u: nat, bits: nat): int {
    Signed(Xor(u / 2, Word(0 - u % 2, bits)), bits)
  }

  /** ~(value << 1) or value << 1. */
  function NanopbEncode(n: int): nat {
    var shifted := Word(2 * Word(n, 64), 64);
    if n < 0 then Modulus(64) - 1 - shifted else shifted
  }

  /** ~(value >> 1) or value >> 1, read as signed. */
  function NanopbDecode(u: nat): int
    requires u < Modulus(64)
  {
    Signed(if u % 2 == 1 then Modulus(64) - 1 - u / 2 else u / 2, 64)
  }

  /** The shifted word, and the shifted sign. */
  lemma Shifted(n: int, bits: nat)
    requires WordSize(bits) && Fits(n, bits)
    ensures Word(2 * Word(n, bits), bits) == if n < 0 then Modulus(bits) + 2 * n else 2 * n
    ensures (if bits == 32 then n / TWO_31 else n / TWO_63) == if n < 0 then -1 else 0
  {
    if n < 0 {
      WordOf(n, bits, -1);
      WordOf(2 * (n + Modulus(bits)), bits, 1);
    } else {
      WordOf(n, bits, 0);
      WordOf(2 * n, bits, 0);
    }
  }

  lemma WordOf(x: int, bits: nat, k: int)
    requires WordSize(bits) && -1 <= k <= 1 && 0 <= x - k * Modulus(bits) < Modulus(bits)
    ensures Word(x, bits) == x - k * Modulus(bits)
  {
    if bits == 32 {
      assert x % TWO_32 == x - k * TWO_32;
    }
  }

  /** Both encoders compute the zigzag numbering. */
  lemma EncodesZigZag(n: int, bits: nat)
    requires WordSize(bits) && Fits(n, bits)
    ensures GPBEncode(n, bits) == ZigZag(n) < Modulus(bits)
    ensures bits == 64 ==> NanopbEncode(n) == ZigZag(n)
  {
    Shifted(n, bits);
    XorMask(Word(2 * Word(n, bits), bits), bits);
  }

  /** Both decoders compute its inverse. */
  lemma DecodesZigZag(u: nat, bits: nat)
    requires WordSize(bits) && u < Modulus(bits)
    ensures GPBDecode(u, bits) == UnZigZag(u) && Fits(UnZigZag(u), bits)
    ensures bits == 64 ==> NanopbDecode(u) == UnZigZag(u)
  {
    XorMask(u / 2, bits);
  }

  lemma NumberingInverts(n: int, u: nat)
    ensures UnZigZag(ZigZag(n)) == n && ZigZag(UnZigZag(u)) == u
  {
  }

  /** In 32 and 64 bits the branch-free pair are inverses; in 64 bits they are nanopb's pair. */
  lemma BranchFreeDecodes(n: int, bits: nat)
    requires WordSize(bits) && Fits(n, bits)
    ensures GPBDecode(GPBEncode(n, bits), bits) == n
    ensures bits == 64 ==> GPBEncode(n, 64) == NanopbEncode(n)
  {
    EncodesZigZag(n, bits);
    DecodesZigZag(ZigZag(n), bits);
    NumberingInverts(n, 0);
  }

  lemma BranchFreeEncodes(u: nat, bits: nat)
    requires WordSize(bits) && u < Modulus(bits)
    ensures GPBEncode(GPBDecode(u, bits), bits) == u
    ensures bits == 64 ==> GPBDecode(u, 64) == NanopbDecode(u)
  {
    DecodesZigZag(u, bits);
    EncodesZigZag(UnZigZag(u), bits);
    NumberingInverts(0, u);
  }
}
