/** Fixed-width little-endian numbers (leveldb util/coding, nanopb fixed32/fixed64). */
module LittleEndian {
  import opened Slices
  import opened Words

  /** Little-endian digits of n, width bytes long; higher bits are dropped. */
  function FixedLE(n: nat, width: nat): (s: bytes)
    ensures |s| == width
  {
    if width == 0 then [] else [n % 256] + FixedLE(n / 256, width - 1)
  }

  function DecodeLE(s: bytes): nat
  {
    if s == [] then 0 else s[0] + 256 * DecodeLE(s[1..])
  }

  function Pow256(k: nat): (p: nat)
    ensures p > 0
  {
    if k == 0 then 1 else 256 * Pow256(k - 1)
  }

  lemma {:induction false} DecodeFixed(n: nat, width: nat)
    requires n < Pow256(width)
    ensures DecodeLE(FixedLE(n, width)) == n
  {
    if width > 0 {
      assert n / 256 < Pow256(width - 1);
      DecodeFixed(n / 256, width - 1);
      assert FixedLE(n, width)[1..] == FixedLE(n / 256, width - 1);
    }
  }

  lemma SplitLowByte(b: byte, d: nat)
    ensures (b + 256 * d) % 256 == b && (b + 256 * d) / 256 == d
  {
  }

  lemma {:induction false} FixedDecode(s: bytes)
    ensures DecodeLE(s) < Pow256(|s|) && FixedLE(DecodeLE(s), |s|) == s
  {
    if s != [] {
      FixedDecode(s[1..]);
      SplitLowByte(s[0], DecodeLE(s[1..]));
      assert s == [s[0]] + s[1..];
    }
  }

  lemma Pow256Of8()
    ensures Pow256(8) == TWO_64
  {
    assert Pow256(4) == 0x1_0000_0000;
  }

  /** Four bytes shifted into place; they have no bits in common. */
  function LittleEndianWord(b0: nat, b1: nat, b2: nat, b3: nat): nat {
    b0 + 0x100 * b1 + 0x1_0000 * b2 + 0x100_0000 * b3
  }

  lemma {:induction false} FourBytesLE(b: bytes)
    requires |b| == 4
    ensures DecodeLE(b) == LittleEndianWord(b[0], b[1], b[2], b[3])
  {
    var b1 := b[1..];
    var b2 := b1[1..];
    var b3 := b2[1..];
    assert b3[1..] == [] && DecodeLE(b3) == b[3];
    assert DecodeLE(b2) == b[2] + 256 * DecodeLE(b3);
    assert DecodeLE(b1) == b[1] + 256 * DecodeLE(b2);
  }

  lemma {:induction false} EightBytesLE(b: bytes)
    requires |b| == 8
    ensures DecodeLE(b) == DecodeLE(b[..4]) + 0x1_0000_0000 * DecodeLE(b[4..])
  {
    var b1 := b[1..];
    var b2 := b1[1..];
    var b3 := b2[1..];
    assert b3[1..] == b[4..] && DecodeLE(b3) == b[3] + 256 * DecodeLE(b[4..]);
    assert DecodeLE(b2) == b[2] + 256 * DecodeLE(b3);
    assert DecodeLE(b1) == b[1] + 256 * DecodeLE(b2);
    FourBytesLE(b[..4]);
  }
}
