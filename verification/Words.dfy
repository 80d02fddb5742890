/** Machine words as numbers: shifts, or, and single bits. */
module Words {
  const TWO_31: nat := 0x8000_0000
  const TWO_32: nat := 0x1_0000_0000
  const TWO_63: nat := 0x8000_0000_0000_0000
  const TWO_64: nat := 0x1_0000_0000_0000_0000

  // ---- Shifts and or ----

  /** x << k, without truncation. */
  function Shl(x: nat, k: nat): (y: nat)
    ensures x > 0 ==> y > 0
  {
    if k == 0 then x else 2 * Shl(x, k - 1)
  }

  /** Bitwise or. */
  function Or(a: nat, b: nat): nat
    decreases a + b
  {
    if a == 0 then b else if b == 0 then a
    else (if a % 2 == 1 || b % 2 == 1 then 1 else 0) + 2 * Or(a / 2, b / 2)
  }

  lemma {:induction false} ShlAdd(a: nat, b: nat, k: nat)
    ensures Shl(a + b, k) == Shl(a, k) + Shl(b, k)
  {
    if k > 0 {
      ShlAdd(a, b, k - 1);
    }
  }

  lemma {:induction false} ShlShl(a: nat, j: nat, k: nat)
    ensures Shl(Shl(a, j), k) == Shl(a, j + k)
  {
    if k > 0 {
      ShlShl(a, j, k - 1);
    }
  }

  lemma {:induction false} ShlMonotone(a: nat, b: nat, k: nat)
    requires a <= b
    ensures Shl(a, k) <= Shl(b, k)
    ensures a < b ==> Shl(a, k) < Shl(b, k)
  {
    if k > 0 {
      ShlMonotone(a, b, k - 1);
    }
  }

  lemma {:induction false} ShlGrows(a: nat, j: nat, k: nat)
    requires j <= k
    ensures Shl(a, j) <= Shl(a, k)
  {
    if j < k {
      ShlGrows(a, j, k - 1);
    }
  }

  lemma ShlTwice(a: nat, k: nat)
    ensures Shl(a, k + 2) == 4 * Shl(a, k)
  {
    assert Shl(a, k + 1) == 2 * Shl(a, k);
  }

  lemma Shl7(a: nat)
    ensures Shl(a, 7) == 128 * a
  {
    ShlTwice(a, 0);
    ShlTwice(a, 2);
    ShlTwice(a, 4);
  }

  /** Or of words with no common bits is their sum. */
  lemma {:induction false} OrDisjoint(a: nat, c: nat, k: nat)
    requires a < Shl(1, k)
    ensures Or(a, Shl(c, k)) == a + Shl(c, k)
  {
    if k > 0 {
      OrDisjoint(a / 2, c, k - 1);
      OrStep(a, Shl(c, k - 1));
    }
  }

  lemma OrStep(a: nat, h: nat)
    ensures Or(a, 2 * h) == a % 2 + 2 * Or(a / 2, h)
  {
    assert 2 * h % 2 == 0 && 2 * h / 2 == h;
  }

  /** A number shifted left is its low seven bits shifted, plus the rest shifted seven further. */
  lemma SplitShift(v: nat, k: nat)
    ensures Shl(v, k) == Shl(v % 128, k) + Shl(v / 128, k + 7)
  {
    var q, m := v / 128, v % 128;
    ShlAdd(m, 128 * q, k);
    Shl7(q);
    ShlShl(q, 7, k);
  }

  lemma Plus7(k: nat)
    ensures Shl(1, k + 7) == 128 * Shl(1, k)
  {
    ShlShl(1, k, 7);
    Shl7(Shl(1, k));
  }

  lemma ShlValues()
    ensures Shl(1, 28) == 0x1000_0000 && Shl(1, 32) == TWO_32
  {
    Plus7(0);
    Plus7(7);
    Plus7(14);
    Plus7(21);
    ShlTwice(1, 28);
    ShlTwice(1, 30);
  }

  lemma ShlValues64()
    ensures Shl(1, 64) == TWO_64 && Shl(1, 70) == 64 * TWO_64
  {
    ShlValues();
    Plus7(32);
    Plus7(39);
    Plus7(46);
    Plus7(53);
    ShlTwice(1, 60);
    ShlTwice(1, 62);
    ShlTwice(1, 64);
    ShlTwice(1, 66);
    ShlTwice(1, 68);
  }

  lemma Shl28(a: nat)
    ensures Shl(a, 28) == 0x1000_0000 * a
  {
    Shl7(a);
    ShlShl(a, 7, 7);
    Shl7(128 * a);
    ShlShl(a, 14, 7);
    Shl7(0x4000 * a);
    ShlShl(a, 21, 7);
    Shl7(0x20_0000 * a);
  }

  // ---- Single bits ----

  /** Bit k of w, the lowest being bit 0. */
  predicate Bit(w: nat, k: nat) {
    if k == 0 then w % 2 == 1 else Bit(w / 2, k - 1)
  }

  /** x >> k. */
  function Shr(x: nat, k: nat): nat {
    if k == 0 then x else Shr(x / 2, k - 1)
  }

  lemma {:induction false} NoBits(k: nat)
    ensures !Bit(0, k)
  {
    if k > 0 {
      NoBits(k - 1);
    }
  }

  lemma OrHalves(a: nat, b: nat)
    ensures Or(a, b) / 2 == Or(a / 2, b / 2)
    ensures Or(a, b) % 2 == 1 <==> a % 2 == 1 || b % 2 == 1
  {
  }

  lemma {:induction false} OrBit(a: nat, b: nat, k: nat)
    ensures Bit(Or(a, b), k) <==> Bit(a, k) || Bit(b, k)
  {
    OrHalves(a, b);
    if k > 0 {
      OrBit(a / 2, b / 2, k - 1);
    }
  }

  lemma {:induction false} OrZero(a: nat, b: nat)
    ensures Or(a, b) == 0 <==> a == 0 && b == 0
    decreases a + b
  {
    if a > 0 && b > 0 {
      OrZero(a / 2, b / 2);
    }
  }

  /** An or needs as many bits as its operands. */
  lemma {:induction false} OrBelow(a: nat, b: nat, n: nat)
    ensures Or(a, b) < Shl(1, n) <==> a < Shl(1, n) && b < Shl(1, n)
  {
    if n == 0 {
      OrZero(a, b);
    } else {
      OrHalves(a, b);
      OrBelow(a / 2, b / 2, n - 1);
    }
  }

  lemma {:induction false} ShrBit(x: nat, j: nat, k: nat)
    ensures Bit(Shr(x, j), k) <==> Bit(x, j + k)
  {
    if j > 0 {
      ShrBit(x / 2, j - 1, k);
    }
  }

  /** 1 << j has bit j and no other. */
  lemma {:induction false} ShlBit(j: nat, k: nat)
    ensures Bit(Shl(1, j), k) <==> j == k
  {
    if k > 0 {
      if j > 0 {
        ShlBit(j - 1, k - 1);
      } else {
        NoBits(k - 1);
      }
    }
  }

  /** (1 << n) - 1 has exactly the low n bits. */
  lemma {:induction false} OnesBit(n: nat, k: nat)
    ensures Bit(Shl(1, n) - 1, k) <==> k < n
  {
    if n == 0 {
      NoBits(k);
    } else {
      var half := Shl(1, n - 1);
      assert (2 * half - 1) / 2 == half - 1 && (2 * half - 1) % 2 == 1;
      if k > 0 {
        OnesBit(n - 1, k - 1);
      }
    }
  }

  lemma {:induction false} ShrBelow(x: nat, j: nat, n: nat)
    requires x < Shl(1, n)
    ensures Shr(x, j) < Shl(1, n)
  {
    if j > 0 {
      ShrBelow(x / 2, j - 1, n);
    }
  }

  /** Words of n bits are equal when their bits are. */
  lemma {:induction false} SameBits(a: nat, b: nat, n: nat)
    requires a < Shl(1, n) && b < Shl(1, n)
    requires forall k: nat | k < n :: Bit(a, k) <==> Bit(b, k)
    ensures a == b
  {
    if n > 0 {
      assert Bit(a, 0) <==> Bit(b, 0);
      forall k: nat | k < n - 1 ensures Bit(a / 2, k) <==> Bit(b / 2, k) {
        assert Bit(a, k + 1) <==> Bit(b, k + 1);
      }
      SameBits(a / 2, b / 2, n - 1);
    }
  }
}
