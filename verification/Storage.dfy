/**
 What C's types alone guarantee about a struct and its descriptor: members have the size their field
 says and hold numbers of that width. Counts, has_ flags, byte sizes and text may be anything.
 */
module Storage {
  import opened Slices
  import opened LittleEndian
  import opened Schema
  import opened WireFormat
  import opened Soundness
  import opened Words

  /** A number held in the bytes of a member; a width that no integer type has is read as raw bytes. */
  predicate HeldIn(n: int, dataSize: nat, signed: bool) {
    if !IntSize(dataSize) then 0 <= n < Pow256(dataSize)
    else if signed then InSigned(n, dataSize)
    else 0 <= n < 2 * SignedHalf(dataSize)
  }

  /** Tags, sizes and counts are pb_size_t; a zero tag would end the descriptor. */
  predicate Declared(f: Field) {
    0 < f.tag <= PB_SIZE_MAX && f.dataSize <= PB_SIZE_MAX && f.arraySize <= PB_SIZE_MAX
  }

  /** The size of an encoding fits in size_t. */
  predicate SizeFits(fields: seq<Field>, m: Msg) {
    var e := EncMsg(fields, m);
    e.Some? ==> |e.value| < TWO_64
  }

  ghost predicate Stored(f: Field, v: Val)
    decreases f, 0
  {
    match f.kind
    case Varint => v.Num? && HeldIn(v.n, f.dataSize, true)
    case SVarint => v.Num? && HeldIn(v.n, f.dataSize, true)
    case UVarint => v.Num? && HeldIn(v.n, f.dataSize, false)
    case Fixed32 => f.dataSize == 4 && v.Num? && HeldIn(v.n, 4, false)
    case Fixed64 => f.dataSize == 8 && v.Num? && HeldIn(v.n, 8, false)
    case Bytes => v.Blob? && f.dataSize == BYTES_OFFSET + |v.data|
    case String => v.Chars? && |v.data| == f.dataSize
    case FixedBytes => v.Chars? && |v.data| == f.dataSize
    case Submessage(fields) => v.Sub? && StoredMsg(fields, v.m) && SizeFits(fields, v.m)
  }

  ghost predicate StoredSlot(f: Field, slot: Slot)
    decreases f, 1
  {
    match f.rule
    case Optional => slot.Opt? && Stored(f, slot.v)
    case Repeated => slot.Rep? && |slot.items| == f.arraySize && forall v | v in slot.items :: Stored(f, v)
    case _ => slot.One? && Stored(f, slot.v)
  }

  ghost predicate StoredMsg(fields: seq<Field>, m: Msg)
    decreases fields, 0
  {
    && |m.slots| == |fields|
    && (forall i | 0 <= i < |fields| :: Declared(fields[i]))
    && (forall i | 0 <= i < |fields| :: StoredSlot(fields[i], m.slots[i]))
  }

  /** The number read as an unsigned one of the member's width. */
  function Unsigned(n: int, dataSize: nat): int {
    if n < 0 then n + Pow256(dataSize) else n
  }

  predicate AllZero(s: bytes) {
    forall i | 0 <= i < |s| :: s[i] == 0
  }

  lemma {:induction false} ZeroBytes(n: nat, width: nat)
    requires n < Pow256(width)
    ensures AllZero(FixedLE(n, width)) <==> n == 0
  {
    if width > 0 {
      assert n / 256 < Pow256(width - 1);
      ZeroBytes(n / 256, width - 1);
      var t := FixedLE(n / 256, width - 1);
      assert AllZero([n % 256] + t) <==> n % 256 == 0 && AllZero(t) by {
        assert forall i | 0 <= i < |t| :: ([n % 256] + t)[i + 1] == t[i];
        assert ([n % 256] + t)[0] == n % 256;
      }
    }
  }

  lemma WidthOfHalf(dataSize: nat)
    requires IntSize(dataSize)
    ensures Pow256(dataSize) == 2 * SignedHalf(dataSize)
  {
    Pow256Of8();
    assert Pow256(4) == 0x1_0000_0000;
    assert Pow256(2) == 0x1_0000;
  }

  /** Comparing a member byte by byte with zero is comparing its number with zero. */
  lemma NumberIsZero(n: int, dataSize: nat, signed: bool)
    requires HeldIn(n, dataSize, signed)
    ensures 0 <= Unsigned(n, dataSize) < Pow256(dataSize)
    ensures AllZero(FixedLE(Unsigned(n, dataSize), dataSize)) <==> n == 0
  {
    if IntSize(dataSize) {
      WidthOfHalf(dataSize);
    }
    ZeroBytes(Unsigned(n, dataSize), dataSize);
  }
}
