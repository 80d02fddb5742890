/**
 What goes over the wire, in the numbers of the Protocol Buffers Encoding specification written out:
 keys, wire types, varints, zigzag, fixed-width numbers, length-delimited records and packed arrays.
 */
module WireSpecification {
  import opened Slices
  import opened Words
  import opened LittleEndian
  import V = Varints
  import opened VarintAcceptance
  import opened Schema
  import opened WireFormat
  import opened WireDecode
  import opened Soundness
  import RT = RoundTrip

  /** e is a varint that spells n, followed by t. */
  predicate Spells(e: bytes, n: nat, t: bytes) {
    VarLen(e) > 0 && Spelled(e) == n && e[VarLen(e)..] == t
  }

  lemma Prefixed(n: nat, t: bytes)
    ensures Spells(V.EncodeVarint(n) + t, n, t)
  {
    EncodedLength(n, t);
    SpelledEncoded(n, t);
  }

  // ---- Keys ----

  /** The wire type of each type of field. */
  function WireNumber(k: Kind): nat {
    match k
    case Varint => 0
    case UVarint => 0
    case SVarint => 0
    case Fixed64 => 1
    case Bytes => 2
    case String => 2
    case FixedBytes => 2
    case Submessage(_) => 2
    case Fixed32 => 5
  }

  lemma KeyOnTheWire(wireType: nat, tag: nat, t: bytes)
    ensures Spells(EncodeTag(wireType, tag) + t, 8 * tag + wireType, t)
  {
    Prefixed(tag * 8 + wireType, t);
  }

  /** A single value goes out after the key 8 * tag + wire type. */
  lemma TaggedOnTheWire(f: Field, v: Val)
    requires EncTagged(f, v).Some?
    ensures EncVal(f, v).Some? && Spells(EncTagged(f, v).value, 8 * f.tag + WireNumber(f.kind), EncVal(f, v).value)
  {
    KeyOnTheWire(WireType(f.kind), f.tag, EncVal(f, v).value);
  }

  /** Arrays: nothing when empty; one length-delimited record of all elements where the type can be packed. */
  lemma ArrayOnTheWire(f: Field, count: nat, items: seq<Val>)
    requires EncArray(f, count, items).Some?
    ensures count == 0 ==> EncArray(f, count, items).value == []
    ensures 0 < count <= |items| && WireNumber(f.kind) != 2 ==>
              && EncItems(f, items, count).Some?
              && var body := EncItems(f, items, count).value;
                 var e := EncArray(f, count, items).value;
                 Spells(e, 8 * f.tag + 2, V.EncodeVarint(|body|) + body)
    ensures 0 < count <= |items| && WireNumber(f.kind) == 2 ==> EncArray(f, count, items) == EncTaggedItems(f, items, count)
  {
    if 0 < count <= |items| && WireNumber(f.kind) != 2 {
      var body := EncItems(f, items, count).value;
      KeyOnTheWire(2, f.tag, EncodeString(body));
    }
  }

  // ---- Values ----

  /** The number an integer field is spelled as: two's complement in 64 bits, itself, or zigzag. */
  function WireInt(k: Kind, n: int): int {
    match k
    case Varint => if n < 0 then n + 0x1_0000_0000_0000_0000 else n
    case SVarint => if n < 0 then -2 * n - 1 else 2 * n
    case _ => n
  }

  lemma IntOnTheWire(f: Field, v: Val)
    requires (f.kind.Varint? || f.kind.UVarint? || f.kind.SVarint?) && IntSize(f.dataSize) && SoundVal(f, v)
    ensures EncVal(f, v).Some? && WireInt(f.kind, v.n) >= 0 && Spells(EncVal(f, v).value, WireInt(f.kind, v.n), [])
  {
    var n := WireInt(f.kind, v.n);
    Prefixed(n, []);
    assert V.EncodeVarint(n) + [] == V.EncodeVarint(n);
  }

  /** Four bytes, the low one first. */
  function Low4(e: bytes): nat
    requires |e| >= 4
  {
    var b0: nat, b1: nat, b2: nat, b3: nat := e[0], e[1], e[2], e[3];
    b0 + 0x100 * b1 + 0x1_0000 * b2 + 0x100_0000 * b3
  }

  /** Fixed-width numbers: four or eight bytes, the low one first. */
  lemma FixedOnTheWire(f: Field, v: Val)
    requires (f.kind.Fixed32? || f.kind.Fixed64?) && SoundVal(f, v)
    ensures EncVal(f, v).Some?
    ensures var e := EncVal(f, v).value;
            if f.kind.Fixed32? then |e| == 4 && v.n == Low4(e)
            else |e| == 8 && v.n == Low4(e[..4]) + 0x1_0000_0000 * Low4(e[4..])
  {
    var width := if f.kind.Fixed32? then 4 else 8;
    RT.Pow256Of4();
    Pow256Of8();
    DecodeFixed(v.n, width);
    var e := FixedLE(v.n, width);
    if width == 4 {
      FourBytesLE(e);
    } else {
      EightBytesLE(e);
      FourBytesLE(e[..4]);
      FourBytesLE(e[4..]);
    }
  }

  /** The bytes of a length-delimited value. */
  function Content(f: Field, v: Val): Option<bytes> {
    match (f.kind, v)
    case (Bytes, Blob(size, data)) => if size <= |data| then Some(data[..size]) else None
    case (String, Chars(data)) => Some(data[..StrLen(data)])
    case (FixedBytes, Chars(data)) => Some(data)
    case (Submessage(fields), Sub(m)) => EncMsg(fields, m)
    case _ => None
  }

  /** Length-delimited values: their length, then exactly their bytes. */
  lemma BytesOnTheWire(f: Field, v: Val)
    requires (f.kind.Bytes? || f.kind.String? || f.kind.FixedBytes? || f.kind.Submessage?) && EncVal(f, v).Some?
    ensures Content(f, v).Some? && Spells(EncVal(f, v).value, |Content(f, v).value|, Content(f, v).value)
  {
    Prefixed(|Content(f, v).value|, Content(f, v).value);
  }

  // ---- Skipping ----

  lemma {:induction false} SkipVarintOnTheWire(s: bytes)
    ensures SkipVarint(s) == if VarLen(s) == 0 then None else Some(s[VarLen(s)..])
  {
    if s != [] && s[0] >= 128 {
      SkipVarintOnTheWire(s[1..]);
      if VarLen(s) > 0 {
        VarLenStep(s);
      }
    }
  }

  /** Wire type 0 is one varint, 1 is eight bytes, 2 a length and its bytes, 5 four bytes; the others are errors. */
  lemma SkipOnTheWire(s: bytes)
    ensures SkipField(0, s) == if VarLen(s) == 0 then None else Some(s[VarLen(s)..])
    ensures SkipField(1, s) == if |s| < 8 then None else Some(s[8..])
    ensures SkipField(5, s) == if |s| < 4 then None else Some(s[4..])
    ensures var d := V.DecodeVarint32(s);
            SkipField(2, s) == if d.None? || d.value.value > |d.value.rest| then None else Some(d.value.rest[d.value.value..])
    ensures forall w: nat | w == 3 || w == 4 || w > 5 :: SkipField(w, s) == None
  {
    SkipVarintOnTheWire(s);
  }
}
