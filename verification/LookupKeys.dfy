/** LookupKey (db/dbformat.h, db/dbformat.cc): a length-prefixed seek key, built in one buffer. */
module LookupKeys {
  import opened Slices
  import opened LittleEndian
  import V = Varints
  import VA = VarintAcceptance
  import opened InternalKeys
  import opened Words

  /** EncodeVarint32 of util/coding.cc, branch by branch; v | 128 stored in a byte keeps seven bits of v. */
  function EncodeVarint32(v: nat): bytes
    requires v < TWO_32
  {
    if v < 0x80 then [v]
    else if v < 0x4000 then [v % 128 + 128, v / 0x80]
    else if v < 0x20_0000 then [v % 128 + 128, v / 0x80 % 128 + 128, v / 0x4000]
    else if v < 0x1000_0000 then
      [v % 128 + 128, v / 0x80 % 128 + 128, v / 0x4000 % 128 + 128, v / 0x20_0000]
    else
      [v % 128 + 128, v / 0x80 % 128 + 128, v / 0x4000 % 128 + 128, v / 0x20_0000 % 128 + 128, v / 0x1000_0000]
  }

  /** The unrolled encoder writes the same bytes as the loop of pb_encode_varint, at most five. */
  lemma {:induction false} UnrolledVarint(v: nat)
    requires v < TWO_32
    ensures EncodeVarint32(v) == V.EncodeVarint(v) && |EncodeVarint32(v)| <= 5
  {
    var v1 := v / 128;
    var v2 := v1 / 128;
    var v3 := v2 / 128;
    var v4 := v3 / 128;
    assert v2 == v / 0x4000 && v3 == v / 0x20_0000 && v4 == v / 0x1000_0000;
    assert v4 < 128 && V.EncodeVarint(v4) == [v4];
    assert V.EncodeVarint(v3) == if v3 < 128 then [v3] else [v3 % 128 + 128] + [v4];
    assert V.EncodeVarint(v2) == if v2 < 128 then [v2] else [v2 % 128 + 128] + V.EncodeVarint(v3);
    assert V.EncodeVarint(v1) == if v1 < 128 then [v1] else [v1 % 128 + 128] + V.EncodeVarint(v2);
  }

  /** memcpy into a buffer. */
  method CopyTo(dst: array<byte>, at: nat, data: bytes)
    requires at + |data| <= dst.Length
    modifies dst
    ensures dst[..at + |data|] == old(dst[..at]) + data
  {
    for i := 0 to |data|
      invariant dst[..at + i] == old(dst[..at]) + data[..i]
    {
      dst[at + i] := data[i];
    }
  }

  /** The three parts back to back, in space_ or in an array of usize + 13 bytes. */
  method BuildKey(length: bytes, userKey: bytes, tag: bytes) returns (dst: array<byte>)
    requires |length| <= 5 && |tag| == 8
    ensures fresh(dst) && |length| + |userKey| + 8 <= dst.Length
    ensures dst[..|length| + |userKey| + 8] == length + userKey + tag
  {
    var needed := |userKey| + 13;
    dst := new byte[if needed <= 200 then 200 else needed];
    CopyTo(dst, 0, length);
    CopyTo(dst, |length|, userKey);
    CopyTo(dst, |length| + |userKey|, tag);
  }

  lemma Parts(length: bytes, userKey: bytes, tag: bytes, all: bytes)
    requires all == length + userKey + tag
    ensures all == length + (userKey + tag) && all[|length|..] == userKey + tag
    ensures all[|length|..|all| - |tag|] == userKey
    ensures [] + userKey + tag == userKey + tag
  {
  }

  class LookupKey {
    const space: array<byte>
    const kstart: nat
    const end: nat

    ghost predicate Ok() {
      kstart + 8 <= end <= space.Length
    }

    function MemtableKey(): bytes
      requires Ok()
      reads space
    {
      space[..end]
    }

    function InternalKey(): bytes
      requires Ok()
      reads space
    {
      space[kstart..end]
    }

    function UserKey(): bytes
      requires Ok()
      reads space
    {
      space[kstart..end - 8]
    }

    /**
     usize + 13 bytes always suffice, the fixed array is used when that fits in 200, and the accessors
     give the seek key, its user key, and the seek key after its length in 32 bits.
     */
    constructor (userKey: bytes, snapshot: nat)
      requires snapshot <= MAX_SEQUENCE
      ensures Ok() && fresh(space)
      ensures InternalKey() == SeekKey(userKey, snapshot) && UserKey() == userKey
      ensures MemtableKey() == V.EncodeVarint((|userKey| + 8) % TWO_32) + SeekKey(userKey, snapshot)
    {
      UnrolledVarint((|userKey| + 8) % TWO_32);
      var length := EncodeVarint32((|userKey| + 8) % TWO_32);
      var tag := FixedLE(PackSequenceAndType(snapshot, Value), 8);
      var dst := BuildKey(length, userKey, tag);
      space, kstart, end := dst, |length|, |length| + |userKey| + 8;
      ghost var all := dst[..|length| + |userKey| + 8];
      assert dst[|length|..|length| + |userKey| + 8] == all[|length|..];
      assert dst[|length|..|length| + |userKey|] == all[|length|..|all| - 8];
      Parts(length, userKey, tag, all);
    }
  }

  // ---- Reading the prefix back ----

  /** The loop of GetVarint32PtrFallback: at most five bytes. */
  function GetFrom(s: bytes, shift: nat, result: nat): Option<V.Decoded> {
    if shift > 28 || s == [] then None
    else
      var r := V.Push32(result, s[0], shift);
      if s[0] >= 128 then GetFrom(s[1..], shift + 7, r) else Some(V.Decoded(r, s[1..]))
  }

  /** GetVarint32Ptr on the bytes up to its limit, with its one-byte fast path. */
  function GetVarint32(s: bytes): Option<V.Decoded> {
    if s != [] && s[0] < 128 then Some(V.Decoded(s[0], s[1..])) else GetFrom(s, 0, 0)
  }

  method GetVarint32Ptr(s: bytes) returns (ok: bool, value: nat, rest: bytes)
    ensures ok <==> GetVarint32(s).Some?
    ensures ok ==> GetVarint32(s).value == V.Decoded(value, rest)
  {
    if s != [] && s[0] < 128 {
      return true, s[0], s[1..];
    }
    var shift: nat, p, result: nat := 0, 0, 0;
    while shift <= 28 && p < |s|
      invariant p <= |s| && GetFrom(s[p..], shift, result) == GetVarint32(s)
      decreases |s| - p
    {
      var b := s[p];
      assert s[p..][1..] == s[p + 1..];
      p := p + 1;
      result := V.Push32(result, b, shift);
      if b < 128 {
        return true, result, s[p..];
      }
      shift := shift + 7;
    }
    return false, 0, [];
  }

  /** Within five bytes the loop agrees with nanopb's, wherever that one accepts. */
  lemma {:induction false} GetAgrees(t: bytes, p: nat, r: nat)
    requires p <= 28 && V.Decode32From(t, p, r).Some? && p + 7 * VA.VarLen(t) <= 35
    ensures GetFrom(t, p, r) == V.Decode32From(t, p, r)
    decreases |t|
  {
    if t != [] {
      VA.Accept32Ends(t, p, r);
      VA.LoopByte(t, p, r);
      assert V.Accept32(t[0], p, r) == Some(V.Push32(r, t[0], p)) && (p + 7) % 256 == p + 7;
      if t[0] >= 128 {
        VA.VarLenStep(t);
        GetAgrees(t[1..], p + 7, V.Push32(r, t[0], p));
      }
    }
  }

  lemma {:induction false} GetFromIff(s: bytes, shift: nat, r: nat)
    ensures GetFrom(s, shift, r).Some? <==> VA.VarLen(s) > 0 && shift + 7 * (VA.VarLen(s) - 1) <= 28
    decreases |s|
  {
    if s != [] && shift <= 28 && s[0] >= 128 {
      GetFromIff(s[1..], shift + 7, V.Push32(r, s[0], shift));
    }
  }

  /** LevelDB's reader accepts exactly the varints of at most five bytes. */
  lemma GetVarint32Iff(s: bytes)
    ensures GetVarint32(s).Some? <==> 1 <= VA.VarLen(s) <= 5
  {
    GetFromIff(s, 0, 0);
  }

  lemma FirstByte(t: bytes)
    requires t != [] && t[0] >= 128
    ensures GetVarint32(t) == GetFrom(t[1..], 7, t[0] % 128)
  {
    assert Shl(t[0] % 128, 0) == t[0] % 128;
  }

  /** LevelDB's own reader undoes its writer, on any continuation. */
  lemma Varint32RoundTrip(v: nat, t: bytes)
    requires v < TWO_32
    ensures GetVarint32(EncodeVarint32(v) + t) == Some(V.Decoded(v, t))
  {
    UnrolledVarint(v);
    VA.Varint32RoundTrip(v, t);
    var s := V.EncodeVarint(v) + t;
    if s[0] >= 128 {
      VA.EncodedLength(v, t);
      VA.VarLenStep(s);
      FirstByte(s);
      GetAgrees(s[1..], 7, s[0] % 128);
    }
  }

  /** GetLengthPrefixedSlice of memtable.cc, which looks for the length in five bytes; None is a read past the data. */
  function GetLengthPrefixedSlice(data: bytes): Option<bytes> {
    var d := GetVarint32(if |data| < 5 then data else data[..5]);
    if d.None? then None
    else
      var p := (if |data| < 5 then |data| else 5) - |d.value.rest|;
      if p < 0 || p + d.value.value > |data| then None else Some(data[p..p + d.value.value])
  }

  lemma Cut(e: bytes, key: bytes, n: nat)
    requires |e| <= n <= |e| + |key|
    ensures (e + key)[..n] == e + key[..n - |e|]
  {
  }

  /** The first five bytes hold the whole length. */
  lemma LengthRead(v: nat, key: bytes, n: nat)
    requires v < TWO_32 && |V.EncodeVarint(v)| <= n <= |V.EncodeVarint(v)| + |key|
    ensures GetVarint32((V.EncodeVarint(v) + key)[..n]) == Some(V.Decoded(v, key[..n - |V.EncodeVarint(v)|]))
  {
    UnrolledVarint(v);
    Cut(V.EncodeVarint(v), key, n);
    Varint32RoundTrip(v, key[..n - |V.EncodeVarint(v)|]);
  }

  lemma SliceAfterPrefix(v: nat, key: bytes)
    requires v < TWO_32 && v <= |key|
    ensures GetLengthPrefixedSlice(V.EncodeVarint(v) + key) == Some(key[..v])
  {
    var e := V.EncodeVarint(v);
    var data := e + key;
    VA.FiveBytes(v);
    LengthRead(v, key, if |data| < 5 then |data| else 5);
    assert data[..|data|] == data;
    assert data[|e|..|e| + v] == key[..v];
  }

  lemma PrefixedSlice(key: bytes, v: nat)
    requires v == |key| % TWO_32
    ensures GetLengthPrefixedSlice(V.EncodeVarint(v) + key) == Some(key) <==> |key| < TWO_32
  {
    assert v <= |key|;
    SliceAfterPrefix(v, key);
    assert key[..v] == key <==> v == |key|;
  }

  /** A memtable reads the length prefix and finds the whole internal key after it, iff its size fits in 32 bits. */
  lemma PrefixDelimits(userKey: bytes, snapshot: nat)
    requires snapshot <= MAX_SEQUENCE
    ensures var key := SeekKey(userKey, snapshot);
            GetLengthPrefixedSlice(V.EncodeVarint((|userKey| + 8) % TWO_32) + key) == Some(key)
            <==> |userKey| + 8 < TWO_32
  {
    var key := SeekKey(userKey, snapshot);
    assert |key| == |userKey| + 8;
    PrefixedSlice(key, (|userKey| + 8) % TWO_32);
  }
}
