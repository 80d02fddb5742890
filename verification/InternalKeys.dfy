/**
 The internal key format (db/dbformat.h, db/dbformat.cc): a user key followed by
 eight little-endian bytes holding (sequence << 8) | type.
 */
module InternalKeys {
  import opened Slices
  import opened Comparators
  import opened LittleEndian
  import opened Words

  const MAX_SEQUENCE: nat := 0xFF_FFFF_FFFF_FFFF

  datatype ValueType = Deletion | Value

  datatype ParsedKey = ParsedKey(userKey: bytes, sequence: nat, kind: ValueType)

  function TypeCode(t: ValueType): (c: byte)
  {
    match t case Deletion => 0 case Value => 1
  }

  function PackSequenceAndType(seq_: nat, t: ValueType): (n: nat)
    requires seq_ <= MAX_SEQUENCE
    ensures n < TWO_64 && n / 256 == seq_ && n % 256 == TypeCode(t)
  {
    seq_ * 256 + TypeCode(t)
  }

  /** AppendInternalKey: the bytes appended to result. */
  function AppendInternalKey(result: bytes, key: ParsedKey): bytes
    requires key.sequence <= MAX_SEQUENCE
  {
    result + key.userKey + FixedLE(PackSequenceAndType(key.sequence, key.kind), 8)
  }

  predicate IsInternalKey(k: bytes) {
    |k| >= 8
  }

  function ExtractUserKey(k: bytes): bytes
    requires IsInternalKey(k)
  {
    k[..|k| - 8]
  }

  /** The packed (sequence, type) number at the end of an internal key. */
  function Tag(k: bytes): nat
    requires IsInternalKey(k)
  {
    DecodeLE(k[|k| - 8..])
  }

  /** ParseInternalKey: fails on short keys and on unknown type bytes. */
  function ParseInternalKey(k: bytes): Option<ParsedKey> {
    if |k| < 8 then None
    else
      var num := Tag(k);
      var c := num % 256;
      if c == 0 then Some(ParsedKey(ExtractUserKey(k), num / 256, Deletion))
      else if c == 1 then Some(ParsedKey(ExtractUserKey(k), num / 256, Value))
      else None
  }

  lemma TagBound(k: bytes)
    requires IsInternalKey(k)
    ensures Tag(k) < TWO_64
  {
    FixedDecode(k[|k| - 8..]);
    Pow256Of8();
  }

  lemma AppendParts(key: ParsedKey)
    requires key.sequence <= MAX_SEQUENCE
    ensures var k := AppendInternalKey([], key);
            && IsInternalKey(k) && ExtractUserKey(k) == key.userKey
            && Tag(k) == PackSequenceAndType(key.sequence, key.kind)
  {
    var k := AppendInternalKey([], key);
    var n := PackSequenceAndType(key.sequence, key.kind);
    Pow256Of8();
    DecodeFixed(n, 8);
    assert k[|k| - 8..] == FixedLE(n, 8);
    assert k[..|k| - 8] == key.userKey;
  }

  /** Parsing undoes appending, for every key with a sequence number in range. */
  lemma ParseUndoesAppend(key: ParsedKey)
    requires key.sequence <= MAX_SEQUENCE
    ensures ParseInternalKey(AppendInternalKey([], key)) == Some(key)
  {
    AppendParts(key);
    var n := PackSequenceAndType(key.sequence, key.kind);
    assert n % 256 == TypeCode(key.kind) && n / 256 == key.sequence;
  }

  /** The packed number of a parsable key is the one its fields pack to. */
  lemma ParsedTag(k: bytes)
    requires ParseInternalKey(k).Some?
    ensures var p := ParseInternalKey(k).value;
            && p.sequence <= MAX_SEQUENCE && p.userKey == ExtractUserKey(k)
            && PackSequenceAndType(p.sequence, p.kind) == Tag(k)
  {
    TagBound(k);
  }

  /** Appending undoes parsing: the encoding has no other spelling. */
  lemma AppendUndoesParse(k: bytes)
    requires ParseInternalKey(k).Some?
    ensures ParseInternalKey(k).value.sequence <= MAX_SEQUENCE
    ensures AppendInternalKey([], ParseInternalKey(k).value) == k
  {
    var p := ParseInternalKey(k).value;
    ParsedTag(k);
    var tail := k[|k| - 8..];
    assert FixedLE(PackSequenceAndType(p.sequence, p.kind), 8) == tail by {
      FixedDecode(tail);
    }
    assert [] + p.userKey + tail == k;
  }

  /** InternalKeyComparator::Compare on encoded bytes. */
  function Compare(cmp: (bytes, bytes) -> int, a: bytes, b: bytes): int
    requires IsInternalKey(a) && IsInternalKey(b)
  {
    var r := cmp(ExtractUserKey(a), ExtractUserKey(b));
    if r != 0 then r
    else if Tag(a) > Tag(b) then -1
    else if Tag(a) < Tag(b) then 1
    else 0
  }

  lemma TagDeterminesKey(a: bytes, b: bytes)
    requires IsInternalKey(a) && IsInternalKey(b)
    requires ExtractUserKey(a) == ExtractUserKey(b) && Tag(a) == Tag(b)
    ensures a == b
  {
    var x, y := a[|a| - 8..], b[|b| - 8..];
    FixedDecode(x);
    FixedDecode(y);
    assert a == ExtractUserKey(a) + x && b == ExtractUserKey(b) + y;
  }

  /** Equal under Compare means equal bytes, Compare is antisymmetric and transitive. */
  lemma CompareIsTotalOrder(cmp: (bytes, bytes) -> int, a: bytes, b: bytes, c: bytes)
    requires TotalOrder(cmp) && IsInternalKey(a) && IsInternalKey(b) && IsInternalKey(c)
    ensures Compare(cmp, a, b) == 0 <==> a == b
    ensures Compare(cmp, a, b) < 0 <==> Compare(cmp, b, a) > 0
    ensures Compare(cmp, a, b) < 0 && Compare(cmp, b, c) < 0 ==> Compare(cmp, a, c) < 0
  {
    if ExtractUserKey(a) == ExtractUserKey(b) && Tag(a) == Tag(b) {
      TagDeterminesKey(a, b);
    }
  }

  /** The order the comparator is documented to have, on parsed keys. */
  predicate ParsedBefore(cmp: (bytes, bytes) -> int, p: ParsedKey, q: ParsedKey) {
    || cmp(p.userKey, q.userKey) < 0
    || (p.userKey == q.userKey &&
        (p.sequence > q.sequence || (p.sequence == q.sequence && TypeCode(p.kind) > TypeCode(q.kind))))
  }

  /** Comparing encoded bytes is (user key up, sequence down, type down). */
  lemma CompareOrdersParsedKeys(cmp: (bytes, bytes) -> int, p: ParsedKey, q: ParsedKey)
    requires TotalOrder(cmp) && p.sequence <= MAX_SEQUENCE && q.sequence <= MAX_SEQUENCE
    ensures Compare(cmp, AppendInternalKey([], p), AppendInternalKey([], q)) < 0 <==> ParsedBefore(cmp, p, q)
  {
    AppendParts(p);
    AppendParts(q);
  }

  /** The key DBIter::Seek and LookupKey build for (userKey, snapshot). */
  function SeekKey(userKey: bytes, snapshot: nat): bytes
    requires snapshot <= MAX_SEQUENCE
  {
    AppendInternalKey([], ParsedKey(userKey, snapshot, Value))
  }

  /**
   The seek key separates: a parsable entry sorts strictly before it iff its user key is
   smaller, or it is an entry of the same user key written after the snapshot.
   */
  lemma SeekKeySeparates(cmp: (bytes, bytes) -> int, userKey: bytes, snapshot: nat, e: bytes)
    requires TotalOrder(cmp) && snapshot <= MAX_SEQUENCE && ParseInternalKey(e).Some?
    ensures Compare(cmp, e, SeekKey(userKey, snapshot)) < 0 <==>
            var p := ParseInternalKey(e).value;
            cmp(p.userKey, userKey) < 0 || (p.userKey == userKey && p.sequence > snapshot)
  {
    AppendUndoesParse(e);
    CompareOrdersParsedKeys(cmp, ParseInternalKey(e).value, ParsedKey(userKey, snapshot, Value));
  }

  /** PackSequenceAndType(kMaxSequenceNumber, kValueTypeForSeek), the earliest tag for a user key. */
  function EarliestTag(): bytes {
    FixedLE(PackSequenceAndType(MAX_SEQUENCE, Value), 8)
  }

  /** InternalKeyComparator::FindShortestSeparator. */
  function ShortestSeparator(c: Comparator, start: bytes, limit: bytes): bytes
    requires IsInternalKey(start) && IsInternalKey(limit)
  {
    var userStart := ExtractUserKey(start);
    var tmp := c.separator(userStart, ExtractUserKey(limit));
    if |tmp| < |userStart| && c.compare(userStart, tmp) < 0 then tmp + EarliestTag() else start
  }

  /** InternalKeyComparator::FindShortSuccessor. */
  function ShortSuccessor(c: Comparator, key: bytes): bytes
    requires IsInternalKey(key)
  {
    var userKey := ExtractUserKey(key);
    var tmp := c.successor(userKey);
    if |tmp| < |userKey| && c.compare(userKey, tmp) < 0 then tmp + EarliestTag() else key
  }

  /** start <= r < limit in the internal order. */
  predicate InRange(c: Comparator, r: bytes, start: bytes, limit: bytes)
    requires IsInternalKey(r) && IsInternalKey(start) && IsInternalKey(limit)
  {
    Compare(c.compare, start, r) <= 0 && Compare(c.compare, r, limit) < 0
  }

  /** The caller-checkable case that comparator.h leaves open: both bounds share a user key. */
  predicate ShortensEqualUserKeys(c: Comparator, start: bytes, limit: bytes)
    requires IsInternalKey(start) && IsInternalKey(limit)
  {
    var u := ExtractUserKey(start);
    u == ExtractUserKey(limit) && |c.separator(u, u)| < |u| && c.compare(u, c.separator(u, u)) < 0
  }

  lemma EarliestTagParts(tmp: bytes)
    ensures IsInternalKey(tmp + EarliestTag()) && ExtractUserKey(tmp + EarliestTag()) == tmp
    ensures Tag(tmp + EarliestTag()) == PackSequenceAndType(MAX_SEQUENCE, Value)
  {
    AppendParts(ParsedKey(tmp, MAX_SEQUENCE, Value));
    assert AppendInternalKey([], ParsedKey(tmp, MAX_SEQUENCE, Value)) == tmp + EarliestTag();
  }

  /**
   A shortened separator stays in [start, limit) for every lawful comparator, except exactly
   when the two keys share a user key that the comparator would still shorten and enlarge.
   */
  lemma SeparatorStaysInRange(c: Comparator, start: bytes, limit: bytes)
    requires Lawful(c) && IsInternalKey(start) && IsInternalKey(limit)
    requires Compare(c.compare, start, limit) < 0
    ensures IsInternalKey(ShortestSeparator(c, start, limit))
    ensures InRange(c, ShortestSeparator(c, start, limit), start, limit)
            <==> !ShortensEqualUserKeys(c, start, limit)
  {
    var us, ul := ExtractUserKey(start), ExtractUserKey(limit);
    var tmp := c.separator(us, ul);
    EarliestTagParts(tmp);
    CompareIsTotalOrder(c.compare, start, start, start);
    assert us == ul || c.compare(us, ul) < 0;
    if us == ul && ShortensEqualUserKeys(c, start, limit) {
      assert c.compare(tmp, ul) > 0;
    }
  }

  /** With the built-in comparator the exception never arises. */
  lemma BytewiseSeparatorStaysInRange(start: bytes, limit: bytes)
    requires IsInternalKey(start) && IsInternalKey(limit)
    requires Compare(BytewiseCompare, start, limit) < 0
    ensures IsInternalKey(ShortestSeparator(Bytewise(), start, limit))
    ensures InRange(Bytewise(), ShortestSeparator(Bytewise(), start, limit), start, limit)
  {
    BytewiseIsLawful();
    var u := ExtractUserKey(start);
    if u == ExtractUserKey(limit) {
      var d := CommonPrefix(u, u);
      assert BytewiseSeparator(u, u) == u;
    }
    SeparatorStaysInRange(Bytewise(), start, limit);
  }

  /** A comparator that is lawful and yet drives the separator past the limit. */
  function Overreaching(): Comparator {
    Comparator(BytewiseCompare,
               (s, l) => if s == l == [0, 0] then [1] else s,
               k => k)
  }

  lemma OverreachingEscapes()
    ensures Lawful(Overreaching())
    ensures var start := AppendInternalKey([], ParsedKey([0, 0], 2, Value));
            var limit := AppendInternalKey([], ParsedKey([0, 0], 1, Value));
            && Compare(BytewiseCompare, start, limit) < 0
            && IsInternalKey(ShortestSeparator(Overreaching(), start, limit))
            && !InRange(Overreaching(), ShortestSeparator(Overreaching(), start, limit), start, limit)
  {
    BytewiseIsLawful();
    var c := Overreaching();
    assert TotalOrder(Bytewise().compare);
    forall s, l | BytewiseCompare(s, l) < 0
      ensures c.separator(s, l) == s && BytewiseCompare(s, s) == 0
    {
      BytewiseZero(s, l);
      BytewiseZero(s, s);
    }
    forall k ensures BytewiseCompare(k, k) == 0 { BytewiseZero(k, k); }
    var p, q := ParsedKey([0, 0], 2, Value), ParsedKey([0, 0], 1, Value);
    AppendParts(p);
    AppendParts(q);
    CompareOrdersParsedKeys(BytewiseCompare, p, q);
    var start, limit := AppendInternalKey([], p), AppendInternalKey([], q);
    CompareAtDifference([0, 0], [1], 0);
    assert ShortensEqualUserKeys(c, start, limit);
    SeparatorStaysInRange(c, start, limit);
  }

  /** A shortened successor is never below the key it replaces. */
  lemma SuccessorStaysAbove(c: Comparator, key: bytes)
    requires Lawful(c) && IsInternalKey(key)
    ensures IsInternalKey(ShortSuccessor(c, key))
    ensures Compare(c.compare, key, ShortSuccessor(c, key)) <= 0
  {
    EarliestTagParts(c.successor(ExtractUserKey(key)));
    CompareIsTotalOrder(c.compare, key, key, key);
  }

  /** The tag tacked on to a shortened key comes before every entry of that user key. */
  lemma EarliestIsFirst(cmp: (bytes, bytes) -> int, user: bytes, e: bytes)
    requires TotalOrder(cmp) && ParseInternalKey(e).Some? && ExtractUserKey(e) == user
    ensures IsInternalKey(user + EarliestTag()) && Compare(cmp, user + EarliestTag(), e) <= 0
  {
    EarliestTagParts(user);
    ParsedTag(e);
    var p := ParseInternalKey(e).value;
    assert PackSequenceAndType(p.sequence, p.kind) <= PackSequenceAndType(MAX_SEQUENCE, Value);
  }

  /**
   The internal separator takes the user comparator's wherever that is shorter and larger, in front of
   all entries of the new user key; otherwise start stays as it is.
   */
  lemma SeparatorShortensIff(c: Comparator, start: bytes, limit: bytes)
    requires TotalOrder(c.compare) && IsInternalKey(start) && IsInternalKey(limit)
    ensures var user := ExtractUserKey(start);
            var shorter := c.separator(user, ExtractUserKey(limit));
            var r := ShortestSeparator(c, start, limit);
            && IsInternalKey(r)
            && if |shorter| < |user| && c.compare(user, shorter) < 0 then
                 && ExtractUserKey(r) == shorter && |r| < |start|
                 && forall e | ParseInternalKey(e).Some? && ExtractUserKey(e) == shorter :: Compare(c.compare, r, e) <= 0
               else r == start
  {
    var shorter := c.separator(ExtractUserKey(start), ExtractUserKey(limit));
    EarliestTagParts(shorter);
    forall e | ParseInternalKey(e).Some? && ExtractUserKey(e) == shorter
      ensures Compare(c.compare, shorter + EarliestTag(), e) <= 0
    {
      EarliestIsFirst(c.compare, shorter, e);
    }
  }

  /** The same of the internal successor. */
  lemma SuccessorShortensIff(c: Comparator, key: bytes)
    requires TotalOrder(c.compare) && IsInternalKey(key)
    ensures var user := ExtractUserKey(key);
            var shorter := c.successor(user);
            var r := ShortSuccessor(c, key);
            && IsInternalKey(r)
            && if |shorter| < |user| && c.compare(user, shorter) < 0 then
                 && ExtractUserKey(r) == shorter && |r| < |key|
                 && forall e | ParseInternalKey(e).Some? && ExtractUserKey(e) == shorter :: Compare(c.compare, r, e) <= 0
               else r == key
  {
    var shorter := c.successor(ExtractUserKey(key));
    EarliestTagParts(shorter);
    forall e | ParseInternalKey(e).Some? && ExtractUserKey(e) == shorter
      ensures Compare(c.compare, shorter + EarliestTag(), e) <= 0
    {
      EarliestIsFirst(c.compare, shorter, e);
    }
  }
}
