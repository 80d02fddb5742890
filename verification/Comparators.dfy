/**
 The user comparator: its contract as stated in leveldb/comparator.h, and the
 built-in bytewise comparator with its two key-shortening loops.
 */
module Comparators {
  import opened Slices

  /** A comparator object: three-way comparison and the two shortening functions. */
  datatype Comparator = Comparator(
    compare: (bytes, bytes) -> int,
    separator: (bytes, bytes) -> bytes,
    successor: bytes -> bytes)

  /** "Provides a total order across slices": == 0 exactly on equal slices. */
  ghost predicate TotalOrder(cmp: (bytes, bytes) -> int) {
    && (forall a, b :: cmp(a, b) == 0 <==> a == b)
    && (forall a, b :: cmp(a, b) < 0 <==> cmp(b, a) > 0)
    && (forall a, b, c :: cmp(a, b) < 0 && cmp(b, c) < 0 ==> cmp(a, c) < 0)
  }

  /** The whole contract of comparator.h: a separator in [start, limit), a successor >= key. */
  ghost predicate Lawful(c: Comparator) {
    && TotalOrder(c.compare)
    && (forall start, limit :: c.compare(start, limit) < 0 ==>
          && c.compare(start, c.separator(start, limit)) <= 0
          && c.compare(c.separator(start, limit), limit) < 0)
    && (forall key :: c.compare(key, c.successor(key)) <= 0)
  }

  /** Lexicographic comparison of unsigned bytes. */
  function BytewiseCompare(a: bytes, b: bytes): int
  {
    if a == [] then (if b == [] then 0 else -1)
    else if b == [] then 1
    else if a[0] != b[0] then (if a[0] < b[0] then -1 else 1)
    else BytewiseCompare(a[1..], b[1..])
  }

  /** Length of the common prefix. */
  function CommonPrefix(a: bytes, b: bytes): (n: nat)
    ensures n <= |a| && n <= |b| && a[..n] == b[..n]
    ensures n < |a| && n < |b| ==> a[n] != b[n]
  {
    if a == [] || b == [] || a[0] != b[0] then 0
    else
      var n := CommonPrefix(a[1..], b[1..]);
      assert a[..n + 1] == [a[0]] + a[1..][..n];
      assert b[..n + 1] == [b[0]] + b[1..][..n];
      1 + n
  }

  function BytewiseSeparator(start: bytes, limit: bytes): bytes {
    var d := CommonPrefix(start, limit);
    if d < |start| && d < |limit| && start[d] < 0xff && start[d] + 1 < limit[d]
    then start[..d] + [start[d] + 1]
    else start
  }

  /** Number of leading 0xff bytes. */
  function LeadingFF(key: bytes): (n: nat)
    ensures n <= |key| && (forall i :: 0 <= i < n ==> key[i] == 0xff)
    ensures n < |key| ==> key[n] != 0xff
  {
    if key == [] || key[0] != 0xff then 0 else 1 + LeadingFF(key[1..])
  }

  function BytewiseSuccessor(key: bytes): bytes {
    var n := LeadingFF(key);
    if n < |key| then key[..n] + [key[n] + 1] else key
  }

  function Bytewise(): Comparator {
    Comparator(BytewiseCompare, BytewiseSeparator, BytewiseSuccessor)
  }

  /** The first differing byte decides, however long the tails are. */
  lemma {:induction false} CompareAtDifference(a: bytes, b: bytes, d: nat)
    requires d < |a| && d < |b| && a[..d] == b[..d] && a[d] < b[d]
    ensures BytewiseCompare(a, b) < 0
  {
    if d > 0 {
      assert a[0] == a[..d][0] == b[..d][0] == b[0];
      assert a[1..][..d - 1] == a[..d][1..] == b[..d][1..] == b[1..][..d - 1];
      CompareAtDifference(a[1..], b[1..], d - 1);
    }
  }

  lemma {:induction false} BytewiseZero(a: bytes, b: bytes)
    ensures BytewiseCompare(a, b) == 0 <==> a == b
  {
    if a != [] && b != [] && a[0] == b[0] {
      BytewiseZero(a[1..], b[1..]);
      assert a == [a[0]] + a[1..] && b == [b[0]] + b[1..];
    }
  }

  lemma {:induction false} BytewiseFlip(a: bytes, b: bytes)
    ensures BytewiseCompare(a, b) < 0 <==> BytewiseCompare(b, a) > 0
  {
    if a != [] && b != [] && a[0] == b[0] {
      BytewiseFlip(a[1..], b[1..]);
    }
  }

  lemma {:induction false} BytewiseTransitive(a: bytes, b: bytes, c: bytes)
    requires BytewiseCompare(a, b) < 0 && BytewiseCompare(b, c) < 0
    ensures BytewiseCompare(a, c) < 0
  {
    if a != [] && a[0] == b[0] && b[0] == c[0] {
      BytewiseTransitive(a[1..], b[1..], c[1..]);
    }
  }

  /** Shortening keeps the separator in [start, limit) whenever start is below limit. */
  lemma BytewiseSeparatorInRange(start: bytes, limit: bytes)
    requires BytewiseCompare(start, limit) < 0
    ensures BytewiseCompare(start, BytewiseSeparator(start, limit)) <= 0
    ensures BytewiseCompare(BytewiseSeparator(start, limit), limit) < 0
  {
    var d := CommonPrefix(start, limit);
    var r := BytewiseSeparator(start, limit);
    if r != start {
      CompareAtDifference(start, r, d);
      CompareAtDifference(r, limit, d);
    } else {
      BytewiseZero(start, start);
    }
  }

  lemma BytewiseSuccessorAbove(key: bytes)
    ensures BytewiseCompare(key, BytewiseSuccessor(key)) <= 0
    ensures |BytewiseSuccessor(key)| <= |key|
  {
    var n := LeadingFF(key);
    if n < |key| {
      CompareAtDifference(key, BytewiseSuccessor(key), n);
    } else {
      BytewiseZero(key, key);
    }
  }

  // ---- What shortening achieves ----

  /** A proper prefix comes first. */
  lemma {:induction false} PrefixIsBelow(a: bytes, b: bytes)
    requires |a| < |b| && b[..|a|] == a
    ensures BytewiseCompare(a, b) < 0
  {
    if a != [] {
      assert b[0] == b[..|a|][0] == a[0];
      assert b[1..][..|a| - 1] == b[..|a|][1..] == a[1..];
      PrefixIsBelow(a[1..], b[1..]);
    }
  }

  lemma {:induction false} CommonPrefixIs(a: bytes, b: bytes, d: nat)
    requires d <= |a| && d <= |b| && a[..d] == b[..d] && (d < |a| && d < |b| ==> a[d] != b[d])
    ensures CommonPrefix(a, b) == d
  {
    if d > 0 {
      assert a[0] == a[..d][0] == b[..d][0] == b[0];
      assert a[1..][..d - 1] == a[..d][1..] == b[..d][1..] == b[1..][..d - 1];
      CommonPrefixIs(a[1..], b[1..], d - 1);
    }
  }

  /** A key no longer than a common prefix compares alike with everything that begins with it. */
  lemma {:induction false} SameSide(x: bytes, a: bytes, b: bytes, d: nat)
    requires |x| <= d && d < |a| && d < |b| && a[..d] == b[..d]
    ensures BytewiseCompare(x, a) != 0 && (BytewiseCompare(x, a) < 0 <==> BytewiseCompare(x, b) < 0)
  {
    if x != [] {
      assert a[0] == a[..d][0] == b[..d][0] == b[0];
      if x[0] == a[0] {
        assert a[1..][..d - 1] == a[..d][1..] == b[..d][1..] == b[1..][..d - 1];
        SameSide(x[1..], a[1..], b[1..], d - 1);
      }
    }
  }

  predicate ByteBetween(lo: int, hi: int) {
    lo + 1 < hi
  }

  /**
   The separator is the shortest key there is: where start and limit first differ, at d, with a byte
   free in between, it lies strictly above start and nothing in [start, limit) is shorter.
   Otherwise start stays as it is.
   */
  lemma SeparatorIsShortest(start: bytes, limit: bytes, d: nat)
    requires d <= |start| && d <= |limit| && start[..d] == limit[..d]
    requires d < |start| && d < |limit| ==> start[d] != limit[d]
    ensures var r := BytewiseSeparator(start, limit);
            if d < |start| && d < |limit| && ByteBetween(start[d], limit[d]) then
              && BytewiseCompare(start, r) < 0 && BytewiseCompare(r, limit) < 0
              && forall x | BytewiseCompare(start, x) <= 0 && BytewiseCompare(x, limit) < 0 :: |r| <= |x|
            else r == start
  {
    var r := BytewiseSeparator(start, limit);
    CommonPrefixIs(start, limit, d);
    if d < |start| && d < |limit| && ByteBetween(start[d], limit[d]) {
      CompareAtDifference(start, r, d);
      CompareAtDifference(r, limit, d);
      forall x | BytewiseCompare(start, x) <= 0 && BytewiseCompare(x, limit) < 0 ensures |r| <= |x| {
        if |x| <= d {
          SameSide(x, start, limit, d);
          BytewiseFlip(x, start);
        }
      }
    }
  }

  lemma {:induction false} RunOfFF(key: bytes, n: nat)
    requires n <= |key| && (forall i | 0 <= i < n :: key[i] == 0xff) && (n < |key| ==> key[n] != 0xff)
    ensures LeadingFF(key) == n
  {
    if n > 0 {
      RunOfFF(key[1..], n - 1);
    }
  }

  /** Nothing as short as a run of 0xff is above what begins with it. */
  lemma {:induction false} NothingAboveFF(x: bytes, key: bytes, n: nat)
    requires |x| <= n <= |key| && forall i | 0 <= i < n :: key[i] == 0xff
    ensures BytewiseCompare(key, x) >= 0
  {
    if x != [] && x[0] == key[0] {
      NothingAboveFF(x[1..], key[1..], n - 1);
    }
  }

  /**
   The successor of a key that has a byte other than 0xff, first at n, is strictly above it, cut after
   that byte, and the shortest of all keys above it. A run of 0xff stays as it is.
   */
  lemma SuccessorIsShortest(key: bytes, n: nat)
    requires n <= |key| && (forall i | 0 <= i < n :: key[i] == 0xff) && (n < |key| ==> key[n] != 0xff)
    ensures var r := BytewiseSuccessor(key);
            if n < |key| then
              && BytewiseCompare(key, r) < 0 && |r| == n + 1
              && forall x | BytewiseCompare(key, x) < 0 :: |r| <= |x|
            else r == key
  {
    var r := BytewiseSuccessor(key);
    RunOfFF(key, n);
    if n < |key| {
      CompareAtDifference(key, r, n);
      forall x | BytewiseCompare(key, x) < 0 ensures |r| <= |x| {
        if |x| <= n {
          NothingAboveFF(x, key, n);
        }
      }
    }
  }

  /** The built-in comparator meets the whole contract that user comparators promise. */
  lemma BytewiseIsLawful()
    ensures Lawful(Bytewise())
  {
    forall a, b
      ensures BytewiseCompare(a, b) == 0 <==> a == b
      ensures BytewiseCompare(a, b) < 0 <==> BytewiseCompare(b, a) > 0
    {
      BytewiseZero(a, b);
      BytewiseFlip(a, b);
    }
    forall a, b, c | BytewiseCompare(a, b) < 0 && BytewiseCompare(b, c) < 0
      ensures BytewiseCompare(a, c) < 0
    {
      BytewiseTransitive(a, b, c);
    }
    forall start, limit | BytewiseCompare(start, limit) < 0
      ensures BytewiseCompare(start, BytewiseSeparator(start, limit)) <= 0
      ensures BytewiseCompare(BytewiseSeparator(start, limit), limit) < 0
    {
      BytewiseSeparatorInRange(start, limit);
    }
    forall key
      ensures BytewiseCompare(key, BytewiseSuccessor(key)) <= 0
    {
      BytewiseSuccessorAbove(key);
    }
  }

  /** The loop of BytewiseComparatorImpl::FindShortestSeparator. */
  method FindShortestSeparator(start: bytes, limit: bytes) returns (r: bytes)
    ensures r == BytewiseSeparator(start, limit)
    ensures BytewiseCompare(start, limit) < 0 ==> BytewiseCompare(start, r) <= 0 && BytewiseCompare(r, limit) < 0
    ensures |r| <= |start|
  {
    var minLength := if |start| < |limit| then |start| else |limit|;
    var diffIndex := 0;
    while diffIndex < minLength && start[diffIndex] == limit[diffIndex]
      invariant 0 <= diffIndex <= minLength
      invariant CommonPrefix(start, limit) == diffIndex + CommonPrefix(start[diffIndex..], limit[diffIndex..])
    {
      diffIndex := diffIndex + 1;
    }
    r := start;
    if diffIndex < minLength {
      var diffByte := start[diffIndex];
      if diffByte < 0xff && diffByte + 1 < limit[diffIndex] {
        r := start[..diffIndex] + [diffByte + 1];
      }
    }
    if BytewiseCompare(start, limit) < 0 {
      BytewiseSeparatorInRange(start, limit);
    }
  }

  /** The loop of BytewiseComparatorImpl::FindShortSuccessor. */
  method FindShortSuccessor(key: bytes) returns (r: bytes)
    ensures r == BytewiseSuccessor(key)
    ensures BytewiseCompare(key, r) <= 0 && |r| <= |key|
  {
    BytewiseSuccessorAbove(key);
    for i := 0 to |key|
      invariant LeadingFF(key) == i + LeadingFF(key[i..])
    {
      if key[i] != 0xff {
        r := key[..i] + [key[i] + 1];
        return;
      }
    }
    r := key;
  }
}
