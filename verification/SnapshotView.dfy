/**
 What a DBIter is supposed to show: the ascending list of (user key, value) pairs whose newest
 entry at or below the snapshot is a value, and a plain cursor over that list.
 */
module SnapshotView {
  import opened Slices
  import opened Comparators
  import opened InternalKeys

  datatype RawEntry = RawEntry(key: bytes, value: bytes)

  /** An entry of the internal stream; every internal key carries its eight-byte tag. */
  type Entry = e: RawEntry | IsInternalKey(e.key) witness RawEntry([0, 0, 0, 0, 0, 0, 0, 0], [])

  datatype Pair = Pair(key: bytes, value: bytes)

  function UserKey(e: Entry): bytes {
    ExtractUserKey(e.key)
  }

  /** Parsable and written at or before the snapshot. */
  predicate Visible(e: Entry, snapshot: nat) {
    ParseInternalKey(e.key).Some? && ParseInternalKey(e.key).value.sequence <= snapshot
  }

  predicate IsValue(e: Entry) {
    ParseInternalKey(e.key).Some? && ParseInternalKey(e.key).value.kind.Value?
  }

  /** Strictly sorted by the internal key comparator. */
  ghost predicate Sorted(cmp: (bytes, bytes) -> int, es: seq<Entry>) {
    forall i, j {:trigger Compare(cmp, es[i].key, es[j].key)} :: 0 <= i < j < |es| ==>
      Compare(cmp, es[i].key, es[j].key) < 0
  }

  /** Entry i is the one the snapshot shows for its user key. */
  predicate Live(es: seq<Entry>, snapshot: nat, i: nat)
    requires i < |es|
  {
    && Visible(es[i], snapshot)
    && IsValue(es[i])
    && forall j | 0 <= j < i :: Visible(es[j], snapshot) ==> UserKey(es[j]) != UserKey(es[i])
  }

  predicate NoneLive(es: seq<Entry>, snapshot: nat, lo: nat, hi: nat)
    requires hi <= |es|
  {
    forall i | lo <= i < hi :: !Live(es, snapshot, i)
  }

  predicate NoneVisible(es: seq<Entry>, snapshot: nat, lo: nat, hi: nat)
    requires hi <= |es|
  {
    forall i | lo <= i < hi :: !Visible(es[i], snapshot)
  }

  /** The pairs shown by the first n entries. */
  function ViewPrefix(es: seq<Entry>, snapshot: nat, n: nat): seq<Pair>
    requires n <= |es|
  {
    if n == 0 then []
    else ViewPrefix(es, snapshot, n - 1) +
         if Live(es, snapshot, n - 1) then [Pair(UserKey(es[n - 1]), es[n - 1].value)] else []
  }

  function View(es: seq<Entry>, snapshot: nat): seq<Pair> {
    ViewPrefix(es, snapshot, |es|)
  }

  /** The list position of entry n. */
  function Rank(es: seq<Entry>, snapshot: nat, n: nat): nat
    requires n <= |es|
  {
    |ViewPrefix(es, snapshot, n)|
  }

  lemma {:induction false} ViewPrefixGrows(es: seq<Entry>, snapshot: nat, m: nat, n: nat)
    requires m <= n <= |es|
    ensures ViewPrefix(es, snapshot, m) <= ViewPrefix(es, snapshot, n)
    ensures NoneLive(es, snapshot, m, n) ==> ViewPrefix(es, snapshot, m) == ViewPrefix(es, snapshot, n)
  {
    if m < n {
      ViewPrefixGrows(es, snapshot, m, n - 1);
    }
  }

  /** A live entry is found in the view at its rank. */
  lemma ViewAtRank(es: seq<Entry>, snapshot: nat, i: nat)
    requires i < |es| && Live(es, snapshot, i)
    ensures Rank(es, snapshot, i) < |View(es, snapshot)|
    ensures View(es, snapshot)[Rank(es, snapshot, i)] == Pair(UserKey(es[i]), es[i].value)
    ensures Rank(es, snapshot, i + 1) == Rank(es, snapshot, i) + 1
  {
    ViewPrefixGrows(es, snapshot, i + 1, |es|);
    assert ViewPrefix(es, snapshot, i + 1)[Rank(es, snapshot, i)] == Pair(UserKey(es[i]), es[i].value);
  }

  /** Every pair of the view comes from a live entry. */
  lemma {:induction false} PairHasEntry(es: seq<Entry>, snapshot: nat, n: nat, p: Pair) returns (i: nat)
    requires n <= |es| && p in ViewPrefix(es, snapshot, n)
    ensures i < n && Live(es, snapshot, i) && p == Pair(UserKey(es[i]), es[i].value)
  {
    if p in ViewPrefix(es, snapshot, n - 1) {
      i := PairHasEntry(es, snapshot, n - 1, p);
    } else {
      i := n - 1;
    }
  }

  /** User keys never decrease along the stream; among equal ones the tag strictly decreases. */
  lemma UserKeysAscend(cmp: (bytes, bytes) -> int, es: seq<Entry>, i: nat, j: nat)
    requires TotalOrder(cmp) && Sorted(cmp, es) && i < j < |es|
    ensures cmp(UserKey(es[i]), UserKey(es[j])) <= 0
    ensures UserKey(es[i]) == UserKey(es[j]) ==> Tag(es[i].key) > Tag(es[j].key)
  {
    assert Compare(cmp, es[i].key, es[j].key) < 0;
  }

  /** The defining property of the view, stated without reference to stream order. */
  ghost predicate Newest(es: seq<Entry>, snapshot: nat, e: Entry) {
    && e in es && Visible(e, snapshot)
    && forall f | f in es && Visible(f, snapshot) && UserKey(f) == UserKey(e) :: Tag(f.key) <= Tag(e.key)
  }

  ghost predicate Ascending(cmp: (bytes, bytes) -> int, view: seq<Pair>) {
    forall i, j :: 0 <= i < j < |view| ==> cmp(view[i].key, view[j].key) < 0
  }

  /** Being the first visible entry of a user key is being its newest. */
  lemma LiveIsNewest(cmp: (bytes, bytes) -> int, es: seq<Entry>, snapshot: nat, i: nat)
    requires TotalOrder(cmp) && Sorted(cmp, es) && i < |es|
    ensures Live(es, snapshot, i) <==> IsValue(es[i]) && Newest(es, snapshot, es[i])
  {
    if Live(es, snapshot, i) {
      forall f | f in es && Visible(f, snapshot) && UserKey(f) == UserKey(es[i])
        ensures Tag(f.key) <= Tag(es[i].key)
      {
        var j :| 0 <= j < |es| && es[j] == f;
        if i < j { UserKeysAscend(cmp, es, i, j); }
      }
    } else if IsValue(es[i]) && Visible(es[i], snapshot) {
      var j :| 0 <= j < i && Visible(es[j], snapshot) && UserKey(es[j]) == UserKey(es[i]);
      UserKeysAscend(cmp, es, j, i);
      assert es[j] in es;
    }
  }

  lemma LiveKeysAscend(cmp: (bytes, bytes) -> int, es: seq<Entry>, snapshot: nat, i: nat, j: nat)
    requires TotalOrder(cmp) && Sorted(cmp, es) && i < j < |es|
    requires Live(es, snapshot, i) && Live(es, snapshot, j)
    ensures cmp(UserKey(es[i]), UserKey(es[j])) < 0
  {
    UserKeysAscend(cmp, es, i, j);
    assert Visible(es[i], snapshot);
  }

  lemma EarlierKeysBelow(cmp: (bytes, bytes) -> int, es: seq<Entry>, snapshot: nat, n: nat)
    requires TotalOrder(cmp) && Sorted(cmp, es) && n < |es| && Live(es, snapshot, n)
    ensures forall i | 0 <= i < Rank(es, snapshot, n) ::
              cmp(ViewPrefix(es, snapshot, n)[i].key, UserKey(es[n])) < 0
  {
    var prev := ViewPrefix(es, snapshot, n);
    forall i | 0 <= i < |prev| ensures cmp(prev[i].key, UserKey(es[n])) < 0 {
      var k := PairHasEntry(es, snapshot, n, prev[i]);
      LiveKeysAscend(cmp, es, snapshot, k, n);
    }
  }

  lemma AscendingAppend(cmp: (bytes, bytes) -> int, view: seq<Pair>, p: Pair)
    requires Ascending(cmp, view)
    requires forall i | 0 <= i < |view| :: cmp(view[i].key, p.key) < 0
    ensures Ascending(cmp, view + [p])
  {
  }

  lemma {:induction false} ViewPrefixAscends(cmp: (bytes, bytes) -> int, es: seq<Entry>, snapshot: nat, n: nat)
    requires TotalOrder(cmp) && Sorted(cmp, es) && n <= |es|
    ensures Ascending(cmp, ViewPrefix(es, snapshot, n))
  {
    if n > 0 {
      ViewPrefixAscends(cmp, es, snapshot, n - 1);
      if Live(es, snapshot, n - 1) {
        EarlierKeysBelow(cmp, es, snapshot, n - 1);
        AscendingAppend(cmp, ViewPrefix(es, snapshot, n - 1), Pair(UserKey(es[n - 1]), es[n - 1].value));
      }
    }
  }

  /**
   The view is strictly ascending, and holds exactly the pairs whose newest entry at or below
   the snapshot is a value.
   */
  lemma ViewIsNewestValues(cmp: (bytes, bytes) -> int, es: seq<Entry>, snapshot: nat)
    requires TotalOrder(cmp) && Sorted(cmp, es)
    ensures Ascending(cmp, View(es, snapshot))
    ensures forall p :: p in View(es, snapshot) <==>
              exists e :: e in es && IsValue(e) && Newest(es, snapshot, e) && p == Pair(UserKey(e), e.value)
  {
    ViewPrefixAscends(cmp, es, snapshot, |es|);
    forall p | p in View(es, snapshot)
      ensures exists e :: e in es && IsValue(e) && Newest(es, snapshot, e) && p == Pair(UserKey(e), e.value)
    {
      var i := PairHasEntry(es, snapshot, |es|, p);
      LiveIsNewest(cmp, es, snapshot, i);
      assert es[i] in es;
    }
    forall e | e in es && IsValue(e) && Newest(es, snapshot, e)
      ensures Pair(UserKey(e), e.value) in View(es, snapshot)
    {
      var i :| 0 <= i < |es| && es[i] == e;
      LiveIsNewest(cmp, es, snapshot, i);
      ViewAtRank(es, snapshot, i);
    }
  }

  lemma AscendingTail(cmp: (bytes, bytes) -> int, u: seq<Pair>, p: Pair)
    requires TotalOrder(cmp) && Ascending(cmp, u) && u != []
    ensures p in u[1..] <==> p in u && p != u[0]
    ensures Ascending(cmp, u[1..])
  {
    if p in u[1..] {
      var i :| 0 <= i < |u[1..]| && u[1..][i] == p;
      assert cmp(u[0].key, u[i + 1].key) < 0;
    }
  }

  lemma HeadIsMember(u: seq<Pair>)
    ensures u != [] ==> u[0] in u
  {
  }

  /** The least element of an ascending list is its head. */
  lemma HeadIsLeast(cmp: (bytes, bytes) -> int, u: seq<Pair>, p: Pair)
    requires TotalOrder(cmp) && Ascending(cmp, u) && p in u
    ensures p == u[0] || cmp(u[0].key, p.key) < 0
  {
    var i :| 0 <= i < |u| && u[i] == p;
  }

  /** Strictly ascending lists with the same elements are the same list. */
  lemma {:induction false} AscendingListsEqual(cmp: (bytes, bytes) -> int, u: seq<Pair>, v: seq<Pair>)
    requires TotalOrder(cmp) && Ascending(cmp, u) && Ascending(cmp, v)
    requires forall p :: p in u <==> p in v
    ensures u == v
  {
    HeadIsMember(u);
    HeadIsMember(v);
    if u != [] && v != [] {
      HeadIsLeast(cmp, u, v[0]);
      HeadIsLeast(cmp, v, u[0]);
      assert u[0] == v[0];
      forall p ensures p in u[1..] <==> p in v[1..] {
        AscendingTail(cmp, u, p);
        AscendingTail(cmp, v, p);
      }
      AscendingTail(cmp, u, u[0]);
      AscendingTail(cmp, v, v[0]);
      AscendingListsEqual(cmp, u[1..], v[1..]);
      assert u == [u[0]] + u[1..] && v == [v[0]] + v[1..];
    }
  }

  /** The two streams hold the same entries at or below the snapshot. */
  ghost predicate AgreeUpTo(es: seq<Entry>, fs: seq<Entry>, snapshot: nat) {
    forall e: Entry | Visible(e, snapshot) :: e in es <==> e in fs
  }

  /** Entries written after the snapshot, and unparsable ones, never change the view. */
  lemma ViewIgnoresNewerEntries(cmp: (bytes, bytes) -> int, es: seq<Entry>, fs: seq<Entry>, snapshot: nat)
    requires TotalOrder(cmp) && Sorted(cmp, es) && Sorted(cmp, fs) && AgreeUpTo(es, fs, snapshot)
    ensures View(es, snapshot) == View(fs, snapshot)
  {
    ViewIsNewestValues(cmp, es, snapshot);
    ViewIsNewestValues(cmp, fs, snapshot);
    forall e: Entry ensures Newest(es, snapshot, e) <==> Newest(fs, snapshot, e) {
    }
    forall p ensures p in View(es, snapshot) <==> p in View(fs, snapshot) {
    }
    AscendingListsEqual(cmp, View(es, snapshot), View(fs, snapshot));
  }

  // ---- The cursor ----

  type Cursor = Option<nat>

  datatype Op = Seek(target: bytes) | SeekToFirst | SeekToLast | Next | Prev

  /** Index of the first pair, from position k on, at or past target. */
  function LowerBound(cmp: (bytes, bytes) -> int, view: seq<Pair>, target: bytes, k: nat): (n: nat)
    requires k <= |view|
    ensures k <= n <= |view|
    ensures forall i | k <= i < n :: cmp(view[i].key, target) < 0
    ensures n < |view| ==> cmp(view[n].key, target) >= 0
    decreases |view| - k
  {
    if k == |view| || cmp(view[k].key, target) >= 0 then k
    else LowerBound(cmp, view, target, k + 1)
  }

  function At(view: seq<Pair>, n: int): Cursor {
    if 0 <= n < |view| then Some(n) else None
  }

  /** Next and Prev may only be called on a valid iterator. */
  predicate Legal(c: Cursor, op: Op) {
    op.Next? || op.Prev? ==> c.Some?
  }

  function Step(cmp: (bytes, bytes) -> int, view: seq<Pair>, c: Cursor, op: Op): Cursor
    requires Legal(c, op)
  {
    match op
    case Seek(t) => At(view, LowerBound(cmp, view, t, 0))
    case SeekToFirst => At(view, 0)
    case SeekToLast => At(view, |view| - 1)
    case Next => At(view, c.value + 1)
    case Prev => At(view, c.value - 1)
  }

  /** What a caller sees: Valid(), and key() and value() when valid. */
  function Shown(view: seq<Pair>, c: Cursor): Option<Pair> {
    if c.Some? && c.value < |view| then Some(view[c.value]) else None
  }

  predicate LegalRun(cmp: (bytes, bytes) -> int, view: seq<Pair>, c: Cursor, ops: seq<Op>)
    decreases |ops|
  {
    ops == [] ||
    (Legal(c, ops[0]) && LegalRun(cmp, view, Step(cmp, view, c, ops[0]), ops[1..]))
  }

  /** The observations after each call of a run. */
  function Trace(cmp: (bytes, bytes) -> int, view: seq<Pair>, c: Cursor, ops: seq<Op>): seq<Option<Pair>>
    requires LegalRun(cmp, view, c, ops)
    decreases |ops|
  {
    if ops == [] then []
    else
      var c' := Step(cmp, view, c, ops[0]);
      [Shown(view, c')] + Trace(cmp, view, c', ops[1..])
  }

  lemma {:induction false} TraceLength(cmp: (bytes, bytes) -> int, view: seq<Pair>, c: Cursor, ops: seq<Op>)
    requires LegalRun(cmp, view, c, ops)
    ensures |Trace(cmp, view, c, ops)| == |ops|
    decreases |ops|
  {
    if ops != [] {
      TraceLength(cmp, view, Step(cmp, view, c, ops[0]), ops[1..]);
    }
  }

  /** Next then Prev, and Prev then Next, come back to the same pair when the first step is valid. */
  lemma NextAndPrevInvert(cmp: (bytes, bytes) -> int, view: seq<Pair>, c: Cursor)
    requires c.Some? && c.value < |view|
    ensures var d := Step(cmp, view, c, Next); d.Some? ==> Step(cmp, view, d, Prev) == c
    ensures var d := Step(cmp, view, c, Prev); d.Some? ==> Step(cmp, view, d, Next) == c
  {
  }

  /**
   Snapshot isolation: streams that agree at or below the snapshot give the same observations on
   every run of calls, however many newer entries are interleaved in either of them.
   */
  lemma SnapshotIsolation(cmp: (bytes, bytes) -> int, es: seq<Entry>, fs: seq<Entry>, snapshot: nat,
                          c: Cursor, ops: seq<Op>)
    requires TotalOrder(cmp) && Sorted(cmp, es) && Sorted(cmp, fs) && AgreeUpTo(es, fs, snapshot)
    requires LegalRun(cmp, View(es, snapshot), c, ops)
    ensures LegalRun(cmp, View(fs, snapshot), c, ops)
    ensures Trace(cmp, View(es, snapshot), c, ops) == Trace(cmp, View(fs, snapshot), c, ops)
  {
    ViewIgnoresNewerEntries(cmp, es, fs, snapshot);
  }
}
