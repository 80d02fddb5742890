/**
 The two scans of DBIter as invariants over the entry stream: what each loop of
 FindNextUserEntry and FindPrevUserEntry knows, and that every branch keeps it.
 */
module Scans {
  import opened Slices
  import opened Comparators
  import opened InternalKeys
  import opened SnapshotView

  // ---- Forward ----

  /** Every visible entry before p sorts at or below skip; no entry from lo on with such a key is shown. */
  ghost predicate SkipCovers(cmp: (bytes, bytes) -> int, es: seq<Entry>, snapshot: nat, p: nat, lo: nat, skip: bytes)
    requires p <= |es|
  {
    && (forall j | 0 <= j < p && Visible(es[j], snapshot) :: cmp(UserKey(es[j]), skip) <= 0)
    && (forall j | p <= j < |es| && lo <= j && cmp(UserKey(es[j]), skip) <= 0 :: !Live(es, snapshot, j))
  }

  /** No visible entry before p shares a user key with an entry from p on. */
  ghost predicate FreshFrom(es: seq<Entry>, snapshot: nat, p: nat)
    requires p <= |es|
  {
    forall i, j | 0 <= i < p <= j < |es| && Visible(es[i], snapshot) :: UserKey(es[i]) != UserKey(es[j])
  }

  /** The visible entries in [p, lo) are values that skip already covers. */
  ghost predicate LeadIn(cmp: (bytes, bytes) -> int, es: seq<Entry>, snapshot: nat, p: nat, lo: nat,
                         skipping: bool, skip: bytes)
    requires lo <= |es|
  {
    forall j | p <= j < lo && Visible(es[j], snapshot) ::
      skipping && IsValue(es[j]) && cmp(UserKey(es[j]), skip) <= 0
  }

  /** The forward scan stands at p, looking for the first shown entry at or past lo. */
  ghost predicate Forward(cmp: (bytes, bytes) -> int, es: seq<Entry>, snapshot: nat, p: nat, lo: nat,
                          skipping: bool, skip: bytes)
  {
    && p <= |es| && lo <= |es|
    && LeadIn(cmp, es, snapshot, p, lo, skipping, skip)
    && (if skipping then SkipCovers(cmp, es, snapshot, p, lo, skip) else FreshFrom(es, snapshot, p))
    && NoneLive(es, snapshot, lo, p)
  }

  lemma KeyCoversItself(cmp: (bytes, bytes) -> int, es: seq<Entry>, snapshot: nat, p: nat, lo: nat)
    requires TotalOrder(cmp) && Sorted(cmp, es) && p < |es| && Visible(es[p], snapshot)
    ensures SkipCovers(cmp, es, snapshot, p + 1, lo, UserKey(es[p]))
  {
    var k := UserKey(es[p]);
    forall j | 0 <= j < p + 1 && Visible(es[j], snapshot) ensures cmp(UserKey(es[j]), k) <= 0 {
      if j < p { UserKeysAscend(cmp, es, j, p); }
    }
    forall j | p + 1 <= j < |es| && cmp(UserKey(es[j]), k) <= 0 ensures !Live(es, snapshot, j) {
      UserKeysAscend(cmp, es, p, j);
      assert UserKey(es[j]) == k;
    }
  }

  lemma ForwardInvisible(cmp: (bytes, bytes) -> int, es: seq<Entry>, snapshot: nat, p: nat, lo: nat,
                         skipping: bool, skip: bytes)
    requires Forward(cmp, es, snapshot, p, lo, skipping, skip) && p < |es| && !Visible(es[p], snapshot)
    ensures Forward(cmp, es, snapshot, p + 1, lo, skipping, skip)
  {
  }

  lemma ForwardDeletion(cmp: (bytes, bytes) -> int, es: seq<Entry>, snapshot: nat, p: nat, lo: nat,
                        skipping: bool, skip: bytes)
    requires TotalOrder(cmp) && Sorted(cmp, es)
    requires Forward(cmp, es, snapshot, p, lo, skipping, skip) && p < |es|
    requires Visible(es[p], snapshot) && !IsValue(es[p])
    ensures Forward(cmp, es, snapshot, p + 1, lo, true, UserKey(es[p]))
  {
    KeyCoversItself(cmp, es, snapshot, p, lo);
    assert p >= lo;
  }

  lemma ForwardHidden(cmp: (bytes, bytes) -> int, es: seq<Entry>, snapshot: nat, p: nat, lo: nat, skip: bytes)
    requires Forward(cmp, es, snapshot, p, lo, true, skip) && p < |es|
    requires Visible(es[p], snapshot) && IsValue(es[p]) && cmp(UserKey(es[p]), skip) <= 0
    ensures Forward(cmp, es, snapshot, p + 1, lo, true, skip)
  {
  }

  lemma ForwardShown(cmp: (bytes, bytes) -> int, es: seq<Entry>, snapshot: nat, p: nat, lo: nat,
                     skipping: bool, skip: bytes)
    requires Forward(cmp, es, snapshot, p, lo, skipping, skip) && p < |es|
    requires Visible(es[p], snapshot) && IsValue(es[p])
    requires !(skipping && cmp(UserKey(es[p]), skip) <= 0)
    ensures lo <= p && Live(es, snapshot, p) && NoneLive(es, snapshot, lo, p)
  {
  }

  /** The forward loop as a function: where it stops from p, |es| if it runs off the stream. */
  function NextShown(cmp: (bytes, bytes) -> int, es: seq<Entry>, snapshot: nat, p: nat,
                     skipping: bool, skip: bytes): (n: nat)
    requires p <= |es|
    ensures p <= n <= |es|
    decreases |es| - p
  {
    if p == |es| then p
    else if !Visible(es[p], snapshot) then NextShown(cmp, es, snapshot, p + 1, skipping, skip)
    else if !IsValue(es[p]) then NextShown(cmp, es, snapshot, p + 1, true, UserKey(es[p]))
    else if skipping && cmp(UserKey(es[p]), skip) <= 0 then NextShown(cmp, es, snapshot, p + 1, skipping, skip)
    else p
  }

  /** n is the first shown entry at or past lo, or the end of the stream. */
  ghost predicate FirstShown(es: seq<Entry>, snapshot: nat, lo: nat, n: nat) {
    lo <= n <= |es| && NoneLive(es, snapshot, lo, n) && (n < |es| ==> Live(es, snapshot, n))
  }

  /** Skipping never jumps over, or stops short of, the first entry the snapshot shows. */
  lemma {:induction false} NextShownIsFirst(cmp: (bytes, bytes) -> int, es: seq<Entry>, snapshot: nat,
                                            p: nat, lo: nat, skipping: bool, skip: bytes)
    requires TotalOrder(cmp) && Sorted(cmp, es) && p <= |es|
    requires Forward(cmp, es, snapshot, p, lo, skipping, skip)
    requires lo <= |es|
    ensures FirstShown(es, snapshot, lo, NextShown(cmp, es, snapshot, p, skipping, skip))
    decreases |es| - p
  {
    if p < |es| {
      if !Visible(es[p], snapshot) {
        ForwardInvisible(cmp, es, snapshot, p, lo, skipping, skip);
        NextShownIsFirst(cmp, es, snapshot, p + 1, lo, skipping, skip);
      } else if !IsValue(es[p]) {
        ForwardDeletion(cmp, es, snapshot, p, lo, skipping, skip);
        NextShownIsFirst(cmp, es, snapshot, p + 1, lo, true, UserKey(es[p]));
      } else if skipping && cmp(UserKey(es[p]), skip) <= 0 {
        ForwardHidden(cmp, es, snapshot, p, lo, skip);
        NextShownIsFirst(cmp, es, snapshot, p + 1, lo, skipping, skip);
      } else {
        ForwardShown(cmp, es, snapshot, p, lo, skipping, skip);
      }
    }
  }

  /** Skipping the shown entry's key is sound from any position with only hidden entries before it. */
  lemma ForwardFromShown(cmp: (bytes, bytes) -> int, es: seq<Entry>, snapshot: nat, p: nat, i: nat)
    requires TotalOrder(cmp) && Sorted(cmp, es)
    requires p <= i < |es| && Live(es, snapshot, i) && NoneVisible(es, snapshot, p, i)
    ensures Forward(cmp, es, snapshot, p, i + 1, true, UserKey(es[i]))
  {
    var k := UserKey(es[i]);
    KeyCoversItself(cmp, es, snapshot, i, i + 1);
    assert cmp(k, k) == 0;
    assert LeadIn(cmp, es, snapshot, p, i + 1, true, k);
  }

  /** The position a seek reaches: everything visible before it has a smaller user key than target. */
  ghost predicate Reached(cmp: (bytes, bytes) -> int, es: seq<Entry>, snapshot: nat, p: nat, target: bytes)
  {
    && p <= |es|
    && (forall j | 0 <= j < p && Visible(es[j], snapshot) :: cmp(UserKey(es[j]), target) < 0)
    && (forall j | p <= j < |es| :: cmp(UserKey(es[j]), target) >= 0)
  }

  lemma SeekReaches(cmp: (bytes, bytes) -> int, es: seq<Entry>, snapshot: nat, p: nat, target: bytes)
    requires TotalOrder(cmp) && Sorted(cmp, es) && snapshot <= MAX_SEQUENCE && p <= |es|
    requires IsInternalKey(SeekKey(target, snapshot))
    requires forall j | 0 <= j < p :: Compare(cmp, es[j].key, SeekKey(target, snapshot)) < 0
    requires p < |es| ==> Compare(cmp, es[p].key, SeekKey(target, snapshot)) >= 0
    ensures Reached(cmp, es, snapshot, p, target)
  {
    AppendParts(ParsedKey(target, snapshot, Value));
    forall j | 0 <= j < p && Visible(es[j], snapshot) ensures cmp(UserKey(es[j]), target) < 0 {
      SeekKeySeparates(cmp, target, snapshot, es[j].key);
    }
    forall j | p <= j < |es| ensures cmp(UserKey(es[j]), target) >= 0 {
      if p < j { UserKeysAscend(cmp, es, p, j); }
    }
  }

  lemma ForwardFromReached(cmp: (bytes, bytes) -> int, es: seq<Entry>, snapshot: nat, p: nat, target: bytes)
    requires Reached(cmp, es, snapshot, p, target)
    ensures Forward(cmp, es, snapshot, p, p, false, [])
  {
  }

  // ---- Backward ----

  /** What the backward scan has saved: nothing, or the candidate entry n. */
  datatype Candidate = Nothing | Saved(n: nat)

  /** The backward scan has processed the entries in [q, hi). */
  ghost predicate Backward(es: seq<Entry>, snapshot: nat, q: nat, hi: nat, c: Candidate)
  {
    && q <= hi <= |es|
    && match c
       case Nothing => NoneLive(es, snapshot, q, hi)
       case Saved(n) =>
         && q <= n < hi && Visible(es[n], snapshot) && IsValue(es[n])
         && NoneVisible(es, snapshot, q, n) && NoneLive(es, snapshot, n + 1, hi)
  }

  lemma BackwardInvisible(es: seq<Entry>, snapshot: nat, q: nat, hi: nat, c: Candidate)
    requires 0 < q && Backward(es, snapshot, q, hi, c) && !Visible(es[q - 1], snapshot)
    ensures Backward(es, snapshot, q - 1, hi, c)
  {
  }

  /** An older visible entry is hidden by a visible one of the same key before it. */
  lemma Hidden(cmp: (bytes, bytes) -> int, es: seq<Entry>, snapshot: nat, i: nat, n: nat)
    requires TotalOrder(cmp) && Sorted(cmp, es) && i < n < |es| && Visible(es[i], snapshot)
    requires cmp(UserKey(es[i]), UserKey(es[n])) >= 0
    ensures !Live(es, snapshot, n)
  {
    UserKeysAscend(cmp, es, i, n);
    assert UserKey(es[i]) == UserKey(es[n]);
  }

  lemma NoneLiveJoin(es: seq<Entry>, snapshot: nat, lo: nat, n: nat, hi: nat)
    requires lo <= n < hi <= |es| && NoneVisible(es, snapshot, lo, n) && !Live(es, snapshot, n)
    requires NoneLive(es, snapshot, n + 1, hi)
    ensures NoneLive(es, snapshot, lo, hi)
  {
  }

  /** A visible entry at or above the candidate's key replaces the candidate. */
  lemma BackwardVisible(cmp: (bytes, bytes) -> int, es: seq<Entry>, snapshot: nat, q: nat, hi: nat, c: Candidate)
    requires TotalOrder(cmp) && Sorted(cmp, es)
    requires 0 < q && Backward(es, snapshot, q, hi, c) && Visible(es[q - 1], snapshot)
    requires c.Saved? ==> cmp(UserKey(es[q - 1]), UserKey(es[c.n])) >= 0
    ensures Backward(es, snapshot, q - 1, hi, if IsValue(es[q - 1]) then Saved(q - 1) else Nothing)
  {
    if c.Saved? {
      Hidden(cmp, es, snapshot, q - 1, c.n);
      NoneLiveJoin(es, snapshot, q, c.n, hi);
    }
    assert NoneLive(es, snapshot, q, hi);
  }

  /** The candidate after looking at visible entry e at index i. */
  function Look(es: seq<Entry>, i: nat): Candidate
    requires i < |es|
  {
    if IsValue(es[i]) then Saved(i) else Nothing
  }

  /** How the backward loop ends: its candidate, and the internal iterator just below index at. */
  datatype Stop = Stop(c: Candidate, at: nat)

  /** The backward loop as a function of the entries left to look at. */
  function PrevShown(cmp: (bytes, bytes) -> int, es: seq<Entry>, snapshot: nat, q: nat, c: Candidate): (r: Stop)
    requires q <= |es| && (c.Saved? ==> c.n < |es|)
    ensures r.c.Saved? ==> r.c.n < |es|
  {
    if q == 0 then Stop(c, 0)
    else if !Visible(es[q - 1], snapshot) then PrevShown(cmp, es, snapshot, q - 1, c)
    else if c.Saved? && cmp(UserKey(es[q - 1]), UserKey(es[c.n])) < 0 then Stop(c, q)
    else PrevShown(cmp, es, snapshot, q - 1, Look(es, q - 1))
  }

  /** The candidate as a stream index, |es| for none. */
  function Index(es: seq<Entry>, c: Candidate): nat {
    if c.Saved? then c.n else |es|
  }

  /** n is the last shown entry below hi, or |es| if there is none. */
  ghost predicate LastShown(es: seq<Entry>, snapshot: nat, hi: nat, n: nat) {
    && hi <= |es| && n <= |es|
    && if n == |es| then NoneLive(es, snapshot, 0, hi)
       else n < hi && Live(es, snapshot, n) && NoneLive(es, snapshot, n + 1, hi)
  }

  /** q is just above the last visible entry before n: only invisible entries lie between. */
  ghost predicate GapBefore(es: seq<Entry>, snapshot: nat, q: nat, n: nat) {
    q <= n <= |es| && (q > 0 ==> Visible(es[q - 1], snapshot)) && NoneVisible(es, snapshot, q, n)
  }

  ghost predicate Settled(es: seq<Entry>, snapshot: nat, hi: nat, r: Stop) {
    LastShown(es, snapshot, hi, Index(es, r.c)) && (r.c.Saved? ==> GapBefore(es, snapshot, r.at, r.c.n))
  }

  /** Reaching a smaller visible key, or the start, settles the candidate. */
  lemma BackwardSettled(cmp: (bytes, bytes) -> int, es: seq<Entry>, snapshot: nat, q: nat, hi: nat, c: Candidate)
    requires TotalOrder(cmp) && Sorted(cmp, es)
    requires Backward(es, snapshot, q, hi, c)
    requires q == 0 || (c.Saved? && Visible(es[q - 1], snapshot) && cmp(UserKey(es[q - 1]), UserKey(es[c.n])) < 0)
    ensures Settled(es, snapshot, hi, Stop(c, q))
  {
    if c.Saved? {
      forall j | 0 <= j < c.n && Visible(es[j], snapshot) ensures UserKey(es[j]) != UserKey(es[c.n]) {
        assert j < q;
        if j < q - 1 { UserKeysAscend(cmp, es, j, q - 1); }
      }
    }
  }

  /** Accumulating backwards settles on exactly the last entry the snapshot shows. */
  lemma {:induction false} PrevShownIsLast(cmp: (bytes, bytes) -> int, es: seq<Entry>, snapshot: nat,
                                           q: nat, hi: nat, c: Candidate)
    requires TotalOrder(cmp) && Sorted(cmp, es) && Backward(es, snapshot, q, hi, c)
    ensures Settled(es, snapshot, hi, PrevShown(cmp, es, snapshot, q, c))
    decreases q
  {
    if q == 0 || (c.Saved? && Visible(es[q - 1], snapshot) && cmp(UserKey(es[q - 1]), UserKey(es[c.n])) < 0) {
      BackwardSettled(cmp, es, snapshot, q, hi, c);
    } else if !Visible(es[q - 1], snapshot) {
      BackwardInvisible(es, snapshot, q, hi, c);
      PrevShownIsLast(cmp, es, snapshot, q - 1, hi, c);
    } else {
      BackwardVisible(cmp, es, snapshot, q, hi, c);
      PrevShownIsLast(cmp, es, snapshot, q - 1, hi, Look(es, q - 1));
    }
  }

  /** The loop that leaves a key backwards, as a function: the index its entries start at. */
  function KeyStart(cmp: (bytes, bytes) -> int, es: seq<Entry>, q: nat, key: bytes): (r: nat)
    requires q <= |es|
    ensures r <= q
  {
    if q == 0 || cmp(UserKey(es[q - 1]), key) < 0 then q else KeyStart(cmp, es, q - 1, key)
  }

  /** Entries of the shown key before the shown entry are never shown. */
  lemma {:induction false} KeyStartGapDead(cmp: (bytes, bytes) -> int, es: seq<Entry>, snapshot: nat, q: nat, i: nat)
    requires TotalOrder(cmp) && Sorted(cmp, es)
    requires q <= i < |es| && Live(es, snapshot, i) && NoneLive(es, snapshot, q, i)
    ensures NoneLive(es, snapshot, KeyStart(cmp, es, q, UserKey(es[i])), i)
  {
    if q > 0 && cmp(UserKey(es[q - 1]), UserKey(es[i])) >= 0 {
      UserKeysAscend(cmp, es, q - 1, i);
      assert UserKey(es[q - 1]) == UserKey(es[i]);
      KeyStartGapDead(cmp, es, snapshot, q - 1, i);
    }
  }

  // ---- List positions ----

  /** Stream index i, or nothing, as a list position. */
  function CursorAt(es: seq<Entry>, snapshot: nat, i: nat): Cursor {
    if i < |es| then Some(Rank(es, snapshot, i)) else None
  }

  lemma FirstShownRank(es: seq<Entry>, snapshot: nat, lo: nat, n: nat)
    requires FirstShown(es, snapshot, lo, n)
    ensures CursorAt(es, snapshot, n) == At(View(es, snapshot), Rank(es, snapshot, lo))
  {
    ViewPrefixGrows(es, snapshot, lo, n);
    if n < |es| {
      ViewAtRank(es, snapshot, n);
    }
  }

  /** The first shown entry past the shown entry i is what Next must reach. */
  lemma NextStep(cmp: (bytes, bytes) -> int, es: seq<Entry>, snapshot: nat, i: nat, n: nat)
    requires i < |es| && Live(es, snapshot, i) && FirstShown(es, snapshot, i + 1, n)
    ensures CursorAt(es, snapshot, n) == Step(cmp, View(es, snapshot), CursorAt(es, snapshot, i), Next)
  {
    ViewAtRank(es, snapshot, i);
    FirstShownRank(es, snapshot, i + 1, n);
  }

  lemma LastShownRank(es: seq<Entry>, snapshot: nat, hi: nat, n: nat)
    requires LastShown(es, snapshot, hi, n)
    ensures CursorAt(es, snapshot, n) == At(View(es, snapshot), Rank(es, snapshot, hi) - 1)
  {
    if n == |es| {
      ViewPrefixGrows(es, snapshot, 0, hi);
    } else {
      ViewAtRank(es, snapshot, n);
      ViewPrefixGrows(es, snapshot, n + 1, hi);
    }
  }

  /** The last shown entry before the shown entry i is what Prev must reach. */
  lemma PrevStep(cmp: (bytes, bytes) -> int, es: seq<Entry>, snapshot: nat, hi: nat, i: nat, n: nat)
    requires hi <= i < |es| && Live(es, snapshot, i)
    requires NoneLive(es, snapshot, hi, i) && LastShown(es, snapshot, hi, n)
    ensures CursorAt(es, snapshot, n) == Step(cmp, View(es, snapshot), CursorAt(es, snapshot, i), Prev)
  {
    LastShownRank(es, snapshot, i, n);
  }

  lemma SeekToFirstStep(cmp: (bytes, bytes) -> int, es: seq<Entry>, snapshot: nat, c: Cursor, n: nat)
    requires FirstShown(es, snapshot, 0, n)
    ensures CursorAt(es, snapshot, n) == Step(cmp, View(es, snapshot), c, SeekToFirst)
  {
    FirstShownRank(es, snapshot, 0, n);
  }

  lemma SeekToLastStep(cmp: (bytes, bytes) -> int, es: seq<Entry>, snapshot: nat, c: Cursor, n: nat)
    requires LastShown(es, snapshot, |es|, n)
    ensures CursorAt(es, snapshot, n) == Step(cmp, View(es, snapshot), c, SeekToLast)
  {
    LastShownRank(es, snapshot, |es|, n);
  }

  lemma LowerBoundUnique(cmp: (bytes, bytes) -> int, view: seq<Pair>, target: bytes, n: nat)
    requires n <= |view|
    requires forall i | 0 <= i < n :: cmp(view[i].key, target) < 0
    requires n < |view| ==> cmp(view[n].key, target) >= 0
    ensures LowerBound(cmp, view, target, 0) == n
  {
  }

  /** The first shown entry a seek can reach is the list's lower bound. */
  lemma SeekRank(cmp: (bytes, bytes) -> int, es: seq<Entry>, snapshot: nat, p: nat, target: bytes, n: nat)
    requires Reached(cmp, es, snapshot, p, target) && FirstShown(es, snapshot, p, n)
    ensures Rank(es, snapshot, p) == LowerBound(cmp, View(es, snapshot), target, 0)
  {
    var before := ViewPrefix(es, snapshot, p);
    ViewPrefixGrows(es, snapshot, p, |es|);
    ViewPrefixGrows(es, snapshot, p, n);
    forall i | 0 <= i < |before| ensures cmp(View(es, snapshot)[i].key, target) < 0 {
      var j := PairHasEntry(es, snapshot, p, before[i]);
    }
    if n < |es| {
      ViewAtRank(es, snapshot, n);
    }
    LowerBoundUnique(cmp, View(es, snapshot), target, |before|);
  }

  lemma SeekStep(cmp: (bytes, bytes) -> int, es: seq<Entry>, snapshot: nat, c: Cursor, p: nat, target: bytes, n: nat)
    requires Reached(cmp, es, snapshot, p, target) && FirstShown(es, snapshot, p, n)
    ensures CursorAt(es, snapshot, n) == Step(cmp, View(es, snapshot), c, Seek(target))
  {
    SeekRank(cmp, es, snapshot, p, target, n);
    FirstShownRank(es, snapshot, p, n);
  }

  // ---- The five calls ----

  /** Skipping forward from the shown entry i, from anywhere in the hidden gap before it, is Next. */
  lemma NextFromShown(cmp: (bytes, bytes) -> int, es: seq<Entry>, snapshot: nat, p: nat, i: nat)
    requires TotalOrder(cmp) && Sorted(cmp, es)
    requires p <= i < |es| && Live(es, snapshot, i) && NoneVisible(es, snapshot, p, i)
    ensures var n := NextShown(cmp, es, snapshot, p, true, UserKey(es[i]));
            && (n < |es| ==> Live(es, snapshot, n))
            && CursorAt(es, snapshot, n) == Step(cmp, View(es, snapshot), CursorAt(es, snapshot, i), Next)
  {
    ForwardFromShown(cmp, es, snapshot, p, i);
    NextShownIsFirst(cmp, es, snapshot, p, i + 1, true, UserKey(es[i]));
    NextStep(cmp, es, snapshot, i, NextShown(cmp, es, snapshot, p, true, UserKey(es[i])));
  }

  lemma PrevFromShown(cmp: (bytes, bytes) -> int, es: seq<Entry>, snapshot: nat, hi: nat, i: nat)
    requires TotalOrder(cmp) && Sorted(cmp, es)
    requires hi <= i < |es| && Live(es, snapshot, i) && NoneLive(es, snapshot, hi, i)
    ensures var r := PrevShown(cmp, es, snapshot, hi, Nothing);
            && (r.c.Saved? ==> Live(es, snapshot, r.c.n) && GapBefore(es, snapshot, r.at, r.c.n))
            && CursorAt(es, snapshot, Index(es, r.c)) == Step(cmp, View(es, snapshot), CursorAt(es, snapshot, i), Prev)
  {
    PrevShownIsLast(cmp, es, snapshot, hi, hi, Nothing);
    PrevStep(cmp, es, snapshot, hi, i, Index(es, PrevShown(cmp, es, snapshot, hi, Nothing).c));
  }

  lemma SeekFromReached(cmp: (bytes, bytes) -> int, es: seq<Entry>, snapshot: nat, c: Cursor, p: nat, target: bytes)
    requires TotalOrder(cmp) && Sorted(cmp, es) && Reached(cmp, es, snapshot, p, target)
    ensures var n := NextShown(cmp, es, snapshot, p, false, []);
            && (n < |es| ==> Live(es, snapshot, n))
            && CursorAt(es, snapshot, n) == Step(cmp, View(es, snapshot), c, Seek(target))
  {
    ForwardFromReached(cmp, es, snapshot, p, target);
    NextShownIsFirst(cmp, es, snapshot, p, p, false, []);
    SeekStep(cmp, es, snapshot, c, p, target, NextShown(cmp, es, snapshot, p, false, []));
  }

  lemma FirstFromStart(cmp: (bytes, bytes) -> int, es: seq<Entry>, snapshot: nat, c: Cursor)
    requires TotalOrder(cmp) && Sorted(cmp, es)
    ensures var n := NextShown(cmp, es, snapshot, 0, false, []);
            && (n < |es| ==> Live(es, snapshot, n))
            && CursorAt(es, snapshot, n) == Step(cmp, View(es, snapshot), c, SeekToFirst)
  {
    NextShownIsFirst(cmp, es, snapshot, 0, 0, false, []);
    SeekToFirstStep(cmp, es, snapshot, c, NextShown(cmp, es, snapshot, 0, false, []));
  }

  lemma LastFromEnd(cmp: (bytes, bytes) -> int, es: seq<Entry>, snapshot: nat, c: Cursor)
    requires TotalOrder(cmp) && Sorted(cmp, es)
    ensures var r := PrevShown(cmp, es, snapshot, |es|, Nothing);
            && (r.c.Saved? ==> Live(es, snapshot, r.c.n) && GapBefore(es, snapshot, r.at, r.c.n))
            && CursorAt(es, snapshot, Index(es, r.c)) == Step(cmp, View(es, snapshot), c, SeekToLast)
  {
    PrevShownIsLast(cmp, es, snapshot, |es|, |es|, Nothing);
    SeekToLastStep(cmp, es, snapshot, c, Index(es, PrevShown(cmp, es, snapshot, |es|, Nothing).c));
  }

  // ---- Where the internal iterator rests in reverse ----

  lemma {:induction false} KeyStartBounds(cmp: (bytes, bytes) -> int, es: seq<Entry>, q: nat, i: nat)
    requires TotalOrder(cmp) && Sorted(cmp, es) && q <= i < |es|
    requires forall j | q <= j < i :: UserKey(es[j]) == UserKey(es[i])
    ensures forall j | KeyStart(cmp, es, q, UserKey(es[i])) <= j < i :: UserKey(es[j]) == UserKey(es[i])
  {
    if q > 0 && cmp(UserKey(es[q - 1]), UserKey(es[i])) >= 0 {
      UserKeysAscend(cmp, es, q - 1, i);
      KeyStartBounds(cmp, es, q - 1, i);
    }
  }

  /**
   The class comment says that in reverse the internal iterator rests just before all entries of
   the shown key. That holds exactly when the entry there, if any, is visible to the snapshot.
   */
  lemma RestsJustBeforeKey(cmp: (bytes, bytes) -> int, es: seq<Entry>, snapshot: nat, q: nat, n: nat)
    requires TotalOrder(cmp) && Sorted(cmp, es) && n < |es|
    requires Live(es, snapshot, n) && GapBefore(es, snapshot, q, n)
    ensures var start := KeyStart(cmp, es, n, UserKey(es[n]));
            q == start <==> start == 0 || Visible(es[start - 1], snapshot)
  {
    KeyStartBounds(cmp, es, n, n);
  }

  /** Keys 1, 2 and 3 once each; 2 is newer than snapshot 5. */
  function ExampleKey(k: byte): ParsedKey {
    ParsedKey([k], if k == 2 then 9 else 1, Value)
  }

  function ExampleStream(): seq<Entry> {
    [RawEntry(AppendInternalKey([], ExampleKey(1)), []),
     RawEntry(AppendInternalKey([], ExampleKey(2)), []),
     RawEntry(AppendInternalKey([], ExampleKey(3)), [])]
  }

  lemma ExampleParses(k: byte)
    ensures var key := AppendInternalKey([], ExampleKey(k));
            && ParseInternalKey(key) == Some(ExampleKey(k)) && |key| >= 8 && ExtractUserKey(key) == [k]
  {
    AppendParts(ExampleKey(k));
    ParseUndoesAppend(ExampleKey(k));
  }

  lemma ExampleBefore(j: byte, k: byte)
    requires j < k
    ensures Compare(BytewiseCompare, AppendInternalKey([], ExampleKey(j)), AppendInternalKey([], ExampleKey(k))) < 0
  {
    AppendParts(ExampleKey(j));
    AppendParts(ExampleKey(k));
    CompareAtDifference([j], [k], 0);
  }

  lemma ExampleSorted()
    ensures Sorted(BytewiseCompare, ExampleStream())
  {
    ExampleBefore(1, 2);
    ExampleBefore(2, 3);
    ExampleBefore(1, 3);
  }

  /** A visible value, an invisible entry before it, and a visible one of a smaller key before that. */
  lemma StopsInGap(cmp: (bytes, bytes) -> int, es: seq<Entry>, snapshot: nat)
    requires |es| == 3 && Visible(es[0], snapshot) && !Visible(es[1], snapshot)
    requires Visible(es[2], snapshot) && IsValue(es[2]) && cmp(UserKey(es[0]), UserKey(es[2])) < 0
    ensures PrevShown(cmp, es, snapshot, 3, Nothing) == Stop(Saved(2), 1)
  {
    assert PrevShown(cmp, es, snapshot, 1, Saved(2)) == Stop(Saved(2), 1);
    assert PrevShown(cmp, es, snapshot, 2, Saved(2)) == Stop(Saved(2), 1);
  }

  /** A stream on which it does not: a newer entry of a smaller key lies in the gap. */
  lemma RestsEarlierExample()
    ensures var es := ExampleStream();
            && Sorted(BytewiseCompare, es)
            && PrevShown(BytewiseCompare, es, 5, 3, Nothing) == Stop(Saved(2), 1)
            && UserKey(es[1]) != UserKey(es[2])
  {
    ExampleSorted();
    ExampleParses(1);
    ExampleParses(2);
    ExampleParses(3);
    CompareAtDifference([1], [3], 0);
    StopsInGap(BytewiseCompare, ExampleStream(), 5);
  }
}
