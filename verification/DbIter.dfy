/**
 DBIter (db/db_iter.cc): the state machine that turns the internal entry stream into a
 bidirectional cursor over the snapshot's view, proved to refine SnapshotView's cursor.
 */
module DbIter {
  import opened Slices
  import opened Comparators
  import opened InternalKeys
  import opened SnapshotView
  import Scans

  /** The internal iterator: a position in a strictly sorted entry sequence (leveldb/iterator.h). */
  class InternalIterator {
    const cmp: (bytes, bytes) -> int
    const entries: seq<Entry>
    var pos: nat  // |entries| when not positioned at an entry

    ghost predicate Ordered() {
      TotalOrder(cmp) && Sorted(cmp, entries)
    }

    ghost predicate Ok()
      reads this
    {
      pos <= |entries|
    }

    constructor (cmp: (bytes, bytes) -> int, entries: seq<Entry>)
      ensures Ok() && this.cmp == cmp && this.entries == entries && pos == |entries|
    {
      this.cmp := cmp;
      this.entries := entries;
      this.pos := |entries|;
    }

    predicate Valid()
      reads this
    {
      pos < |entries|
    }

    function Current(): Entry
      requires Valid()
      reads this
    {
      entries[pos]
    }

    method SeekToFirst()
      requires Ok()
      modifies this
      ensures Ok() && pos == 0
    {
      pos := 0;
    }

    method SeekToLast()
      requires Ok()
      modifies this
      ensures Ok() && pos == if entries == [] then 0 else |entries| - 1
    {
      pos := if entries == [] then 0 else |entries| - 1;
    }

    method Next()
      requires Ok() && Valid()
      modifies this
      ensures Ok() && pos == old(pos) + 1
    {
      pos := pos + 1;
    }

    method Prev()
      requires Ok() && Valid()
      modifies this
      ensures Ok() && pos == if old(pos) == 0 then |entries| else old(pos) - 1
    {
      pos := if pos == 0 then |entries| else pos - 1;
    }

    /** Position at the first entry at or past target. */
    method Seek(target: bytes)
      requires Ok() && IsInternalKey(target)
      modifies this
      ensures Ok()
      ensures forall i | 0 <= i < pos :: Compare(cmp, entries[i].key, target) < 0
      ensures pos < |entries| ==> Compare(cmp, entries[pos].key, target) >= 0
    {
      pos := 0;
      while pos < |entries| && Compare(cmp, entries[pos].key, target) < 0
        invariant Ok()
        invariant forall i | 0 <= i < pos :: Compare(cmp, entries[i].key, target) < 0
      {
        pos := pos + 1;
      }
    }
  }

  datatype Direction = Forward | Reverse

  class DBIter {
    const iter: InternalIterator
    const snapshot: nat
    var corrupt: bool  // status_ is Corruption
    var savedKey: bytes
    var savedValue: bytes
    var direction: Direction
    var valid: bool
    ghost var cur: nat  // the stream index of the entry being shown; |entries| when not valid

    /** The list this iterator is a cursor over. */
    ghost function TheView(): seq<Pair> {
      View(iter.entries, snapshot)
    }

    /** A reported corruption is a real one. */
    ghost predicate StatusOk()
      reads this
    {
      corrupt ==> exists e :: e in iter.entries && ParseInternalKey(e.key).None?
    }

    ghost predicate Base()
      reads this, iter
    {
      iter.Ok() && snapshot <= MAX_SEQUENCE && StatusOk()
    }

    /** The number of entries up to and including the internal iterator's; 0 when it is off the stream. */
    ghost function Height(): (h: nat)
      reads iter
      requires iter.Ok()
      ensures h <= |iter.entries|
    {
      if iter.Valid() then iter.pos + 1 else 0
    }

    /**
     Forward: the internal iterator is at the shown entry. Reverse: the pair is saved, and the
     internal iterator is at the last visible entry before the shown one (or off the stream when
     there is none), so that only entries the snapshot cannot see lie in between.
     */
    ghost predicate Ok()
      reads this, iter
    {
      && Base()
      && cur <= |iter.entries|
      && (valid <==> cur < |iter.entries|)
      && (valid ==> Live(iter.entries, snapshot, cur))
      && (valid && direction == Forward ==> iter.pos == cur)
      && (valid && direction == Reverse ==> SavedAt(cur) && Scans.GapBefore(iter.entries, snapshot, Height(), cur))
    }

    ghost predicate SavedAt(i: nat)
      reads this
    {
      i < |iter.entries| && savedKey == UserKey(iter.entries[i]) && savedValue == iter.entries[i].value
    }

    /** The abstract cursor. */
    ghost function Cursor(): Cursor
      reads this
    {
      Scans.CursorAt(iter.entries, snapshot, cur)
    }

    constructor (iter: InternalIterator, snapshot: nat)
      requires iter.Ok() && snapshot <= MAX_SEQUENCE
      ensures Ok() && this.iter == iter && this.snapshot == snapshot && Cursor() == None
    {
      this.iter := iter;
      this.snapshot := snapshot;
      corrupt, valid, direction := false, false, Forward;
      savedKey, savedValue, cur := [], [], |iter.entries|;
    }

    method Key() returns (k: bytes)
      requires Ok() && valid
      ensures Cursor().Some? && Cursor().value < |TheView()| && k == TheView()[Cursor().value].key
    {
      ViewAtRank(iter.entries, snapshot, cur);
      k := if direction == Forward then ExtractUserKey(iter.Current().key) else savedKey;
    }

    method Value() returns (v: bytes)
      requires Ok() && valid
      ensures Cursor().Some? && Cursor().value < |TheView()| && v == TheView()[Cursor().value].value
    {
      ViewAtRank(iter.entries, snapshot, cur);
      v := if direction == Forward then iter.Current().value else savedValue;
    }

    /** ParseKey, without the read sampling. */
    method ParseKey() returns (r: Option<ParsedKey>)
      requires Base() && iter.Valid()
      modifies this`corrupt
      ensures Base() && r == ParseInternalKey(iter.Current().key)
      ensures corrupt == (old(corrupt) || r.None?)
    {
      r := ParseInternalKey(iter.Current().key);
      if r.None? {
        assert iter.Current() in iter.entries;
        corrupt := true;
      }
    }

    /** FindNextUserEntry: the forward loop. */
    method FindNextUserEntry(skipping0: bool, skip0: bytes)
      requires Base() && iter.Valid() && direction == Forward
      modifies this, iter
      ensures Base() && direction == Forward
      ensures cur == Scans.NextShown(iter.cmp, iter.entries, snapshot, old(iter.pos), skipping0, skip0)
      ensures (valid <==> cur < |iter.entries|) && (valid ==> iter.pos == cur)
    {
      var skipping, skip := skipping0, skip0;
      while iter.Valid()
        invariant Base() && direction == Forward
        invariant Scans.NextShown(iter.cmp, iter.entries, snapshot, iter.pos, skipping, skip)
               == Scans.NextShown(iter.cmp, iter.entries, snapshot, old(iter.pos), skipping0, skip0)
        decreases |iter.entries| - iter.pos
      {
        var ikey := ParseKey();
        if ikey.Some? && ikey.value.sequence <= snapshot {
          match ikey.value.kind {
            case Deletion =>
              skip := ikey.value.userKey;
              skipping := true;
            case Value =>
              if skipping && iter.cmp(ikey.value.userKey, skip) <= 0 {
                // Entry hidden
              } else {
                valid := true;
                savedKey := [];
                cur := iter.pos;
                return;
              }
          }
        }
        iter.Next();
      }
      savedKey := [];
      valid := false;
      cur := |iter.entries|;
    }

    method Next()
      requires Ok() && iter.Ordered() && valid
      modifies this, iter
      ensures Ok()
      ensures Cursor() == Step(iter.cmp, TheView(), old(Cursor()), SnapshotView.Next)
    {
      ghost var i := cur;
      if direction == Reverse {
        direction := Forward;
        if !iter.Valid() {
          iter.SeekToFirst();
        } else {
          iter.Next();
        }
        // db_iter.cc tests here whether the stream is exhausted; it never is.
        assert iter.Valid();
      } else {
        savedKey := ExtractUserKey(iter.Current().key);
      }
      Scans.NextFromShown(iter.cmp, iter.entries, snapshot, iter.pos, i);
      FindNextUserEntry(true, savedKey);
    }

    /** Saves the current pair, or forgets the saved one at a deletion marker. */
    method Remember(kind: ValueType)
      requires iter.Valid()
      modifies this`savedKey, this`savedValue
      ensures if kind == Deletion then savedKey == savedValue == [] else SavedAt(iter.pos)
    {
      if kind == Deletion {
        savedKey, savedValue := [], [];
      } else {
        savedKey := ExtractUserKey(iter.Current().key);
        savedValue := iter.Current().value;
      }
    }

    /** The loop function of the backward scan, over this iterator's stream. */
    ghost function Back(q: nat, c: Scans.Candidate): Scans.Stop
      requires q <= |iter.entries| && (c.Saved? ==> c.n < |iter.entries|)
    {
      Scans.PrevShown(iter.cmp, iter.entries, snapshot, q, c)
    }

    /** The saved pair is the candidate's. */
    ghost predicate Remembers(c: Scans.Candidate, valueType: ValueType)
      reads this
    {
      (c.Nothing? <==> valueType == Deletion) && (c.Saved? ==> SavedAt(c.n))
    }

    /** One turn of FindPrevUserEntry's loop, up to the step back. */
    method LookBack(valueType: ValueType, ghost c: Scans.Candidate)
      returns (stop: bool, next: ValueType, ghost c': Scans.Candidate)
      requires Base() && iter.Valid() && direction == Reverse && Remembers(c, valueType)
      modifies this
      ensures Base() && direction == Reverse && Remembers(c', next)
      ensures if stop then c' == c && Back(Height(), c) == Scans.Stop(c, Height())
              else Back(Height(), c) == Back(Height() - 1, c')
    {
      stop, next, c' := false, valueType, c;
      ghost var e := iter.Current();
      var ikey := ParseKey();
      if ikey.Some? && ikey.value.sequence <= snapshot {
        assert Visible(e, snapshot) && ikey.value.userKey == UserKey(e) && (ikey.value.kind.Value? <==> IsValue(e));
        if valueType != Deletion && iter.cmp(ikey.value.userKey, savedKey) < 0 {
          stop := true;
          return;
        }
        next := ikey.value.kind;
        Remember(next);
        c' := Scans.Look(iter.entries, iter.pos);
      } else {
        assert !Visible(e, snapshot);
      }
    }

    /** FindPrevUserEntry: the backward loop. */
    method FindPrevUserEntry()
      requires Base() && direction == Reverse
      modifies this, iter
      ensures Base()
      ensures var r := Scans.PrevShown(iter.cmp, iter.entries, snapshot, old(Height()), Scans.Nothing);
              && cur == Scans.Index(iter.entries, r.c) && (valid <==> r.c.Saved?)
              && (valid ==> direction == Reverse && Height() == r.at && SavedAt(cur))
    {
      var valueType := Deletion;
      ghost var c := Scans.Nothing;
      ghost var r := Back(Height(), c);
      while iter.Valid()
        invariant Base() && direction == Reverse && Remembers(c, valueType)
        invariant Back(Height(), c) == r
        decreases Height()
      {
        var stop;
        stop, valueType, c := LookBack(valueType, c);
        if stop {
          break;
        }
        iter.Prev();
      }
      assert r == Scans.Stop(c, Height());
      cur := Scans.Index(iter.entries, c);
      if valueType == Deletion {
        valid := false;
        savedKey, savedValue := [], [];
        direction := Forward;
      } else {
        valid := true;
      }
    }

    /** The loop by which Prev leaves the current key: back to the entries of smaller keys. */
    method LeaveKeyBackwards() returns (more: bool)
      requires Base() && iter.Valid() && direction == Forward
      modifies this, iter
      ensures Base() && cur == old(cur) && valid == old(valid)
      ensures Height() == Scans.KeyStart(iter.cmp, iter.entries, old(iter.pos), old(UserKey(iter.Current())))
      ensures more <==> iter.Valid()
      ensures direction == if more then Reverse else Forward
    {
      savedKey := ExtractUserKey(iter.Current().key);
      ghost var q := iter.pos;
      while true
        invariant Base() && iter.pos == q < |iter.entries| && direction == Forward && cur == old(cur) && valid == old(valid)
        invariant savedKey == old(UserKey(iter.Current()))
        invariant Scans.KeyStart(iter.cmp, iter.entries, q, savedKey)
               == Scans.KeyStart(iter.cmp, iter.entries, old(iter.pos), savedKey)
        decreases q
      {
        iter.Prev();
        if !iter.Valid() {
          savedKey, savedValue := [], [];
          return false;
        }
        if iter.cmp(ExtractUserKey(iter.Current().key), savedKey) < 0 {
          break;
        }
        q := q - 1;
      }
      direction := Reverse;
      return true;
    }

    method Prev()
      requires Ok() && iter.Ordered() && valid
      modifies this, iter
      ensures Ok()
      ensures Cursor() == Step(iter.cmp, TheView(), old(Cursor()), SnapshotView.Prev)
    {
      ghost var i := cur;
      if direction == Forward {
        var more := LeaveKeyBackwards();
        Scans.KeyStartGapDead(iter.cmp, iter.entries, snapshot, i, i);
        if !more {
          valid := false;
          cur := |iter.entries|;
          Scans.PrevStep(iter.cmp, iter.entries, snapshot, 0, i, cur);
          return;
        }
      }
      Scans.PrevFromShown(iter.cmp, iter.entries, snapshot, Height(), i);
      FindPrevUserEntry();
    }

    /** Builds the internal seek key in saved_key_ and positions the internal iterator. */
    method SeekInternal(target: bytes)
      requires Base() && iter.Ordered()
      modifies this`savedKey, iter
      ensures Base() && Scans.Reached(iter.cmp, iter.entries, snapshot, iter.pos, target)
    {
      savedKey := SeekKey(target, snapshot);
      AppendParts(ParsedKey(target, snapshot, InternalKeys.Value));
      iter.Seek(savedKey);
      Scans.SeekReaches(iter.cmp, iter.entries, snapshot, iter.pos, target);
    }

    /** The end of Seek and SeekToFirst. */
    method ShowFirst()
      requires Base() && direction == Forward
      modifies this, iter
      ensures Base() && direction == Forward
      ensures cur == Scans.NextShown(iter.cmp, iter.entries, snapshot, old(iter.pos), false, [])
      ensures (valid <==> cur < |iter.entries|) && (valid ==> iter.pos == cur)
    {
      if iter.Valid() {
        FindNextUserEntry(false, []);
      } else {
        valid := false;
        cur := |iter.entries|;
      }
    }

    method Seek(target: bytes)
      requires Ok() && iter.Ordered()
      modifies this, iter
      ensures Ok()
      ensures Cursor() == Step(iter.cmp, TheView(), old(Cursor()), SnapshotView.Seek(target))
    {
      direction := Forward;
      savedValue := [];
      SeekInternal(target);
      Scans.SeekFromReached(iter.cmp, iter.entries, snapshot, old(Cursor()), iter.pos, target);
      ShowFirst();
    }

    method SeekToFirst()
      requires Ok() && iter.Ordered()
      modifies this, iter
      ensures Ok()
      ensures Cursor() == Step(iter.cmp, TheView(), old(Cursor()), SnapshotView.SeekToFirst)
    {
      direction := Forward;
      savedValue := [];
      iter.SeekToFirst();
      Scans.FirstFromStart(iter.cmp, iter.entries, snapshot, old(Cursor()));
      ShowFirst();
    }

    method SeekToLast()
      requires Ok() && iter.Ordered()
      modifies this, iter
      ensures Ok()
      ensures Cursor() == Step(iter.cmp, TheView(), old(Cursor()), SnapshotView.SeekToLast)
    {
      direction := Reverse;
      savedValue := [];
      iter.SeekToLast();
      Scans.LastFromEnd(iter.cmp, iter.entries, snapshot, old(Cursor()));
      FindPrevUserEntry();
    }
  }

  /** One call on the iterator, and what the caller then sees. */
  method Perform(it: DBIter, op: Op) returns (shown: Option<Pair>)
    requires it.Ok() && it.iter.Ordered() && Legal(it.Cursor(), op)
    modifies it, it.iter
    ensures it.Ok()
    ensures it.Cursor() == Step(it.iter.cmp, it.TheView(), old(it.Cursor()), op)
    ensures shown == Shown(it.TheView(), it.Cursor())
  {
    match op {
      case Seek(target) => it.Seek(target);
      case SeekToFirst => it.SeekToFirst();
      case SeekToLast => it.SeekToLast();
      case Next => it.Next();
      case Prev => it.Prev();
    }
    if it.valid {
      var p := ShownPair(it);
      shown := Some(p);
    } else {
      shown := None;
    }
  }

  /** Every run of calls shows exactly what the plain cursor over the snapshot's view shows. */
  method Run(it: DBIter, ops: seq<Op>) returns (obs: seq<Option<Pair>>)
    requires it.Ok() && it.iter.Ordered()
    requires LegalRun(it.iter.cmp, it.TheView(), it.Cursor(), ops)
    modifies it, it.iter
    ensures it.Ok()
    ensures obs == Trace(it.iter.cmp, it.TheView(), old(it.Cursor()), ops)
  {
    obs := [];
    ghost var all := Trace(it.iter.cmp, it.TheView(), it.Cursor(), ops);
    for i := 0 to |ops|
      invariant it.Ok()
      invariant LegalRun(it.iter.cmp, it.TheView(), it.Cursor(), ops[i..])
      invariant obs + Trace(it.iter.cmp, it.TheView(), it.Cursor(), ops[i..]) == all
    {
      assert ops[i..][0] == ops[i] && ops[i..][1..] == ops[i + 1..];
      var shown := Perform(it, ops[i]);
      obs := obs + [shown];
    }
  }

  /**
   Snapshot isolation: two iterators at the same pair, over streams that agree at or below their snapshot,
   show the same on every run of calls, however many newer entries either stream holds.
   */
  method RunOnBoth(a: DBIter, b: DBIter, ops: seq<Op>) returns (x: seq<Option<Pair>>, y: seq<Option<Pair>>)
    requires a.Ok() && b.Ok() && a.iter.Ordered() && b.iter.Ordered() && a != b && a.iter != b.iter
    requires a.iter.cmp == b.iter.cmp && a.snapshot == b.snapshot && a.Cursor() == b.Cursor()
    requires AgreeUpTo(a.iter.entries, b.iter.entries, a.snapshot)
    requires LegalRun(a.iter.cmp, a.TheView(), a.Cursor(), ops)
    modifies a, a.iter, b, b.iter
    ensures a.Ok() && b.Ok() && x == y && |x| == |ops|
  {
    SnapshotIsolation(a.iter.cmp, a.iter.entries, b.iter.entries, a.snapshot, a.Cursor(), ops);
    TraceLength(a.iter.cmp, a.TheView(), a.Cursor(), ops);
    x := Run(a, ops);
    y := Run(b, ops);
  }

  /** From a valid iterator, Next and then Prev, if Next stayed valid: the key and the value are the old ones. */
  method NextThenPrev(it: DBIter) returns (stayed: bool, before: Pair, after: Pair)
    requires it.Ok() && it.iter.Ordered() && it.valid
    modifies it, it.iter
    ensures it.Ok() && (stayed <==> old(it.Cursor()).value + 1 < |it.TheView()|)
    ensures stayed ==> it.valid && after == before && it.Cursor() == old(it.Cursor())
  {
    before := ShownPair(it);
    NextAndPrevInvert(it.iter.cmp, it.TheView(), it.Cursor());
    it.Next();
    stayed, after := it.valid, before;
    if stayed {
      it.Prev();
      after := ShownPair(it);
    }
  }

  /** From a valid iterator, Prev and then Next, if Prev stayed valid: the key and the value are the old ones. */
  method PrevThenNext(it: DBIter) returns (stayed: bool, before: Pair, after: Pair)
    requires it.Ok() && it.iter.Ordered() && it.valid
    modifies it, it.iter
    ensures it.Ok() && (stayed <==> old(it.Cursor()).value > 0)
    ensures stayed ==> it.valid && after == before && it.Cursor() == old(it.Cursor())
  {
    before := ShownPair(it);
    NextAndPrevInvert(it.iter.cmp, it.TheView(), it.Cursor());
    it.Prev();
    stayed, after := it.valid, before;
    if stayed {
      it.Next();
      after := ShownPair(it);
    }
  }

  method ShownPair(it: DBIter) returns (p: Pair)
    requires it.Ok() && it.valid
    ensures it.Cursor().Some? && it.Cursor().value < |it.TheView()| && p == it.TheView()[it.Cursor().value]
  {
    var k := it.Key();
    var v := it.Value();
    p := Pair(k, v);
  }
}
