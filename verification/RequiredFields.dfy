/** The fields_seen bitmap of pb_decode_noinit, and its check for missing required fields. */
module RequiredFields {
  import opened Words
  import opened Schema
  import opened WireDecode
  import opened FieldIters

  /** A uint32_t. */
  type Word = w: nat | w < TWO_32

  /** ~(uint32_t)0. */
  const ALL_BITS: Word := 0xFFFF_FFFF

  /** allbits >> (32 - n): exactly the low n bits. */
  function Mask(n: nat): (w: Word)
    requires n <= 32
    ensures forall k: nat :: Bit(w, k) <==> k < n
  {
    ShlValues();
    ShrBelow(ALL_BITS, 32 - n, 32);
    MaskBits(n, Shr(ALL_BITS, 32 - n));
    Shr(ALL_BITS, 32 - n)
  }

  lemma MaskBits(n: nat, w: nat)
    requires n <= 32 && w == Shr(ALL_BITS, 32 - n)
    ensures forall k: nat :: Bit(w, k) <==> k < n
  {
    ShlValues();
    forall k: nat ensures Bit(w, k) <==> k < n {
      ShrBit(ALL_BITS, 32 - n, k);
      OnesBit(32, 32 - n + k);
    }
  }

  /** w | (1 << b): bit b is set and no other changes. */
  function SetBit(w: Word, b: nat): (r: Word)
    requires b < 32
    ensures forall k: nat :: Bit(r, k) <==> Bit(w, k) || k == b
  {
    ShlValues();
    ShlGrows(1, b + 1, 32);
    OrBelow(w, Shl(1, b), 32);
    SetBits(w, b);
    Or(w, Shl(1, b))
  }

  lemma SetBits(w: nat, b: nat)
    ensures forall k: nat :: Bit(Or(w, Shl(1, b)), k) <==> Bit(w, k) || k == b
  {
    forall k: nat ensures Bit(Or(w, Shl(1, b)), k) <==> Bit(w, k) || k == b {
      OrBit(w, Shl(1, b), k);
      ShlBit(b, k);
    }
  }

  lemma WordsByBits(a: Word, b: Word)
    requires forall k: nat | k < 32 :: Bit(a, k) <==> Bit(b, k)
    ensures a == b
  {
    ShlValues();
    SameBits(a, b, 32);
  }

  lemma {:induction false} RequiredIndexGrows(fields: seq<Field>, i: nat, j: nat)
    requires i < j <= |fields|
    ensures RequiredIndex(fields, i) <= RequiredIndex(fields, j)
    ensures fields[i].rule.Required? ==> RequiredIndex(fields, i) < RequiredIndex(fields, j)
  {
    if i + 1 < j {
      RequiredIndexGrows(fields, i, j - 1);
    }
  }

  /** Every index below the count is some required field's. */
  lemma {:induction false} RequiredFieldAt(fields: seq<Field>, r: nat, n: nat) returns (i: nat)
    requires n <= |fields| && r < RequiredIndex(fields, n)
    ensures i < n && fields[i].rule.Required? && RequiredIndex(fields, i) == r
  {
    if r < RequiredIndex(fields, n - 1) {
      i := RequiredFieldAt(fields, r, n - 1);
    } else {
      i := n - 1;
    }
  }

  ghost predicate SeenAt(fields: seq<Field>, seen: set<nat>, r: nat) {
    exists i :: i in seen && i < |fields| && fields[i].rule.Required? && RequiredIndex(fields, i) == r
  }

  /** The bitmap holds exactly the required fields seen, by their required index. */
  ghost predicate Tracks(fields: seq<Field>, words: seq<Word>, seen: set<nat>) {
    |words| == 2 && forall w, b | 0 <= w < 2 && 0 <= b < 32 :: Bit(words[w], b) <==> SeenAt(fields, seen, 32 * w + b)
  }

  /** The cleared bitmap. */
  lemma StartsEmpty(fields: seq<Field>)
    ensures Tracks(fields, [0, 0], {})
  {
    forall w, b | 0 <= w < 2 && 0 <= b < 32 ensures !Bit(([0, 0])[w], b) {
      NoBits(b);
    }
  }

  /** fields_seen[index >> 5] |= 1 << (index & 31), for a required field with a tracked index. */
  method MarkSeen(fields: seq<Field>, words: seq<Word>, pos: nat, index: nat, ghost seen: set<nat>)
    returns (r: seq<Word>)
    requires pos < |fields| && index == RequiredIndex(fields, pos) && Tracks(fields, words, seen)
    ensures Tracks(fields, r, seen + {pos})
  {
    r := words;
    if fields[pos].rule.Required? && index < PB_MAX_REQUIRED_FIELDS {
      r := words[index / 32 := SetBit(words[index / 32], index % 32)];
    }
    forall w, b | 0 <= w < 2 && 0 <= b < 32
      ensures Bit(r[w], b) <==> SeenAt(fields, seen + {pos}, 32 * w + b)
    {
      MarkOne(fields, seen, pos, 32 * w + b);
      assert index == 32 * w + b <==> index / 32 == w && index % 32 == b;
    }
  }

  lemma MarkOne(fields: seq<Field>, seen: set<nat>, pos: nat, r: nat)
    requires pos < |fields|
    ensures SeenAt(fields, seen + {pos}, r) <==>
            SeenAt(fields, seen, r) || (fields[pos].rule.Required? && RequiredIndex(fields, pos) == r)
  {
  }

  /** A required index belongs to one field only. */
  lemma SeenAtIsIn(fields: seq<Field>, seen: set<nat>, i: nat)
    requires i < |fields| && fields[i].rule.Required?
    ensures SeenAt(fields, seen, RequiredIndex(fields, i)) <==> i in seen
  {
    if SeenAt(fields, seen, RequiredIndex(fields, i)) {
      var j :| j in seen && j < |fields| && fields[j].rule.Required?
               && RequiredIndex(fields, j) == RequiredIndex(fields, i);
      if j < i {
        RequiredIndexGrows(fields, j, i);
      } else if i < j {
        RequiredIndexGrows(fields, i, j);
      }
    }
  }

  /** No bit past the number of required fields is ever set. */
  lemma NoBitPastCount(fields: seq<Field>, seen: set<nat>, r: nat)
    requires r >= RequiredIndex(fields, |fields|)
    ensures !SeenAt(fields, seen, r)
  {
    forall i | i in seen && i < |fields| && fields[i].rule.Required? ensures RequiredIndex(fields, i) != r {
      RequiredIndexGrows(fields, i, |fields|);
    }
  }

  /** All of the first count bits set means all of the first 64 required fields were seen. */
  lemma AllMarked(fields: seq<Field>, seen: set<nat>, count: nat)
    requires var total := RequiredIndex(fields, |fields|);
             count == if total > PB_MAX_REQUIRED_FIELDS then PB_MAX_REQUIRED_FIELDS else total
    ensures (forall r | 0 <= r < count :: SeenAt(fields, seen, r)) <==> RequiredSeen(fields, seen)
  {
    if forall r | 0 <= r < count :: SeenAt(fields, seen, r) {
      forall i | 0 <= i < |fields| && fields[i].rule.Required? && RequiredIndex(fields, i) < PB_MAX_REQUIRED_FIELDS
        ensures i in seen
      {
        RequiredIndexGrows(fields, i, |fields|);
        SeenAtIsIn(fields, seen, i);
      }
    }
    if RequiredSeen(fields, seen) {
      forall r | 0 <= r < count ensures SeenAt(fields, seen, r) {
        var i := RequiredFieldAt(fields, r, |fields|);
        assert i in seen;
      }
    }
  }

  /** The end of pb_decode_noinit: count the required fields with the iterator, then compare whole words and the rest. */
  method CheckRequired(iter: FieldIter, words: seq<Word>, ghost seen: set<nat>) returns (ok: bool)
    requires iter.Ok() && (forall f | f in iter.fields :: f.tag != 0) && Tracks(iter.fields, words, seen)
    modifies iter
    ensures iter.Ok()
    ensures ok <==> RequiredSeen(iter.fields, seen)
  {
    var count := CountRequired(iter);
    if count > PB_MAX_REQUIRED_FIELDS {
      count := PB_MAX_REQUIRED_FIELDS;
    }
    ok := CompareWords(words, count);
    BitsAreMarks(iter.fields, words, seen, count);
    AllMarked(iter.fields, seen, count);
  }

  /** Walks to the end of the descriptor; the last field needs a fixup because its index counts only those before it. */
  method CountRequired(iter: FieldIter) returns (count: nat)
    requires iter.Ok() && (forall f | f in iter.fields :: f.tag != 0)
    modifies iter
    ensures iter.Ok() && count == RequiredIndex(iter.fields, |iter.fields|)
  {
    count := iter.requiredFieldIndex;
    var lastRequired := iter.pos >= |iter.fields| || iter.fields[iter.pos].rule.Required?;
    ghost var p := iter.pos;
    var more := iter.Next();
    while more
      invariant iter.Ok()
      invariant more ==> iter.pos == p + 1 < |iter.fields|
      invariant !more ==> p + 1 >= |iter.fields| && iter.pos == 0
      invariant iter.fields != [] ==> p < |iter.fields| && count == RequiredIndex(iter.fields, p)
                                      && lastRequired == iter.fields[p].rule.Required?
      invariant iter.fields == [] ==> count == 0
      decreases |iter.fields| - p
    {
      count := iter.requiredFieldIndex;
      lastRequired := iter.fields[iter.pos].rule.Required?;
      p := iter.pos;
      more := iter.Next();
    }
    if lastRequired && iter.CurrentTag() != 0 {
      count := count + 1;
    }
    assert iter.fields != [] ==> iter.fields[0] in iter.fields;
  }

  /** The low count bits are set, and in the last partial word nothing else. */
  predicate WordsMatch(words: seq<Word>, count: nat)
    requires |words| == 2 && count <= 64
  {
    && (forall i | 0 <= i < count / 32 :: words[i] == ALL_BITS)
    && (count % 32 != 0 ==> words[count / 32] == Mask(count % 32))
  }

  method CompareWords(words: seq<Word>, count: nat) returns (ok: bool)
    requires |words| == 2 && count <= PB_MAX_REQUIRED_FIELDS
    ensures ok <==> WordsMatch(words, count)
  {
    if count > 0 {
      for i := 0 to count / 32
        invariant forall j | 0 <= j < i :: words[j] == ALL_BITS
      {
        if words[i] != ALL_BITS {
          return false;
        }
      }
      if count % 32 != 0 {
        if words[count / 32] != Mask(count % 32) {
          return false;
        }
      }
    }
    return true;
  }

  /** One word: its low n bits are exactly the marks there, when nothing past them can be marked. */
  lemma WordIsMarks(fields: seq<Field>, words: seq<Word>, seen: set<nat>, w: nat, n: nat)
    requires Tracks(fields, words, seen) && w < 2 && n <= 32
    requires n < 32 ==> RequiredIndex(fields, |fields|) <= 32 * w + n
    ensures words[w] == Mask(n) <==> forall r | 32 * w <= r < 32 * w + n :: SeenAt(fields, seen, r)
  {
    if words[w] == Mask(n) {
      forall r | 32 * w <= r < 32 * w + n ensures SeenAt(fields, seen, r) {
        assert Bit(words[w], r - 32 * w);
      }
    }
    if forall r | 32 * w <= r < 32 * w + n :: SeenAt(fields, seen, r) {
      forall b: nat | b < 32 ensures Bit(words[w], b) <==> Bit(Mask(n), b) {
        if b >= n {
          NoBitPastCount(fields, seen, 32 * w + b);
        }
      }
      WordsByBits(words[w], Mask(n));
    }
  }

  lemma BitsAreMarks(fields: seq<Field>, words: seq<Word>, seen: set<nat>, count: nat)
    requires Tracks(fields, words, seen)
    requires var total := RequiredIndex(fields, |fields|);
             count == if total > PB_MAX_REQUIRED_FIELDS then PB_MAX_REQUIRED_FIELDS else total
    ensures WordsMatch(words, count) <==> forall r | 0 <= r < count :: SeenAt(fields, seen, r)
  {
    if count < 32 {
      WordIsMarks(fields, words, seen, 0, count);
    } else {
      WordIsMarks(fields, words, seen, 0, 32);
      WordIsMarks(fields, words, seen, 1, count - 32);
    }
    WordsByCase(words, count);
  }

  lemma WordsByCase(words: seq<Word>, count: nat)
    requires |words| == 2 && count <= 64
    ensures count < 32 ==> (WordsMatch(words, count) <==> (count == 0 || words[0] == Mask(count)))
    ensures count >= 32 ==> (WordsMatch(words, count) <==>
                             words[0] == ALL_BITS && (count == 32 || words[1] == Mask(count - 32)))
  {
  }
}
