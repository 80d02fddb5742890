/**
 The field iterator of pb_common.c: a cyclic walk over a descriptor that keeps running pointers
 from delta-encoded offsets, and the layout macros of pb.h that produce those deltas.
 */
module FieldIters {
  import opened Slices
  import opened Schema
  import opened WireDecode

  // ---- Running offsets ----

  /** Size of a field's member in the struct. */
  function MemberSize(f: Field): nat {
    if f.rule.Repeated? then f.dataSize * f.arraySize else f.dataSize
  }

  /** pb_field_iter_next takes this step as staying inside a union. */
  predicate StaysInUnion(prev: Field, next: Field) {
    prev.rule.OneOf? && next.rule.OneOf? && next.dataOffset == PB_SIZE_MAX
  }

  /** The data offset the iterator holds at field i. */
  function DataOffset(fields: seq<Field>, i: nat): nat
    requires i < |fields|
  {
    if i == 0 then fields[0].dataOffset
    else if StaysInUnion(fields[i - 1], fields[i]) then DataOffset(fields, i - 1)
    else DataOffset(fields, i - 1) + MemberSize(fields[i - 1]) + fields[i].dataOffset
  }

  /** The offset of has_, _count or which_ the iterator holds at field i. */
  function SizeOffset(fields: seq<Field>, i: nat): int
    requires i < |fields|
  {
    if i > 0 && StaysInUnion(fields[i - 1], fields[i]) then SizeOffset(fields, i - 1)
    else DataOffset(fields, i) + fields[i].sizeOffset
  }

  // ---- The layout macros ----

  /** Where the compiler put field i: its data and their sizeof, and the member that counts or selects it. */
  datatype Member = Member(data: nat, length: nat, size: int)

  /** A later member of the oneof that field i - 1 belongs to (placement UNION). */
  predicate UnionPlacement(fields: seq<Field>, i: nat)
    requires i < |fields|
  {
    i > 0 && fields[i].rule.OneOf? && fields[i - 1].rule == fields[i].rule
  }

  /** sizeof an array of n entries. */
  function SizeOfArray(entry: nat, n: nat): nat {
    if n == 0 then 0 else SizeOfArray(entry, n - 1) + entry
  }

  lemma {:induction false} SizeIsProduct(entry: nat, n: nat)
    ensures SizeOfArray(entry, n) == entry * n
  {
    if n > 0 {
      SizeIsProduct(entry, n - 1);
      assert entry * n == entry * (n - 1) + entry;
    }
  }

  /** PB_DATAOFFSET_FIRST, _OTHER or _UNION, pb_delta for the size offset, and pb_membersize and pb_arraysize. */
  predicate BuiltByMacros(fields: seq<Field>, layout: seq<Member>, i: nat)
    requires i < |fields| == |layout|
  {
    && fields[i].sizeOffset == layout[i].size - layout[i].data
    && layout[i].length == (if fields[i].rule.Repeated? then SizeOfArray(fields[i].dataSize, fields[i].arraySize) else fields[i].dataSize)
    && if i == 0 then fields[i].dataOffset == layout[i].data
       else if UnionPlacement(fields, i) then
         fields[i].dataOffset == PB_SIZE_MAX && layout[i].data == layout[i - 1].data && layout[i].size == layout[i - 1].size
       else
         fields[i].dataOffset == layout[i].data - layout[i - 1].data - layout[i - 1].length
  }

  /** Two adjacent oneofs exactly PB_SIZE_MAX bytes apart cannot be told from one oneof. */
  predicate AmbiguousGap(fields: seq<Field>, i: nat)
    requires i < |fields|
  {
    i > 0 && !UnionPlacement(fields, i) && StaysInUnion(fields[i - 1], fields[i])
  }

  ghost predicate MacroDescriptor(fields: seq<Field>, layout: seq<Member>) {
    |fields| == |layout| && forall i | 0 <= i < |fields| :: BuiltByMacros(fields, layout, i)
  }

  lemma {:induction false} RunningOffset(fields: seq<Field>, layout: seq<Member>, i: nat)
    requires MacroDescriptor(fields, layout) && i < |fields|
    requires forall j | 0 <= j < |fields| :: !AmbiguousGap(fields, j)
    ensures DataOffset(fields, i) == layout[i].data && SizeOffset(fields, i) == layout[i].size
  {
    assert BuiltByMacros(fields, layout, i) && !AmbiguousGap(fields, i);
    if i > 0 {
      assert BuiltByMacros(fields, layout, i - 1);
      SizeIsProduct(fields[i - 1].dataSize, fields[i - 1].arraySize);
      RunningOffset(fields, layout, i - 1);
    }
  }

  /** An ambiguous gap leaves the pointer behind. */
  lemma GapMisplaces(fields: seq<Field>, layout: seq<Member>, i: nat)
    requires MacroDescriptor(fields, layout) && i < |fields| && AmbiguousGap(fields, i)
    requires DataOffset(fields, i - 1) == layout[i - 1].data
    ensures DataOffset(fields, i) != layout[i].data
  {
    assert BuiltByMacros(fields, layout, i) && BuiltByMacros(fields, layout, i - 1);
  }

  /**
   The running data pointer is the true address of every field, unions and arrays included, iff no
   two adjacent oneofs lie exactly PB_SIZE_MAX bytes apart; then the size pointer is right as well.
   */
  lemma RunningOffsetsAreAbsolute(fields: seq<Field>, layout: seq<Member>)
    requires MacroDescriptor(fields, layout)
    ensures (forall i | 0 <= i < |fields| :: DataOffset(fields, i) == layout[i].data)
            <==> (forall i | 0 <= i < |fields| :: !AmbiguousGap(fields, i))
    ensures (forall i | 0 <= i < |fields| :: !AmbiguousGap(fields, i)) ==>
              forall i | 0 <= i < |fields| :: SizeOffset(fields, i) == layout[i].size
  {
    if i :| 0 <= i < |fields| && AmbiguousGap(fields, i) {
      if DataOffset(fields, i - 1) == layout[i - 1].data {
        GapMisplaces(fields, layout, i);
      }
    } else {
      forall i | 0 <= i < |fields|
        ensures DataOffset(fields, i) == layout[i].data && SizeOffset(fields, i) == layout[i].size
      {
        RunningOffset(fields, layout, i);
      }
    }
  }

  /** Two oneofs of one member each, PB_SIZE_MAX bytes apart. */
  function GapFields(): seq<Field> {
    [Field(1, OneOf(0), Varint, 0, -4, 4, 0, None), Field(2, OneOf(1), Varint, PB_SIZE_MAX, -4, 4, 0, None)]
  }

  function GapLayout(): seq<Member> {
    [Member(0, 4, -4), Member(4 + PB_SIZE_MAX, 4, PB_SIZE_MAX)]
  }

  /** The macros build them, and the second is taken for a part of the first: its pointer stays behind. */
  lemma AmbiguousGapExample()
    ensures MacroDescriptor(GapFields(), GapLayout()) && AmbiguousGap(GapFields(), 1)
    ensures DataOffset(GapFields(), 1) == GapLayout()[0].data != GapLayout()[1].data
  {
    assert DataOffset(GapFields(), 1) == DataOffset(GapFields(), 0);
  }

  // ---- The iterator ----

  class FieldIter {
    const fields: seq<Field>
    const destStruct: int
    var pos: nat  // the terminator's position, 0, for an empty descriptor
    var requiredFieldIndex: nat
    var pData: int
    var pSize: int

    ghost predicate Ok()
      reads this
    {
      if fields == [] then pos == 0 && requiredFieldIndex == 0
      else
        && pos < |fields|
        && requiredFieldIndex == RequiredIndex(fields, pos)
        && pData == destStruct + DataOffset(fields, pos)
        && pSize == destStruct + SizeOffset(fields, pos)
    }

    /** The tag at the current position; the terminator has tag 0. */
    function CurrentTag(): nat
      reads this
    {
      if pos < |fields| then fields[pos].tag else 0
    }

    /** pb_field_iter_begin. */
    constructor (fields: seq<Field>, destStruct: int)
      ensures Ok() && pos == 0 && this.fields == fields && this.destStruct == destStruct
    {
      this.fields := fields;
      this.destStruct := destStruct;
      pos := 0;
      requiredFieldIndex := 0;
      pData := destStruct + if fields == [] then 0 else fields[0].dataOffset;
      pSize := destStruct + if fields == [] then 0 else fields[0].dataOffset + fields[0].sizeOffset;
    }

    /** pb_field_iter_begin again, when the walk wraps. */
    method Begin()
      modifies this
      ensures Ok() && pos == 0
    {
      pos := 0;
      requiredFieldIndex := 0;
      if fields != [] {
        pData := destStruct + fields[0].dataOffset;
        pSize := pData + fields[0].sizeOffset;
      }
    }

    /** pb_field_iter_next: the cyclic successor, false when it wraps. */
    method Next() returns (more: bool)
      requires Ok() && forall f | f in fields :: f.tag != 0
      modifies this
      ensures Ok()
      ensures more <==> old(pos) + 1 < |fields|
      ensures pos == if more then old(pos) + 1 else 0
    {
      if CurrentTag() == 0 {
        return false;
      }
      var prev := fields[pos];
      pos := pos + 1;
      if CurrentTag() == 0 {
        Begin();
        return false;
      }
      if StaysInUnion(prev, fields[pos]) {
        return true;
      }
      var prevSize := prev.dataSize;
      if prev.rule.Repeated? {
        prevSize := prevSize * prev.arraySize;
      }
      if prev.rule.Required? {
        requiredFieldIndex := requiredFieldIndex + 1;
      }
      pData := pData + prevSize + fields[pos].dataOffset;
      pSize := pData + fields[pos].sizeOffset;
      return true;
    }

    /** The position after k steps from start. */
    ghost function Cyclic(start: nat, k: nat): nat {
      if start + k < |fields| then start + k else start + k - |fields|
    }

    /**
     pb_field_iter_find: from any position, one full cycle at most. True with the iterator on the
     field with this tag; false, back at the start, when no field has it. On an empty descriptor
     the terminator itself matches tag 0.
     */
    method Find(tag: nat) returns (found: bool)
      requires Ok() && forall f | f in fields :: f.tag != 0
      modifies this
      ensures Ok()
      ensures found <==> (exists f :: f in fields && f.tag == tag) || (fields == [] && tag == 0)
      ensures found ==> CurrentTag() == tag
      ensures !found ==> pos == old(pos)
    {
      var start := pos;
      ghost var k := 0;
      while true
        invariant Ok() && k < (if fields == [] then 1 else |fields|)
        invariant fields != [] ==> pos == Cyclic(start, k)
        invariant forall j | 0 <= j < k :: fields[Cyclic(start, j)].tag != tag
        decreases |fields| - k
      {
        if CurrentTag() == tag {
          assert fields != [] ==> fields[pos] in fields;
          return true;
        }
        var more := Next();
        k := k + 1;
        if pos == start {
          break;
        }
      }
      assert forall i | 0 <= i < |fields| :: fields[i].tag != tag by {
        forall i | 0 <= i < |fields| ensures fields[i].tag != tag {
          var j := if start <= i then i - start else i - start + |fields|;
          assert Cyclic(start, j) == i;
        }
      }
      return false;
    }
  }
}
