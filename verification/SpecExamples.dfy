/** The examples of the Protocol Buffers Encoding specification, byte for byte, as well-formed descriptors and sound structs. */
module SpecExamples {
  import opened Slices
  import opened Words
  import V = Varints
  import opened Schema
  import opened WireFormat
  import opened WireDecode
  import opened Soundness
  import opened MessageRoundTrip

  lemma OneField(f: Field, slot: Slot)
    ensures EncMsg([f], Msg([slot], map[])) == EncField(f, slot, 0)
  {
    var fields, m := [f], Msg([slot], map[]);
    var e := EncField(f, slot, 0);
    assert UnionTag(f, m) == 0 && SlotAt(m, 0) == slot;
    assert EncPrefix(fields, m, 0) == Some([]);
    assert EncPrefix(fields, m, 1) == Concat(Some([]), e);
    assert e.Some? ==> [] + e.value == e.value;
  }

  lemma OneSound(f: Field, slot: Slot)
    requires WfField(f) && SoundSlot(f, slot, 0) && !f.rule.OneOf?
    ensures WfFields([f]) && SoundMsg([f], Msg([slot], map[]))
  {
    var fields, m := [f], Msg([slot], map[]);
    assert forall i | 0 <= i < |fields| :: fields[i] == f && m.slots[i] == slot && UnionTag(fields[i], m) == 0;
  }

  lemma TwoBytes(n: nat)
    requires 128 <= n < 0x4000
    ensures V.EncodeVarint(n) == [n % 128 + 128, n / 128]
  {
    assert V.EncodeVarint(n / 128) == [n / 128];
  }

  lemma ThreeBytes(n: nat)
    requires 0x4000 <= n < 0x20_0000
    ensures V.EncodeVarint(n) == [n % 128 + 128, n / 128 % 128 + 128, n / 0x4000]
  {
    TwoBytes(n / 128);
    assert n / 128 / 128 == n / 0x4000;
  }

  // ---- Test1 { int32 a = 1; } with a = 150: 08 96 01 ----

  function Test1(): Field {
    Field(1, Optional, Varint, 4, -4, 4, 0, None)
  }

  lemma Test1Encodes()
    ensures WfFields([Test1()]) && SoundMsg([Test1()], Msg([Opt(true, Num(150))], map[]))
    ensures EncMsg([Test1()], Msg([Opt(true, Num(150))], map[])) == Some([0x08, 0x96, 0x01])
  {
    var f, slot := Test1(), Opt(true, Num(150));
    assert DescribedField(f) && WfField(f) && SoundVal(f, slot.v);
    OneSound(f, slot);
    OneField(f, slot);
    TwoBytes(150);
    assert EncodeTag(0, 1) == [0x08];
    assert EncVal(f, slot.v) == Some([0x96, 0x01]);
    assert [0x08] + [0x96, 0x01] == [0x08, 0x96, 0x01];
  }

  // ---- Test2 { string b = 2; } with b = "testing": 12 07 74 65 73 74 69 6e 67 ----

  function Test2(): Field {
    Field(2, Optional, String, 4, -4, 8, 0, None)
  }

  function Testing(): bytes {
    [0x74, 0x65, 0x73, 0x74, 0x69, 0x6e, 0x67]
  }

  lemma TestingEnds()
    ensures StrLen(Testing() + [0]) == 7 && (Testing() + [0])[..7] == Testing()
  {
    var s := Testing() + [0];
    assert s[7] == 0 && forall i | 0 <= i < 7 :: s[i] != 0;
    assert StrLen(s) <= 7;
  }

  lemma Test2Encodes()
    ensures WfFields([Test2()]) && SoundMsg([Test2()], Msg([Opt(true, Chars(Testing() + [0]))], map[]))
    ensures EncMsg([Test2()], Msg([Opt(true, Chars(Testing() + [0]))], map[])) == Some([0x12, 0x07] + Testing())
  {
    var f, slot := Test2(), Opt(true, Chars(Testing() + [0]));
    TestingEnds();
    assert DescribedField(f) && WfField(f) && SoundVal(f, slot.v);
    OneSound(f, slot);
    OneField(f, slot);
    assert EncodeTag(2, 2) == [0x12];
    assert EncVal(f, slot.v) == Some([0x07] + Testing());
    assert [0x12] + ([0x07] + Testing()) == [0x12, 0x07] + Testing();
  }

  // ---- Test4 { repeated int32 d = 4 [packed=true]; } with 3, 270, 86942: 22 06 03 8e 02 9e a7 05 ----

  function Test4(): Field {
    Field(4, Repeated, Varint, 4, -4, 4, 3, None)
  }

  function Test4Items(): seq<Val> {
    [Num(3), Num(270), Num(86942)]
  }

  lemma AddItem(f: Field, items: seq<Val>, n: nat, a: bytes, b: bytes)
    requires n < |items| && EncItems(f, items, n) == Some(a) && EncVal(f, items[n]) == Some(b)
    ensures EncItems(f, items, n + 1) == Some(a + b)
  {
  }

  lemma Test4Body()
    ensures EncItems(Test4(), Test4Items(), 3) == Some([0x03, 0x8e, 0x02, 0x9e, 0xa7, 0x05])
  {
    var f, items := Test4(), Test4Items();
    TwoBytes(270);
    ThreeBytes(86942);
    assert EncVal(f, items[0]) == Some([0x03]);
    assert EncVal(f, items[1]) == Some([0x8e, 0x02]);
    assert EncVal(f, items[2]) == Some([0x9e, 0xa7, 0x05]);
    assert [] + [0x03] == [0x03] && [0x03] + [0x8e, 0x02] == [0x03, 0x8e, 0x02];
    assert [0x03, 0x8e, 0x02] + [0x9e, 0xa7, 0x05] == [0x03, 0x8e, 0x02, 0x9e, 0xa7, 0x05];
    AddItem(f, items, 0, [], [0x03]);
    AddItem(f, items, 1, [0x03], [0x8e, 0x02]);
    AddItem(f, items, 2, [0x03, 0x8e, 0x02], [0x9e, 0xa7, 0x05]);
  }

  lemma Test4Sound()
    ensures WfFields([Test4()]) && SoundMsg([Test4()], Msg([Rep(3, Test4Items())], map[]))
  {
    var f, items := Test4(), Test4Items();
    assert DescribedField(f) && WfField(f);
    assert forall k | 0 <= k < 3 :: SoundVal(f, items[k]);
    OneSound(f, Rep(3, items));
  }

  lemma Test4Record()
    ensures EncArray(Test4(), 3, Test4Items()) == Some([0x22, 0x06, 0x03, 0x8e, 0x02, 0x9e, 0xa7, 0x05])
  {
    Test4Body();
    var body: bytes := [0x03, 0x8e, 0x02, 0x9e, 0xa7, 0x05];
    assert EncodeTag(2, 4) == [0x22];
    assert EncodeString(body) == [0x06] + body;
    assert [0x22] + ([0x06] + body) == [0x22, 0x06, 0x03, 0x8e, 0x02, 0x9e, 0xa7, 0x05];
  }

  lemma Test4Encodes()
    ensures WfFields([Test4()]) && SoundMsg([Test4()], Msg([Rep(3, Test4Items())], map[]))
    ensures EncMsg([Test4()], Msg([Rep(3, Test4Items())], map[])) ==
            Some([0x22, 0x06, 0x03, 0x8e, 0x02, 0x9e, 0xa7, 0x05])
  {
    Test4Sound();
    OneField(Test4(), Rep(3, Test4Items()));
    Test4Record();
  }

  // ---- Test3 { Test1 c = 3; } with c.a = 150: 1a 03 08 96 01 ----

  function Test3(): Field {
    Field(3, Optional, Submessage([Test1()]), 4, -4, 8, 0, None)
  }

  lemma Test3Encodes()
    ensures WfFields([Test3()])
    ensures SoundMsg([Test3()], Msg([Opt(true, Sub(Msg([Opt(true, Num(150))], map[])))], map[]))
    ensures EncMsg([Test3()], Msg([Opt(true, Sub(Msg([Opt(true, Num(150))], map[])))], map[])) ==
            Some([0x1a, 0x03, 0x08, 0x96, 0x01])
  {
    var inner := Msg([Opt(true, Num(150))], map[]);
    var f, slot := Test3(), Opt(true, Sub(inner));
    Test1Encodes();
    assert DescribedField(f) && WfField(f) && SoundVal(f, slot.v);
    OneSound(f, slot);
    OneField(f, slot);
    assert EncodeTag(2, 3) == [0x1a];
    assert EncodeString([0x08, 0x96, 0x01]) == [0x03, 0x08, 0x96, 0x01];
    assert [0x1a] + [0x03, 0x08, 0x96, 0x01] == [0x1a, 0x03, 0x08, 0x96, 0x01];
  }
}
