/** Worked decode blocks: concrete method bodies and what the analysis
    reports for them. */
module Scenarios {
  import opened Outcomes
  import opened Cil
  import opened FieldCatalog
  import opened Locator
  import opened Emulator
  import opened Scanner

  /** A block header: some instruction, then `ldc.i4 len; newarr`. */
  function Header(len: Int32): seq<Instr>
  {
    [Other, LdcI4(len), Newarr]
  }

  const Buffer: seq<Byte> := [0x41, 0x01, 0x02]

  const Cat: Catalog := map[7 := Some(Buffer)]

  /** A module with one type holding RVA field 7 and one method `Init`. */
  function Holder(body: seq<Instr>): seq<TypeDecl>
  {
    [TypeDecl("Ns.Holder", [FieldDecl(7, true, Some(Buffer))], [MethodDecl("Init", Some(body))])]
  }

  lemma HolderCatalog(body: seq<Instr>)
    ensures BuildCatalog(Holder(body)) == Cat
  {
    var types := Holder(body);
    var fd := FieldDecl(7, true, Some(Buffer));
    assert AllFields(types) == [fd] by {
      assert types[1..] == [];
    }
    assert CatalogOf([fd]) == Cat by {
      assert [fd][..0] == [];
    }
  }

  /** A module of one type with one method reports what that method records. */
  lemma OneMethodReport(t: TypeDecl, catalog: Catalog)
    requires |t.methods| == 1
    ensures AnalyzeTypes([t], catalog, map[]) == AnalyzeMethod(t.fullName, t.methods[0], catalog, map[])
  {
    assert t.methods[1..] == [];
    assert [t][1..] == [];
    var m := AnalyzeMethod(t.fullName, t.methods[0], catalog, map[]);
    assert AnalyzeMethods(t, t.methods, catalog, map[]) == m;
    assert AnalyzeTypes([t], catalog, map[]) == m;
  }

  /** A report that extends the empty one under a single key holds exactly
      that key's strings, if there are any. */
  lemma ExtendsEmpty(r: ResultMap, key: string, strs: seq<Utf16>)
    requires ExtendsUnder(map[], r, key, strs)
    requires r.Keys == (if strs == [] then {} else {key})
    ensures r == if strs == [] then map[] else map[key := strs]
  {
    if strs != [] {
      assert ListOf(r, key) == ListOf(map[], key) + strs;
      assert r[key] == strs;
    }
  }

  /** A method analysed into an empty report leaves exactly its own list. */
  lemma FirstMethod(typeName: string, m: MethodDecl, strs: seq<Utf16>)
    requires m.body.Some? && ScanFrom(m.body.value, Cat, 0) == Ok(strs)
    ensures AnalyzeMethod(typeName, m, Cat, map[]) ==
            Ok(if strs == [] then map[] else map[MethodKey(typeName, m.name) := strs])
  {
    assert MethodStrings(m, Cat) == strs;
    var r := AnalyzeMethod(typeName, m, Cat, map[]);
    ExtendsEmpty(r.value, MethodKey(typeName, m.name), strs);
  }

  lemma InitKey()
    ensures MethodKey("Ns.Holder", "Init") == "Ns.Holder.Init"
  {
  }

  /** `Init` records its scan under its qualified name. */
  lemma HolderMethod(body: seq<Instr>, strs: seq<Utf16>)
    requires ScanFrom(body, Cat, 0) == Ok(strs)
    ensures AnalyzeMethod("Ns.Holder", MethodDecl("Init", Some(body)), Cat, map[]) ==
            Ok(if strs == [] then map[] else map["Ns.Holder.Init" := strs])
  {
    InitKey();
    FirstMethod("Ns.Holder", MethodDecl("Init", Some(body)), strs);
  }

  /** The report for such a module is the scan of `Init`, under its key. */
  lemma HolderReport(body: seq<Instr>, strs: seq<Utf16>)
    requires ScanFrom(body, Cat, 0) == Ok(strs)
    ensures Analyze(Holder(body)) == Ok(if strs == [] then map[] else map["Ns.Holder.Init" := strs])
  {
    var t := Holder(body)[0];
    HolderCatalog(body);
    OneMethodReport(t, Cat);
    HolderMethod(body, strs);
  }

  const BodyA: seq<Instr> :=
    Header(3) + IdiomGroup(0, 7, 0x00) + IdiomGroup(1, 7, 0x60) + IdiomGroup(2, 7, 0x63) + [Other]

  /** The three groups of `BodyA` decode "Aaa" and the block stops after the
      third `xor`, where the count reaches the declared length. */
  lemma BlockA()
    ensures Emulate(BodyA, Cat, 3, 3) == Ok(Decoded([0x41, 0x61, 0x61], 18))
  {
    assert BodyA[3..8] == IdiomGroup(0, 7, 0x00);
    assert BodyA[8..13] == IdiomGroup(1, 7, 0x60);
    assert BodyA[13..18] == IdiomGroup(2, 7, 0x63);
    assert ByteXorChar(0x41, 0x00) == 0x41 && ByteXorChar(0x01, 0x60) == 0x61 && ByteXorChar(0x02, 0x63) == 0x61;
    RunIdiomGroup(BodyA, Cat, 3, 3, [], 0, 7, 0x00);
    assert [] + [ByteXorChar(Buffer[0], 0x00)] == [0x41];
    RunIdiomGroup(BodyA, Cat, 3, 8, [0x41], 1, 7, 0x60);
    assert [0x41] + [ByteXorChar(Buffer[1], 0x60)] == [0x41, 0x61];
    RunIdiomGroup(BodyA, Cat, 3, 13, [0x41, 0x61], 2, 7, 0x63);
    assert [0x41, 0x61] + [ByteXorChar(Buffer[2], 0x63)] == [0x41, 0x61, 0x61];
  }

  /** Bytes [0x41, 0x01, 0x02] with keys [0x00, 0x60, 0x63] are reported as
      the one string "Aaa" under the method's qualified name. */
  lemma ThreeCharacterBlock()
    ensures Analyze(Holder(BodyA)) == Ok(map["Ns.Holder.Init" := [[0x41, 0x61, 0x61]]])
  {
    assert BodyA[..5] == [Other, LdcI4(3), Newarr, LdcI4(0), Ldsfld(FieldDef(7))];
    assert FindStart(BodyA, 4) == Some(3);
    assert OpenWindow(BodyA, Cat, 4) == Some(Window(3, 3));
    BlockA();
    assert NextCursor(4, 18) == |BodyA|;
    assert ScanFrom(BodyA, Cat, |BodyA|) == Ok([]);
    assert [[0x41, 0x61, 0x61]] + [] == [[0x41, 0x61, 0x61]];
    assert ScanFrom(BodyA, Cat, 4) == Ok([[0x41, 0x61, 0x61]]);
    ScanSkipsNonTrigger(BodyA, Cat, 3);
    ScanSkipsNonTrigger(BodyA, Cat, 2);
    ScanSkipsNonTrigger(BodyA, Cat, 1);
    ScanSkipsNonTrigger(BodyA, Cat, 0);
    HolderReport(BodyA, [[0x41, 0x61, 0x61]]);
  }

  const BodyB: seq<Instr> :=
    Header(2) + IdiomGroup(0, 7, 0x00) + IdiomGroup(1, 7, 0x60) +
    Header(1) + IdiomGroup(2, 7, 0x63) + [Other]

  /** The first block of `BodyB` declares two characters and stops after
      its second `xor`. */
  lemma BlockB1()
    ensures OpenWindow(BodyB, Cat, 4) == Some(Window(3, 2))
    ensures Emulate(BodyB, Cat, 3, 2) == Ok(Decoded([0x41, 0x61], 13))
  {
    assert BodyB[..5] == [Other, LdcI4(2), Newarr, LdcI4(0), Ldsfld(FieldDef(7))];
    assert FindStart(BodyB, 4) == Some(3);
    assert BodyB[3..8] == IdiomGroup(0, 7, 0x00);
    assert BodyB[8..13] == IdiomGroup(1, 7, 0x60);
    assert ByteXorChar(0x41, 0x00) == 0x41 && ByteXorChar(0x01, 0x60) == 0x61;
    RunIdiomGroup(BodyB, Cat, 2, 3, [], 0, 7, 0x00);
    assert [] + [ByteXorChar(Buffer[0], 0x00)] == [0x41];
    RunIdiomGroup(BodyB, Cat, 2, 8, [0x41], 1, 7, 0x60);
    assert [0x41] + [ByteXorChar(Buffer[1], 0x60)] == [0x41, 0x61];
  }

  /** The second block is opened by the load at 17, whose nearest `newarr`
      is the second header's. */
  lemma BlockB2()
    ensures OpenWindow(BodyB, Cat, 17) == Some(Window(16, 1))
    ensures Emulate(BodyB, Cat, 16, 1) == Ok(Decoded([0x61], 21))
  {
    assert BodyB[13..18] == [Other, LdcI4(1), Newarr, LdcI4(2), Ldsfld(FieldDef(7))];
    assert FindStart(BodyB, 17) == Some(16);
    assert BodyB[16..21] == IdiomGroup(2, 7, 0x63);
    assert ByteXorChar(0x02, 0x63) == 0x61;
    RunIdiomGroup(BodyB, Cat, 1, 16, [], 2, 7, 0x63);
    assert [] + [ByteXorChar(Buffer[2], 0x63)] == [0x61];
  }

  /** From position 14 the scan finds only the second block. */
  lemma ScanBTail()
    ensures ScanFrom(BodyB, Cat, 14) == Ok([[0x61]])
  {
    BlockB2();
    assert BodyB[14..17] == [LdcI4(1), Newarr, LdcI4(2)];
    assert NextCursor(17, 21) == |BodyB|;
    assert ScanFrom(BodyB, Cat, |BodyB|) == Ok([]);
    assert [[0x61]] + [] == [[0x61]];
    assert ScanFrom(BodyB, Cat, 17) == Ok([[0x61]]);
    ScanSkipsNonTrigger(BodyB, Cat, 16);
    ScanSkipsNonTrigger(BodyB, Cat, 15);
    ScanSkipsNonTrigger(BodyB, Cat, 14);
  }

  /** Two blocks in one method are reported as two strings, in the order the
      blocks occur. After the first block the cursor jumps from the trigger at
      4 to 14, so positions 5 to 13 (the load at 9 among them) are never
      examined as triggers. */
  lemma TwoBlocksInOneMethod()
    ensures Analyze(Holder(BodyB)) == Ok(map["Ns.Holder.Init" := [[0x41, 0x61], [0x61]]])
  {
    ScanB();
    HolderReport(BodyB, [[0x41, 0x61], [0x61]]);
  }

  /** From the first trigger the scan finds the first block and resumes at 14. */
  lemma ScanBFromFirstTrigger()
    ensures ScanFrom(BodyB, Cat, 4) == Ok([[0x41, 0x61]] + [[0x61]])
  {
    BlockB1();
    ScanBTail();
    assert NextCursor(4, 13) == 14;
  }

  /** The whole scan of `BodyB`: the first block, then the second. */
  lemma ScanB()
    ensures ScanFrom(BodyB, Cat, 0) == Ok([[0x41, 0x61], [0x61]])
  {
    ScanBPrefix();
    ScanBFromFirstTrigger();
    assert [[0x41, 0x61]] + [[0x61]] == [[0x41, 0x61], [0x61]];
  }

  /** The four instructions before the first trigger of `BodyB` are passed over. */
  lemma ScanBPrefix()
    ensures ScanFrom(BodyB, Cat, 0) == ScanFrom(BodyB, Cat, 4)
  {
    assert BodyB[..4] == [Other, LdcI4(2), Newarr, LdcI4(0)];
    ScanSkipsNonTrigger(BodyB, Cat, 3);
    ScanSkipsNonTrigger(BodyB, Cat, 2);
    ScanSkipsNonTrigger(BodyB, Cat, 1);
    ScanSkipsNonTrigger(BodyB, Cat, 0);
  }

  const GroupsC: seq<Instr> := IdiomGroup(0, 7, 0x00) + IdiomGroup(1, 7, 0x60) + IdiomGroup(2, 7, 0x63) + [Other]

  const BodyC: seq<Instr> := [Other, Other, Newarr] + GroupsC

  /** Without the `ldc.i4` length before the `newarr` no block is opened and
      the method contributes nothing: the report stays empty. */
  lemma MissingLengthConstant()
    ensures Analyze(Holder(BodyC)) == Ok(map[])
  {
    assert forall x :: 0 <= x < |GroupsC| ==> !GroupsC[x].Newarr?;
    assert forall x :: 3 <= x < |BodyC| ==> BodyC[x] == GroupsC[x - 3];
    assert forall k :: 0 <= k < |BodyC| ==> OpenWindow(BodyC, Cat, k).None?;
    NoWindowNoStrings(BodyC, Cat, 0);
    HolderReport(BodyC, []);
  }

  const BodyD: seq<Instr> :=
    Header(3) + IdiomGroup(0, 7, 0x00) + IdiomGroup(1, 7, 0x60) +
    [LdcI4(2), Ldsfld(FieldDef(7)), LdcI4(2), Ldsfld(FieldDef(7)), Other]

  /** The block of `BodyD` decodes two characters and stops one past the
      second field load, which arrives while a byte is pending. */
  lemma BlockD()
    ensures OpenWindow(BodyD, Cat, 4) == Some(Window(3, 3))
    ensures Emulate(BodyD, Cat, 3, 3) == Ok(Decoded([0x41, 0x61], 17))
  {
    assert BodyD[3..8] == IdiomGroup(0, 7, 0x00);
    assert BodyD[8..13] == IdiomGroup(1, 7, 0x60);
    assert ByteXorChar(0x41, 0x00) == 0x41 && ByteXorChar(0x01, 0x60) == 0x61;
    assert BodyD[..5] == [Other, LdcI4(3), Newarr, LdcI4(0), Ldsfld(FieldDef(7))];
    assert FindStart(BodyD, 4) == Some(3);
    assert OpenWindow(BodyD, Cat, 4) == Some(Window(3, 3));
    RunIdiomGroup(BodyD, Cat, 3, 3, [], 0, 7, 0x00);
    assert [] + [ByteXorChar(Buffer[0], 0x00)] == [0x41];
    RunIdiomGroup(BodyD, Cat, 3, 8, [0x41], 1, 7, 0x60);
    assert [0x41] + [ByteXorChar(Buffer[1], 0x60)] == [0x41, 0x61];
    RunSkipsInert(BodyD, Cat, 3, 13, None, [0x41, 0x61]);
    assert Run(BodyD, Cat, 3, 14, None, [0x41, 0x61]) == Run(BodyD, Cat, 3, 15, Some(0x02), [0x41, 0x61]);
    RunSkipsInert(BodyD, Cat, 3, 15, Some(0x02), [0x41, 0x61]);
    RunBreaks(BodyD, Cat, 3, 16, Some(0x02), [0x41, 0x61]);
  }

  /** A block that decodes two of its three characters and then meets a
      second field load while a byte is pending is reported with the two
      characters it has. */
  lemma PartialBlock()
    ensures Analyze(Holder(BodyD)) == Ok(map["Ns.Holder.Init" := [[0x41, 0x61]]])
  {
    BlockD();
    assert NextCursor(4, 17) == |BodyD|;
    assert ScanFrom(BodyD, Cat, |BodyD|) == Ok([]);
    assert [[0x41, 0x61]] + [] == [[0x41, 0x61]];
    assert ScanFrom(BodyD, Cat, 4) == Ok([[0x41, 0x61]]);
    ScanSkipsNonTrigger(BodyD, Cat, 3);
    ScanSkipsNonTrigger(BodyD, Cat, 2);
    ScanSkipsNonTrigger(BodyD, Cat, 1);
    ScanSkipsNonTrigger(BodyD, Cat, 0);
    HolderReport(BodyD, [[0x41, 0x61]]);
  }

  const BodyO: seq<Instr> := Header(1) + [LdcI4S(0x41), StelemI2] + IdiomGroup(0, 7, 0x00)

  /** The declared length is compared only after an `xor`: a literal store
      that completes a one-character block goes unnoticed, and the following
      group is decoded into the same block, giving two characters. */
  lemma LiteralStoreOverrunsLength()
    ensures Emulate(BodyO, Cat, 3, 1) == Ok(Decoded([0x41, 0x41], 10))
    ensures |Emulate(BodyO, Cat, 3, 1).value.chars| > 1
  {
    assert BodyO[5..10] == IdiomGroup(0, 7, 0x00);
    assert LiteralChar(0x41) == 0x41 && ByteXorChar(0x41, 0x00) == 0x41;
    RunSkipsInert(BodyO, Cat, 1, 3, None, []);
    RunLiteral(BodyO, Cat, 1, 4, None, [], 0x41);
    assert [] + [LiteralChar(0x41)] == [0x41];
    RunIdiomGroup(BodyO, Cat, 1, 5, [0x41], 0, 7, 0x00);
    assert [0x41] + [ByteXorChar(Buffer[0], 0x00)] == [0x41, 0x41];
    assert Run(BodyO, Cat, 1, 10, None, [0x41, 0x41]) == Ok(Decoded([0x41, 0x41], 10));
  }

  const BodyZ: seq<Instr> := [Other, LdcI4(0), Newarr] + IdiomGroup(0, 7, 0x00) + IdiomGroup(1, 7, 0x60)

  /** The length test is an equality, and after an `xor` the count is at
      least one, so a block declaring no characters never stops on length:
      it decodes every group up to the end of the body, with no literal
      store involved. */
  lemma ZeroLengthNeverStops()
    ensures Emulate(BodyZ, Cat, 3, 0) == Ok(Decoded([0x41, 0x61], 13))
    ensures !LiteralStoreIn(BodyZ, 3, 13)
  {
    assert BodyZ[3..8] == IdiomGroup(0, 7, 0x00);
    assert BodyZ[8..13] == IdiomGroup(1, 7, 0x60);
    assert ByteXorChar(0x41, 0x00) == 0x41 && ByteXorChar(0x01, 0x60) == 0x61;
    RunIdiomGroup(BodyZ, Cat, 0, 3, [], 0, 7, 0x00);
    assert [] + [ByteXorChar(Buffer[0], 0x00)] == [0x41];
    RunIdiomGroup(BodyZ, Cat, 0, 8, [0x41], 1, 7, 0x60);
    assert [0x41] + [ByteXorChar(Buffer[1], 0x60)] == [0x41, 0x61];
    assert forall x :: 0 <= x < |BodyZ| ==> !BodyZ[x].LdcI4S?;
  }
}
