# DecryptZTStrings decoder core, in Dafny

This project models the string-recovery core of DecryptZTStrings. The tool
reads a .NET module whose string literals were hidden by an obfuscator. Each
hidden string is rebuilt at run time by a small IL idiom: allocate a `char[]`,
then for every character load a byte from a static field with RVA (embedded)
initial data, XOR it with a constant and store it. The tool recognises that
idiom in every method body and replays it symbolically. It reports the
recovered strings per method.

The model covers the four parts of `Main` in `DecryptZTStrings/Program.cs`:

- **Field catalog** (`FieldCatalog`, lines 19-27): every field with RVA data
  is mapped to its initial value. Identity is by field, not by name.
- **Window locator** (`Locator`, lines 33-55): a trigger is a
  `ldsfld`/`ldsflda` of a catalogued field. The backward walk finds the
  nearest `newarr` before the trigger. The declared length is the `ldc.i4`
  directly before that `newarr`, and it must not sit at position 0.
- **Emulator** (`Emulator`, lines 57-132): the forward loop keeps one
  optional pending byte. It produces characters from a catalog byte XOR a
  constant, from a constant XOR a constant, or from a literal
  `ldc.i4.s; stelem.i2`. It stops when an `xor` brings the count to the
  declared length, or at the first mismatch.
- **Scan and aggregation** (`Scanner`, lines 29-31 and 134-145): non-empty
  decodings are appended to the list under `DeclaringType.FullName + "." +
  Name`. The list is created on first use. The cursor resumes at
  `Max(i + 1, j)` and then the loop adds one more.

`Outcomes` holds `Option` and `Result`. `Cil` holds the instruction
datatype and the C# integer and `char` conversions. `Scenarios` holds worked
bodies and what the analysis reports for them.

Modelling choices:

- An instruction body is a `seq<Instr>`. Opcodes the decoder does not single
  out are all `Other`. This includes `ldc.i4.0` .. `ldc.i4.8` and
  `ldc.i4.m1`, which the code does not accept as constants.
- Characters are UTF-16 code units (`Char16`, 0..0xFFFF), not Dafny `char`.
  `(char)` keeps the low 16 bits of the 32-bit XOR. `(sbyte)` literals are
  sign-extended before that cut.
- An exception the code would raise is a `Crash` outcome. This covers a null
  initial value (line 24, read at line 82) and an out-of-range index
  (line 82). The exception is never caught, so a `Crash` ends the whole
  analysis with no report. `Analyze` states that a crash needs some faulting
  load, so a module without one always yields a report.
- Functions are deterministic, so running the analysis twice on the same
  module gives the same report.

Behaviour of the code that the model keeps as written:

- A field with RVA data whose bytes cannot be read is stored with its null
  initial value. Line 23 computes an empty-buffer fallback, but line 24
  stores `field.InitialValue` instead. A later load of that field then raises
  at line 82 (`Crash(NullReference)` in `Emulator.Run`).
- The count is compared with the declared length only after an `xor`
  (line 126). A literal store at lines 89-100 is never followed by that test.
  So a literal store can complete a block unnoticed, and the following
  groups are decoded into the same block until a mismatch or the end of the
  body (`Scenarios.LiteralStoreOverrunsLength`). For a block that declares at
  least one character, `Emulator.EmulateLengthBound` shows that it can only
  exceed its declared length when a literal store lies inside it.
- The test at line 126 is an equality. A block whose count has already
  passed its declared length, or whose declared length is zero or negative,
  therefore never stops on length: it runs on to the first mismatch or the
  end of the body (`Scenarios.ZeroLengthNeverStops`).
- After a block the cursor is set to `Max(i + 1, j)` (line 145), and the
  `for` loop's `i++` (line 33) then moves it one further. The instruction at
  `Max(i + 1, j)` is therefore never examined as a trigger
  (`Scanner.NextCursor`, `Scenarios.TwoBlocksInOneMethod`).
- Emulation starts at `start`, one past the `newarr` (lines 43-48 and 61),
  not at the `newarr` itself.
- The pending byte `fieldVal` is declared inside each block (line 57) and
  cleared again at line 144. So `Emulate` always starts with nothing pending,
  and no byte carries over from one block to the next.
- Two different types can produce the same key: the key is
  `DeclaringType.FullName + "." + Name` (line 137), so the type `A.B` with
  method `C` and the type `A` with method `B.C` share one list
  (`Scanner.MethodKeysCanCollide`).

## Model

| member | source | states |
|---|---|---|
| `Cil.LiteralChar` | DecryptZTStrings/Program.cs:90-98 | a literal store yields the sign-extended `sbyte` cut to 16 bits: non-negative values unchanged, negative ones wrapped to `0x10000 + v` |
| `Cil.ByteXorChar` | DecryptZTStrings/Program.cs:112 | the body is the definition of `(char)(fieldVal ^ k)`: the byte widened without sign extension, XORed with the key's 32-bit pattern, cut to the low 16 bits; the ensures states only the sanity case that a zero key gives back the byte |
| `Cil.ByteActsAsConstant` | DecryptZTStrings/Program.cs:112-122 | the field byte is promoted to `int` without sign extension, so a pending byte XORed with a key gives the same character as a constant of the byte's value XORed with that key at line 122 |
| `Cil.ConstXorChar` | DecryptZTStrings/Program.cs:122 | the body is the definition of `(char)(xorVal2 ^ xorVal1)`: the low 16 bits of the XOR of the two 32-bit patterns; the ensures states only the sanity case that equal constants give the character 0 |
| `FieldCatalog.AllFields` | DecryptZTStrings/Program.cs:19-21 | the fields visited are exactly the fields of the enumerated types |
| `FieldCatalog.CatalogOf` | DecryptZTStrings/Program.cs:21-25 | an identity has an entry iff some visited field with that identity has RVA data, and the entry is the initial value of such a field |
| `FieldCatalog.BuildCatalog` | DecryptZTStrings/Program.cs:19-27 | the catalog's keys are exactly the RVA fields of the module; fields without RVA data never appear; each value is such a field's initial value |
| `FieldCatalog.CatalogStoresInitialValue` | DecryptZTStrings/Program.cs:22-24 | with identity by reference, an RVA field maps to its own initial value (null included) and a non-RVA field is absent |
| `Locator.FindStart` | DecryptZTStrings/Program.cs:38-48 | the backward walk finds a start iff some `newarr` precedes the trigger; the start is one past the nearest one and no `newarr` lies between it and the trigger |
| `Locator.OpenWindow` | DecryptZTStrings/Program.cs:36-55 | a block opens iff the instruction loads a catalogued field and the nearest preceding `newarr` has a plain `ldc.i4` two before the start, at index 1 or later; that constant is the declared length |
| `Emulator.Run` | DecryptZTStrings/Program.cs:62-132 | the forward loop ends; characters are only ever appended; the cursor ends strictly past its start and at most one past the body; a crash needs a faulting catalogued load |
| `Emulator.AfterXor` | DecryptZTStrings/Program.cs:124-128 | after an `xor` at `j` the cursor moves at least to `j + 2`, past the skipped store, and the characters so far are kept; when the count equals the declared length the block ends right there with cursor `j + 2` |
| `Emulator.Emulate` | DecryptZTStrings/Program.cs:57-62 | a block starting inside the body ends strictly after its start and at most one past the body |
| `Emulator.RunProvenance` | DecryptZTStrings/Program.cs:62-132 | every character is a literal, a constant XOR a constant, or exactly one catalog byte loaded in the block XOR a constant, produced before the stopping position |
| `Emulator.EmulateProvenance` | DecryptZTStrings/Program.cs:57-132 | the same provenance for a whole block from its start |
| `Emulator.RunBreaks` | DecryptZTStrings/Program.cs:65-120 | each mismatch ends the block one past it and keeps the characters already produced: a second field load while a byte is pending, an uncatalogued or foreign field, a missing index, store or XOR operand |
| `Emulator.RunSkipsInert` | DecryptZTStrings/Program.cs:129-131 | any other instruction is stepped over and the pending byte survives it |
| `Emulator.RunLiteral` | DecryptZTStrings/Program.cs:89-100 | `ldc.i4.s v; stelem.i2` appends `(char)(sbyte)v`, clears the pending byte, moves on by one and skips the length test |
| `Emulator.RunXorPending` | DecryptZTStrings/Program.cs:101-128 | `ldc.i4 k1; xor` with pending byte `b` appends `(char)(b ^ k1)` and moves on by two with nothing pending, stopping if the count equals the declared length |
| `Emulator.RunXorConstants` | DecryptZTStrings/Program.cs:101-128 | `ldc.i4 k2; ldc.i4 k1; xor` with nothing pending appends `(char)(k2 ^ k1)`, with the same length test and step |
| `Emulator.RunStopReason` | DecryptZTStrings/Program.cs:62-132 | a block stops only at the end of the body, just past an instruction that breaks the idiom with or without a pending byte, or two past an `xor` that made the count equal the declared length |
| `Emulator.RunLengthBound` | DecryptZTStrings/Program.cs:89-128 | when the count starts below the declared length and ends above it, a literal store `ldc.i4.s; stelem.i2` lies between the start and the stopping position |
| `Emulator.EmulateLengthBound` | DecryptZTStrings/Program.cs:89-128 | a block declaring at least one character that decodes more than it declares contains a literal store |
| `Emulator.RunIdiomGroup` | DecryptZTStrings/Program.cs:65-128 | one `ldc.i4 i; ldsfld f; ldc.i4 k; xor; stelem.i2` group decodes exactly `(char)(f[i] ^ k)` and leaves the cursor past its store |
| `Scanner.NextCursor` | DecryptZTStrings/Program.cs:144-145 | the next examined trigger is `Max(i + 1, j) + 1`: at least two past the trigger and one past the block's end |
| `Scanner.ScanFrom` | DecryptZTStrings/Program.cs:33-147 | every string kept is non-empty and the decoding of a block opened at some later trigger; the decoding at the first examined position, if non-empty, heads the list; a crash needs a faulting load |
| `Scanner.VisitedWalk` | DecryptZTStrings/Program.cs:33-145 | the examined positions start at the scan's start, lie in the body, and each is followed by the next position, or by `NextCursor` past a decoded block |
| `Scanner.ScanMatchesVisited` | DecryptZTStrings/Program.cs:33-147 | the scan raises iff the block at some examined position raises, and otherwise returns exactly the non-empty decodings at the examined positions, in order |
| `Scanner.ScanSkipsNonTrigger` | DecryptZTStrings/Program.cs:33-36 | an instruction that is not a load of a catalogued field only moves the cursor by one |
| `Scanner.ScanInDiscoveryOrder` | DecryptZTStrings/Program.cs:33-145 | the method's strings are block decodings whose triggers occur in strictly increasing order, so the list is in discovery order |
| `Scanner.ScanProvenance` | DecryptZTStrings/Program.cs:57-142 | every reported string is the decoding of a block opened at some trigger at or after the scan's start, and each of its characters is accounted for by the idiom between that block's start (index 3 or later) and the position where the block stopped |
| `Scanner.NoWindowNoStrings` | DecryptZTStrings/Program.cs:36-54 | where no block opens, the scan finds nothing |
| `Scanner.NoAllocationNoStrings` | DecryptZTStrings/Program.cs:38-51 | a body without `newarr` yields nothing |
| `Scanner.NoTriggerNoStrings` | DecryptZTStrings/Program.cs:36 | a body without a load of a catalogued field yields nothing |
| `Scanner.MethodKey` | DecryptZTStrings/Program.cs:137 | the key is the type's full name, a dot and the method name, and both parts can be read back from it |
| `Scanner.MethodKeyInjective` | DecryptZTStrings/Program.cs:137 | within one type, two methods share a key iff they share a name |
| `Scanner.MethodKeysCanCollide` | DecryptZTStrings/Program.cs:137 | a type `A.B` with method `C` and a type `A` with method `B.C` get the same key |
| `Scanner.Append` | DecryptZTStrings/Program.cs:137-140 | the list under the key is created on first use and grows by the string at its end; other lists are unchanged |
| `Scanner.RecordAll` | DecryptZTStrings/Program.cs:134-142 | a method's strings are appended in order, without merging duplicates; a method that yields nothing creates no list |
| `Scanner.RecordAllExtends` | DecryptZTStrings/Program.cs:134-142 | recording extends exactly the key's list by the strings and keeps every list non-empty when the strings are non-empty |
| `Scanner.AnalyzeMethod` | DecryptZTStrings/Program.cs:30-147 | a method without a body changes nothing; with a body it fails iff its scan fails; otherwise its key is added iff it yields strings, its list grows by exactly those strings and no other list changes |
| `Scanner.AnalyzeMethodGrows` | DecryptZTStrings/Program.cs:30-147 | analysing one method never drops a key nor shortens a list |
| `Scanner.AnalyzeMethods` | DecryptZTStrings/Program.cs:30-31 | processing a type's methods only grows the report and crashes only through a faulting load in one of them |
| `Scanner.AnalyzeMethodsShape` | DecryptZTStrings/Program.cs:30-142 | processing a type's methods keeps every list and string non-empty and adds only keys of its methods with bodies |
| `Scanner.AnalyzeTypes` | DecryptZTStrings/Program.cs:29-31 | processing all types only grows the report and crashes only through a faulting load |
| `Scanner.AnalyzeTypesShape` | DecryptZTStrings/Program.cs:29-142 | the same shape guarantees over all types |
| `Scanner.Analyze` | DecryptZTStrings/Program.cs:16-149 | the report's keys are qualified names of methods with bodies; every list and string is non-empty; without a faulting load there is always a report |
| `Scanner.AnalyzeMethodsLists` | DecryptZTStrings/Program.cs:30-142 | after a type's methods, each key's list is the old list followed by the strings of each method with that key, in declaration order |
| `Scanner.AnalyzeTypesLists` | DecryptZTStrings/Program.cs:29-142 | the same over all types, in enumeration order |
| `Scanner.ReportIsEveryMethodInOrder` | DecryptZTStrings/Program.cs:16-149 | on success every method's scan succeeded, each list is the concatenation of the strings of the methods with its key in enumeration order, and a key is present iff that concatenation is non-empty |
| `Scanner.MethodsReportHas` | DecryptZTStrings/Program.cs:30-142 | a method's strings appear as one contiguous run in its key's list for its type |
| `Scanner.TypesReportHas` | DecryptZTStrings/Program.cs:29-142 | a method's strings appear as one contiguous run in its key's list over all types |
| `Scanner.MethodStringsInReport` | DecryptZTStrings/Program.cs:16-149 | for every method with a body, a successful report means its scan succeeded and its strings appear, in order and contiguously, in the list under its key |
| `Scanner.NoRvaFieldsEmptyReport` | DecryptZTStrings/Program.cs:19-36 | a module without RVA fields yields an empty report |
| `Scenarios.ThreeCharacterBlock` | DecryptZTStrings/Program.cs:16-148 | bytes `[0x41, 0x01, 0x02]` with keys `[0x00, 0x60, 0x63]` are reported as the one string "Aaa" |
| `Scenarios.TwoBlocksInOneMethod` | DecryptZTStrings/Program.cs:134-145 | two blocks in one method give a list of two strings, in block order |
| `Scenarios.MissingLengthConstant` | DecryptZTStrings/Program.cs:52-54 | without the length constant no block opens and the report is empty |
| `Scenarios.PartialBlock` | DecryptZTStrings/Program.cs:65-70 | a block that decodes two of three characters and then meets a second field load reports the two characters |
| `Scenarios.LiteralStoreOverrunsLength` | DecryptZTStrings/Program.cs:89-128 | a one-character block whose literal store goes unchecked decodes two characters |
| `Scenarios.ZeroLengthNeverStops` | DecryptZTStrings/Program.cs:124-128 | a block declaring zero characters decodes both of its groups and stops at the end of the body, with no literal store in it |

## Left out

- Loading the module and walking its metadata through dnlib (lines 18-32):
  types, fields, methods, bodies and instruction operands are given as
  values (`TypeDecl`, `FieldDecl`, `MethodDecl`, `Instr`).
- The usage message for a missing argument (lines 11-14), JSON
  serialisation and console output (lines 150-154 and `DumpJsonContext.cs`):
  input and output only.
- `Debug.WriteLine` diagnostics (lines 28, 67-118): they do not affect the
  result. The model assumes a release build, where these calls are removed.
  In a debug build the message at line 85 casts the operand to `FieldDef`,
  which throws for a field of another module; that exception is not modelled.
- Operand unboxing at lines 55, 76, 92, 105 and 116 is assumed to succeed:
  `ldc.i4` carries an `int` and `ldc.i4.s` an `sbyte`, as the instruction
  datatype encodes.
- `int` overflow of the cursors `i` and `j`: a body has far fewer than 2^31
  instructions, so the model uses unbounded naturals.
- The JSON report's key order: the report is a `map`, and the list order per
  key is what the model preserves.
- Cil.ByteXorChar: the contract itself states only that a zero key gives
  back the byte; `Cil.ByteActsAsConstant` reduces it to `Cil.ConstXorChar`,
  whose low-16-bit cut is given by its body only (see the next line).
- Cil.ConstXorChar: the contract states only that equal constants give 0;
  the low 16 bits of the 32-bit XOR are given by the body, because a
  separate characterisation of the cut needs an integer to bit-vector
  conversion the solver does not finish within the resource limit.
