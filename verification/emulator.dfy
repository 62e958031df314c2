/** Symbolic replay of a decode block (Program.cs lines 57-132). The state is
    the cursor `j`, at most one pending field byte, and the characters
    produced so far. */
module Emulator {
  import opened Outcomes
  import opened Cil
  import opened FieldCatalog

  /** The characters a block produced and the position the cursor stopped at. */
  datatype Decoded = Decoded(chars: Utf16, next: nat)

  /** The instruction at `p` reads a catalogued field's bytes and raises: the
      stored initial value is null, or the preceding index is out of range. */
  ghost predicate FaultsAt(instrs: seq<Instr>, catalog: Catalog, p: int)
  {
    1 <= p < |instrs| && IsFieldLoad(instrs[p]) && instrs[p].field.FieldDef? &&
    instrs[p].field.id in catalog && instrs[p - 1].LdcI4? &&
    (catalog[instrs[p].field.id].None? ||
     !(0 <= instrs[p - 1].k < |catalog[instrs[p].field.id].value|))
  }

  /** The instruction at `q` is `ldc.i4 k; ldsfld f` (or `ldsflda`) with `f`
      catalogued, and byte `k` of `f`'s buffer is `b`. */
  ghost predicate LoadsByte(instrs: seq<Instr>, catalog: Catalog, q: int, b: Byte)
  {
    1 <= q < |instrs| && IsFieldLoad(instrs[q]) && instrs[q].field.FieldDef? &&
    instrs[q].field.id in catalog && catalog[instrs[q].field.id].Some? &&
    instrs[q - 1].LdcI4? &&
    0 <= instrs[q - 1].k < |catalog[instrs[q].field.id].value| &&
    catalog[instrs[q].field.id].value[instrs[q - 1].k] == b
  }

  /** Character `c` is accounted for by the instruction at `p`, inside a block
      that began at `lo`: a literal `ldc.i4.s v; stelem.i2`, or an `xor` whose
      first operand is `ldc.i4 k1` and whose other operand is either a second
      `ldc.i4` or one catalog byte loaded in the block before `p`. */
  ghost predicate ProducedAt(instrs: seq<Instr>, catalog: Catalog, lo: int, p: int, c: Char16)
  {
    1 <= p < |instrs| && lo <= p &&
    ( (instrs[p].StelemI2? && instrs[p - 1].LdcI4S? && c == LiteralChar(instrs[p - 1].v))
      || (instrs[p].Xor? && instrs[p - 1].LdcI4? &&
          ( (2 <= p && instrs[p - 2].LdcI4? && c == ConstXorChar(instrs[p - 2].k, instrs[p - 1].k))
            || exists q, b :: lo <= q < p && LoadsByte(instrs, catalog, q, b) &&
                              c == ByteXorChar(b, instrs[p - 1].k))))
  }

  /** Character `c` is accounted for by an instruction in `[lo, hi)`. */
  ghost predicate Explained(instrs: seq<Instr>, catalog: Catalog, lo: int, hi: int, c: Char16)
  {
    exists p :: p < hi && ProducedAt(instrs, catalog, lo, p, c)
  }

  /** Every character in `chars` is accounted for by an instruction in `[lo, hi)`. */
  ghost predicate AllExplained(instrs: seq<Instr>, catalog: Catalog, lo: int, hi: int, chars: Utf16)
  {
    forall n :: 0 <= n < |chars| ==> Explained(instrs, catalog, lo, hi, chars[n])
  }

  /** The forward loop from cursor `j`. `strLen` is the block's declared
      length; it is compared with the character count only after an `xor`. */
  function Run(instrs: seq<Instr>, catalog: Catalog, strLen: Int32,
               j: nat, pending: Option<Byte>, chars: Utf16): (r: Result<Decoded>)
    decreases |instrs| - j
    ensures r.Ok? ==> chars <= r.value.chars
    ensures j < |instrs| && r.Ok? ==> j < r.value.next <= |instrs| + 1
    ensures |instrs| <= j ==> r == Ok(Decoded(chars, j))
    ensures r.Crash? ==> exists p :: j <= p && FaultsAt(instrs, catalog, p)
  {
    if |instrs| <= j then Ok(Decoded(chars, j))
    else
      var ins := instrs[j];
      if IsFieldLoad(ins) then
        if pending.Some? then
          // a second field byte before the first was used
          Ok(Decoded(chars, j + 1))
        else if ins.field.FieldDef? && ins.field.id in catalog then
          if 1 <= j && instrs[j - 1].LdcI4? then
            var index := instrs[j - 1].k;
            match catalog[ins.field.id]
            case None =>
              assert FaultsAt(instrs, catalog, j);
              Crash(NullReference)
            case Some(buffer) =>
              if 0 <= index < |buffer| then
                Run(instrs, catalog, strLen, j + 1, Some(buffer[index]), chars)
              else
                assert FaultsAt(instrs, catalog, j);
                Crash(IndexOutOfRange)
          else
            // no index constant before the load
            Ok(Decoded(chars, j + 1))
        else
          // a field the catalog does not hold
          Ok(Decoded(chars, j + 1))
      else if ins.StelemI2? then
        if 1 <= j && instrs[j - 1].LdcI4S? then
          Run(instrs, catalog, strLen, j + 1, None, chars + [LiteralChar(instrs[j - 1].v)])
        else
          Ok(Decoded(chars, j + 1))
      else if ins.Xor? then
        if 1 <= j && instrs[j - 1].LdcI4? then
          var k1 := instrs[j - 1].k;
          if pending.Some? then
            AfterXor(instrs, catalog, strLen, j, chars + [ByteXorChar(pending.value, k1)])
          else if 2 <= j && instrs[j - 2].LdcI4? then
            AfterXor(instrs, catalog, strLen, j, chars + [ConstXorChar(instrs[j - 2].k, k1)])
          else
            Ok(Decoded(chars, j + 1))
        else
          Ok(Decoded(chars, j + 1))
      else
        Run(instrs, catalog, strLen, j + 1, pending, chars)
  }

  /** After an `xor` at `j` has produced its character: skip the store that
      follows it and stop if the count now equals the declared length. */
  function AfterXor(instrs: seq<Instr>, catalog: Catalog, strLen: Int32,
                    j: nat, chars: Utf16): (r: Result<Decoded>)
    requires j < |instrs|
    decreases |instrs| - j, 0
    ensures r.Ok? ==> chars <= r.value.chars
    ensures r.Ok? ==> j + 2 <= r.value.next <= |instrs| + 1
    ensures |chars| == strLen ==> r == Ok(Decoded(chars, j + 2))
    ensures r.Crash? ==> exists p :: j <= p && FaultsAt(instrs, catalog, p)
  {
    if |chars| == strLen then Ok(Decoded(chars, j + 2))
    else Run(instrs, catalog, strLen, j + 2, None, chars)
  }

  /** Decoding one opened block: from its start, nothing pending, no characters. */
  function Emulate(instrs: seq<Instr>, catalog: Catalog, start: nat, strLen: Int32): (r: Result<Decoded>)
    ensures start < |instrs| && r.Ok? ==> start < r.value.next <= |instrs| + 1
    ensures r.Crash? ==> exists p :: start <= p && FaultsAt(instrs, catalog, p)
  {
    Run(instrs, catalog, strLen, start, None, [])
  }

  /** Raising the upper bound keeps every character accounted for. */
  lemma ExplainedWiden(instrs: seq<Instr>, catalog: Catalog, lo: int, hi: int, hi': int, chars: Utf16)
    requires hi <= hi'
    requires AllExplained(instrs, catalog, lo, hi, chars)
    ensures AllExplained(instrs, catalog, lo, hi', chars)
  {
  }

  /** Appending a character produced at `p` keeps every character accounted for. */
  lemma ExplainedAppend(instrs: seq<Instr>, catalog: Catalog, lo: int, hi: int, p: int,
                        chars: Utf16, c: Char16)
    requires AllExplained(instrs, catalog, lo, hi, chars)
    requires p < hi && ProducedAt(instrs, catalog, lo, p, c)
    ensures AllExplained(instrs, catalog, lo, hi, chars + [c])
  {
  }

  /** The pending byte, if any, was loaded inside the block before `j`. */
  ghost predicate PendingFrom(instrs: seq<Instr>, catalog: Catalog, lo: int, j: int, pending: Option<Byte>)
  {
    pending.Some? ==> exists q :: lo <= q < j && LoadsByte(instrs, catalog, q, pending.value)
  }

  /** Every character a block yields is one literal, one constant XOR a
      constant, or one catalog byte XOR a constant, produced by an instruction
      between the block start and the position where decoding stopped. */
  lemma {:induction false} RunProvenance(instrs: seq<Instr>, catalog: Catalog, strLen: Int32, lo: nat,
                                         j: nat, pending: Option<Byte>, chars: Utf16)
    requires lo <= j
    requires PendingFrom(instrs, catalog, lo, j, pending)
    requires AllExplained(instrs, catalog, lo, j, chars)
    ensures var r := Run(instrs, catalog, strLen, j, pending, chars);
            r.Ok? ==> AllExplained(instrs, catalog, lo, r.value.next, r.value.chars)
    decreases |instrs| - j
  {
    if |instrs| <= j {
      return;
    }
    var ins := instrs[j];
    if IsFieldLoad(ins) {
      if pending.None? && ins.field.FieldDef? && ins.field.id in catalog && 1 <= j && instrs[j - 1].LdcI4? {
        var index := instrs[j - 1].k;
        if catalog[ins.field.id].Some? && 0 <= index < |catalog[ins.field.id].value| {
          var b := catalog[ins.field.id].value[index];
          assert LoadsByte(instrs, catalog, j, b);
          ExplainedWiden(instrs, catalog, lo, j, j + 1, chars);
          RunProvenance(instrs, catalog, strLen, lo, j + 1, Some(b), chars);
        }
      } else {
        ExplainedWiden(instrs, catalog, lo, j, j + 1, chars);
      }
    } else if ins.StelemI2? {
      ExplainedWiden(instrs, catalog, lo, j, j + 1, chars);
      if 1 <= j && instrs[j - 1].LdcI4S? {
        var c := LiteralChar(instrs[j - 1].v);
        assert ProducedAt(instrs, catalog, lo, j, c);
        ExplainedAppend(instrs, catalog, lo, j + 1, j, chars, c);
        RunProvenance(instrs, catalog, strLen, lo, j + 1, None, chars + [c]);
      }
    } else if ins.Xor? {
      if 1 <= j && instrs[j - 1].LdcI4? && (pending.Some? || (2 <= j && instrs[j - 2].LdcI4?)) {
        var k1 := instrs[j - 1].k;
        var c := if pending.Some? then ByteXorChar(pending.value, k1)
                 else ConstXorChar(instrs[j - 2].k, k1);
        if pending.Some? {
          var q :| lo <= q < j && LoadsByte(instrs, catalog, q, pending.value);
          assert ProducedAt(instrs, catalog, lo, j, c);
        } else {
          assert ProducedAt(instrs, catalog, lo, j, c);
        }
        ExplainedWiden(instrs, catalog, lo, j, j + 2, chars);
        ExplainedAppend(instrs, catalog, lo, j + 2, j, chars, c);
        if |chars + [c]| != strLen {
          RunProvenance(instrs, catalog, strLen, lo, j + 2, None, chars + [c]);
        }
      } else {
        ExplainedWiden(instrs, catalog, lo, j, j + 1, chars);
      }
    } else {
      ExplainedWiden(instrs, catalog, lo, j, j + 1, chars);
      if pending.Some? {
        var q :| lo <= q < j && LoadsByte(instrs, catalog, q, pending.value);
        assert lo <= q < j + 1;
      }
      RunProvenance(instrs, catalog, strLen, lo, j + 1, pending, chars);
    }
  }

  /** Every character of a decoded block is accounted for inside the block. */
  lemma EmulateProvenance(instrs: seq<Instr>, catalog: Catalog, start: nat, strLen: Int32)
    ensures var r := Emulate(instrs, catalog, start, strLen);
            r.Ok? ==> AllExplained(instrs, catalog, start, r.value.next, r.value.chars)
  {
    RunProvenance(instrs, catalog, strLen, start, start, None, []);
  }

  /** The instruction at `j` does not fit the decode idiom, so the block ends
      there: a field load while a byte is pending, a load of a field that is
      not a catalogued field definition, a load without a preceding `ldc.i4`
      index, a `stelem.i2` without a preceding `ldc.i4.s`, or an `xor` without
      the constant operands it needs. */
  ghost predicate BreaksAt(instrs: seq<Instr>, catalog: Catalog, j: int, pending: bool)
  {
    0 <= j < |instrs| &&
    ( (IsFieldLoad(instrs[j]) &&
       (pending || !(instrs[j].field.FieldDef? && instrs[j].field.id in catalog) ||
        !(1 <= j && instrs[j - 1].LdcI4?)))
      || (instrs[j].StelemI2? && !(1 <= j && instrs[j - 1].LdcI4S?))
      || (instrs[j].Xor? &&
          (!(1 <= j && instrs[j - 1].LdcI4?) || (!pending && !(2 <= j && instrs[j - 2].LdcI4?)))))
  }

  /** A mismatch ends the block one past it and keeps what was decoded. */
  lemma RunBreaks(instrs: seq<Instr>, catalog: Catalog, strLen: Int32,
                  j: nat, pending: Option<Byte>, chars: Utf16)
    requires BreaksAt(instrs, catalog, j, pending.Some?)
    ensures Run(instrs, catalog, strLen, j, pending, chars) == Ok(Decoded(chars, j + 1))
  {
  }

  /** An instruction outside the idiom's vocabulary is stepped over and the
      pending byte survives it. */
  lemma RunSkipsInert(instrs: seq<Instr>, catalog: Catalog, strLen: Int32,
                      j: nat, pending: Option<Byte>, chars: Utf16)
    requires j < |instrs|
    requires !IsFieldLoad(instrs[j]) && !instrs[j].StelemI2? && !instrs[j].Xor?
    ensures Run(instrs, catalog, strLen, j, pending, chars) ==
            Run(instrs, catalog, strLen, j + 1, pending, chars)
  {
  }

  /** `ldc.i4.s v; stelem.i2` appends `(char)(sbyte)v`, clears the pending
      byte and moves on by one, without comparing against the length. */
  lemma RunLiteral(instrs: seq<Instr>, catalog: Catalog, strLen: Int32,
                   j: nat, pending: Option<Byte>, chars: Utf16, v: Int8)
    requires 1 <= j < |instrs| && instrs[j] == StelemI2 && instrs[j - 1] == LdcI4S(v)
    ensures Run(instrs, catalog, strLen, j, pending, chars) ==
            Run(instrs, catalog, strLen, j + 1, None, chars + [LiteralChar(v)])
  {
  }

  /** `ldc.i4 k1; xor` with a pending byte `b` appends `(char)(b ^ k1)`; the
      block ends there when the count reaches the declared length, otherwise
      decoding resumes two past the `xor` with nothing pending. */
  lemma RunXorPending(instrs: seq<Instr>, catalog: Catalog, strLen: Int32,
                      j: nat, b: Byte, chars: Utf16, k1: Int32)
    requires 1 <= j < |instrs| && instrs[j] == Xor && instrs[j - 1] == LdcI4(k1)
    ensures var out := chars + [ByteXorChar(b, k1)];
            Run(instrs, catalog, strLen, j, Some(b), chars) ==
            if |out| == strLen then Ok(Decoded(out, j + 2))
            else Run(instrs, catalog, strLen, j + 2, None, out)
  {
  }

  /** `ldc.i4 k2; ldc.i4 k1; xor` with nothing pending appends `(char)(k2 ^ k1)`,
      with the same length test and resume position. */
  lemma RunXorConstants(instrs: seq<Instr>, catalog: Catalog, strLen: Int32,
                        j: nat, chars: Utf16, k2: Int32, k1: Int32)
    requires 2 <= j < |instrs| && instrs[j] == Xor && instrs[j - 1] == LdcI4(k1) && instrs[j - 2] == LdcI4(k2)
    ensures var out := chars + [ConstXorChar(k2, k1)];
            Run(instrs, catalog, strLen, j, None, chars) ==
            if |out| == strLen then Ok(Decoded(out, j + 2))
            else Run(instrs, catalog, strLen, j + 2, None, out)
  {
  }

  /** Why a block ended: the cursor ran off the body, the instruction just
      before the stopping position broke the idiom, or an `xor` two before it
      brought the count to the declared length. */
  ghost predicate StopReason(instrs: seq<Instr>, catalog: Catalog, strLen: Int32, d: Decoded)
  {
    |instrs| <= d.next ||
    BreaksAt(instrs, catalog, d.next - 1, true) || BreaksAt(instrs, catalog, d.next - 1, false) ||
    (2 <= d.next && instrs[d.next - 2].Xor? && |d.chars| == strLen)
  }

  /** A block never ends anywhere else. The break clause is stated for
      either pending state, because `Decoded` does not record whether a byte
      was pending at the stop; so one past any field load also satisfies it
      (a load breaks whenever a byte is pending), and this lemma does not
      rule out a stop after a well-formed load with nothing pending. */
  lemma {:induction false} RunStopReason(instrs: seq<Instr>, catalog: Catalog, strLen: Int32,
                                         j: nat, pending: Option<Byte>, chars: Utf16)
    ensures var r := Run(instrs, catalog, strLen, j, pending, chars);
            r.Ok? ==> StopReason(instrs, catalog, strLen, r.value)
    decreases |instrs| - j, 1
  {
    if |instrs| <= j {
      return;
    }
    if BreaksAt(instrs, catalog, j, pending.Some?) {
      RunBreaks(instrs, catalog, strLen, j, pending, chars);
    } else if instrs[j].Xor? {
      StopReasonXor(instrs, catalog, strLen, j, pending, chars);
    } else {
      StopReasonStep(instrs, catalog, strLen, j, pending, chars);
    }
  }

  /** `RunStopReason` across a field load, a literal store or an instruction
      that is stepped over. */
  lemma {:induction false} StopReasonStep(instrs: seq<Instr>, catalog: Catalog, strLen: Int32,
                                          j: nat, pending: Option<Byte>, chars: Utf16)
    requires j < |instrs| && !BreaksAt(instrs, catalog, j, pending.Some?) && !instrs[j].Xor?
    ensures var r := Run(instrs, catalog, strLen, j, pending, chars);
            r.Ok? ==> StopReason(instrs, catalog, strLen, r.value)
    decreases |instrs| - j, 0
  {
    var r := Run(instrs, catalog, strLen, j, pending, chars);
    if !r.Ok? {
      return;
    }
    var pending' := if IsFieldLoad(instrs[j]) then Some(catalog[instrs[j].field.id].value[instrs[j - 1].k])
                    else if instrs[j].StelemI2? then None
                    else pending;
    var chars' := if instrs[j].StelemI2? then chars + [LiteralChar(instrs[j - 1].v)] else chars;
    assert r == Run(instrs, catalog, strLen, j + 1, pending', chars');
    RunStopReason(instrs, catalog, strLen, j + 1, pending', chars');
  }

  /** `RunStopReason` across an `xor` that produces a character. */
  lemma {:induction false} StopReasonXor(instrs: seq<Instr>, catalog: Catalog, strLen: Int32,
                                         j: nat, pending: Option<Byte>, chars: Utf16)
    requires j < |instrs| && !BreaksAt(instrs, catalog, j, pending.Some?) && instrs[j].Xor?
    ensures var r := Run(instrs, catalog, strLen, j, pending, chars);
            r.Ok? ==> StopReason(instrs, catalog, strLen, r.value)
    decreases |instrs| - j, 0
  {
    var r := Run(instrs, catalog, strLen, j, pending, chars);
    var k1 := instrs[j - 1].k;
    var out := if pending.Some? then chars + [ByteXorChar(pending.value, k1)]
               else chars + [ConstXorChar(instrs[j - 2].k, k1)];
    assert r == AfterXor(instrs, catalog, strLen, j, out);
    if |out| != strLen {
      assert r == Run(instrs, catalog, strLen, j + 2, None, out);
      RunStopReason(instrs, catalog, strLen, j + 2, None, out);
    }
  }

  /** Some `ldc.i4.s v; stelem.i2` pair has its store in `[lo, hi)`. */
  ghost predicate LiteralStoreIn(instrs: seq<Instr>, lo: int, hi: int)
  {
    exists p :: lo <= p < hi && 1 <= p < |instrs| && instrs[p].StelemI2? && instrs[p - 1].LdcI4S?
  }

  /** The length test follows every `xor` but no literal store. So a count
      that starts below the declared length can only end above it if a
      literal store fired between the start and the stopping position. */
  lemma {:induction false} RunLengthBound(instrs: seq<Instr>, catalog: Catalog, strLen: Int32,
                                          j: nat, pending: Option<Byte>, chars: Utf16)
    ensures var r := Run(instrs, catalog, strLen, j, pending, chars);
            r.Ok? && |chars| < strLen < |r.value.chars| ==> LiteralStoreIn(instrs, j, r.value.next)
    decreases |instrs| - j, 1
  {
    if |instrs| <= j || BreaksAt(instrs, catalog, j, pending.Some?) {
      if j < |instrs| {
        RunBreaks(instrs, catalog, strLen, j, pending, chars);
      }
    } else if IsFieldLoad(instrs[j]) || !(instrs[j].StelemI2? || instrs[j].Xor?) {
      LengthBoundStep(instrs, catalog, strLen, j, pending, chars);
    } else if instrs[j].Xor? {
      LengthBoundXor(instrs, catalog, strLen, j, pending, chars);
    }
  }

  /** `RunLengthBound` across a field load or an instruction that is stepped over. */
  lemma {:induction false} LengthBoundStep(instrs: seq<Instr>, catalog: Catalog, strLen: Int32,
                                           j: nat, pending: Option<Byte>, chars: Utf16)
    requires j < |instrs| && !BreaksAt(instrs, catalog, j, pending.Some?)
    requires !instrs[j].StelemI2? && !instrs[j].Xor?
    ensures var r := Run(instrs, catalog, strLen, j, pending, chars);
            r.Ok? && |chars| < strLen < |r.value.chars| ==> LiteralStoreIn(instrs, j, r.value.next)
    decreases |instrs| - j, 0
  {
    var r := Run(instrs, catalog, strLen, j, pending, chars);
    if !r.Ok? {
      return;
    }
    var pending' := if IsFieldLoad(instrs[j]) then Some(catalog[instrs[j].field.id].value[instrs[j - 1].k])
                    else pending;
    assert r == Run(instrs, catalog, strLen, j + 1, pending', chars);
    RunLengthBound(instrs, catalog, strLen, j + 1, pending', chars);
    if |chars| < strLen < |r.value.chars| {
      LiteralStoreWiden(instrs, j, j + 1, r.value.next);
    }
  }

  /** `RunLengthBound` across an `xor` that produces a character. */
  lemma {:induction false} LengthBoundXor(instrs: seq<Instr>, catalog: Catalog, strLen: Int32,
                                          j: nat, pending: Option<Byte>, chars: Utf16)
    requires j < |instrs| && !BreaksAt(instrs, catalog, j, pending.Some?) && instrs[j].Xor?
    ensures var r := Run(instrs, catalog, strLen, j, pending, chars);
            r.Ok? && |chars| < strLen < |r.value.chars| ==> LiteralStoreIn(instrs, j, r.value.next)
    decreases |instrs| - j, 0
  {
    var r := Run(instrs, catalog, strLen, j, pending, chars);
    var k1 := instrs[j - 1].k;
    var out := if pending.Some? then chars + [ByteXorChar(pending.value, k1)]
               else chars + [ConstXorChar(instrs[j - 2].k, k1)];
    assert r == AfterXor(instrs, catalog, strLen, j, out);
    if |out| != strLen {
      assert r == Run(instrs, catalog, strLen, j + 2, None, out);
      RunLengthBound(instrs, catalog, strLen, j + 2, None, out);
      if r.Ok? && |chars| < strLen < |r.value.chars| {
        LiteralStoreWiden(instrs, j, j + 2, r.value.next);
      }
    }
  }

  /** Lowering the start keeps a literal store inside the range. */
  lemma LiteralStoreWiden(instrs: seq<Instr>, lo: int, lo': int, hi: int)
    requires lo <= lo' && LiteralStoreIn(instrs, lo', hi)
    ensures LiteralStoreIn(instrs, lo, hi)
  {
  }

  /** A block that declares at least one character and decodes more than it
      declares had a literal store fire inside it. */
  lemma EmulateLengthBound(instrs: seq<Instr>, catalog: Catalog, start: nat, strLen: Int32)
    ensures var r := Emulate(instrs, catalog, start, strLen);
            r.Ok? && 0 < strLen < |r.value.chars| ==> LiteralStoreIn(instrs, start, r.value.next)
  {
    RunLengthBound(instrs, catalog, strLen, start, None, []);
  }

  /** One character of the decode idiom: `ldc.i4 index; ldsfld field;
      ldc.i4 key; xor; stelem.i2`. */
  function IdiomGroup(index: Int32, field: FieldId, key: Int32): seq<Instr>
  {
    [LdcI4(index), Ldsfld(FieldDef(field)), LdcI4(key), Xor, StelemI2]
  }

  /** With nothing pending, one idiom group decodes exactly the character
      `(char)(buffer[index] ^ key)` and leaves the cursor just past its store. */
  lemma RunIdiomGroup(instrs: seq<Instr>, catalog: Catalog, strLen: Int32, j: nat, chars: Utf16,
                      index: Int32, field: FieldId, key: Int32)
    requires j + 5 <= |instrs| && instrs[j..j + 5] == IdiomGroup(index, field, key)
    requires field in catalog && catalog[field].Some? && 0 <= index < |catalog[field].value|
    ensures var out := chars + [ByteXorChar(catalog[field].value[index], key)];
            Run(instrs, catalog, strLen, j, None, chars) ==
            if |out| == strLen then Ok(Decoded(out, j + 5))
            else Run(instrs, catalog, strLen, j + 5, None, out)
  {
    assert instrs[j] == LdcI4(index) && instrs[j + 1] == Ldsfld(FieldDef(field));
    assert instrs[j + 2] == LdcI4(key) && instrs[j + 3] == Xor;
    var b := catalog[field].value[index];
    RunSkipsInert(instrs, catalog, strLen, j, None, chars);
    RunSkipsInert(instrs, catalog, strLen, j + 2, Some(b), chars);
    RunXorPending(instrs, catalog, strLen, j + 3, b, chars, key);
  }
}
