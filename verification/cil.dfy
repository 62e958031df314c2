/** The slice of the CIL instruction set the decoder looks at, and the C#
    integer and character conversions it applies to instruction operands. */
module Cil {

  /** C# `int`: the operand of `ldc.i4`, the target length and the index. */
  type Int32 = x: int | -0x8000_0000 <= x < 0x8000_0000

  /** C# `sbyte`: the operand of `ldc.i4.s`. */
  type Int8 = x: int | -0x80 <= x < 0x80

  /** C# `char`: a UTF-16 code unit, any value in 0..0xFFFF (surrogates
      included, which is why this is not Dafny's `char`). */
  type Char16 = x: int | 0 <= x < 0x1_0000

  /** A decoded string, as the sequence of its UTF-16 code units. */
  type Utf16 = seq<Char16>

  type Byte = bv8

  /** Field identity. The decoder compares field definitions by reference,
      so two declarations are the same field exactly when their ids agree. */
  type FieldId = nat

  /** The operand of `ldsfld`/`ldsflda`: a field defined in this module, or a
      reference to a field of another module (not a field definition). */
  datatype FieldOperand = FieldDef(id: FieldId) | FieldRef

  /** One instruction of a method body. `Other` stands for every opcode the
      decoder does not single out, including the short constant forms
      `ldc.i4.0` .. `ldc.i4.8` and `ldc.i4.m1`. */
  datatype Instr =
    | LdcI4(k: Int32)
    | LdcI4S(v: Int8)
    | Newarr
    | Ldsfld(field: FieldOperand)
    | Ldsflda(field: FieldOperand)
    | StelemI2
    | Xor
    | Other

  /** A static field load, by value or by address. */
  predicate IsFieldLoad(ins: Instr) {
    ins.Ldsfld? || ins.Ldsflda?
  }

  /** Two's-complement bit pattern of a C# `int`. */
  function Bits32(x: Int32): bv32
  {
    (if x < 0 then x + 0x1_0000_0000 else x) as bv32
  }

  /** The unchecked C# conversion `(char)` of a 32-bit value: its low 16 bits. */
  function Low16(x: bv32): Char16
  {
    (x as int) % 0x1_0000
  }

  /** `(char)(sbyte)v`: the literal is sign-extended to `int`, then cut to 16
      bits, so a negative literal wraps to the top of the code unit range. */
  function LiteralChar(v: Int8): (c: Char16)
    ensures 0 <= v ==> c == v
    ensures v < 0 ==> c == 0x1_0000 + v
  {
    v % 0x1_0000
  }

  /** `(char)(fieldByte ^ k)`: the byte is widened to `int`, XORed with the
      32-bit constant, and the result cut to 16 bits. A zero key leaves the
      byte as it is. */
  function ByteXorChar(b: Byte, k: Int32): (c: Char16)
    ensures k == 0 ==> c == b as int
  {
    ZeroKeyKeepsByte(b);
    Low16((b as bv32) ^ Bits32(k))
  }

  /** XOR with the zero key keeps the widened byte's bits, and widening keeps
      its value. */
  lemma ZeroKeyKeepsByte(b: Byte)
    ensures Low16((b as bv32) ^ Bits32(0)) == b as int
  {
    assert (b as bv32) ^ Bits32(0) == b as bv32;
    assert (b as bv32) as int == b as int;
    assert 0 <= b as int < 0x1_0000;
    assert Low16(b as bv32) == (b as int) % 0x1_0000 == b as int;
  }

  /** `(char)(k2 ^ k1)` for two 32-bit constants. Equal constants cancel. */
  function ConstXorChar(k2: Int32, k1: Int32): (c: Char16)
    ensures k1 == k2 ==> c == 0
  {
    Low16(Bits32(k2) ^ Bits32(k1))
  }

  /** Converting a 32-bit pattern to its value and back gives the pattern. */
  lemma Bv32RoundTrip(x: bv32)
    ensures (x as int) as bv32 == x
  {
  }

  /** A byte's 32-bit pattern as an `int` is its zero extension. */
  lemma WidenByte(b: Byte)
    ensures Bits32(b as int) == b as bv32
  {
    assert (b as bv32) as int == b as int;
    Bv32RoundTrip(b as bv32);
  }

  /** C# promotes the field byte to `int` without sign extension, after which
      it takes part in the same 32-bit XOR and 16-bit cut as a constant of
      the same value. */
  lemma ByteActsAsConstant(b: Byte, k: Int32)
    ensures ByteXorChar(b, k) == ConstXorChar(b as int, k)
  {
    WidenByte(b);
  }
}
