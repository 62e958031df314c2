/** Recognising the start of a decode block (Program.cs lines 33-55): a load
    of a catalogued field, the nearest `newarr` before it, and the `ldc.i4`
    that pushed the array length directly before that `newarr`. */
module Locator {
  import opened Outcomes
  import opened Cil
  import opened FieldCatalog

  /** A load of a field defined in this module that the catalog holds. */
  predicate IsTrigger(ins: Instr, catalog: Catalog)
  {
    IsFieldLoad(ins) && ins.field.FieldDef? && ins.field.id in catalog
  }

  /** `s` is one past the nearest `newarr` strictly before position `i`. */
  ghost predicate NearestAllocation(instrs: seq<Instr>, i: nat, s: nat)
  {
    1 <= s <= i <= |instrs| && instrs[s - 1].Newarr? &&
    forall k :: s <= k < i ==> !instrs[k].Newarr?
  }

  /** The backward walk: starting at `s`, step back until the instruction
      just before the cursor is a `newarr`; `None` when the walk reaches the
      start of the body without finding one. */
  function FindStart(instrs: seq<Instr>, s: nat): (r: Option<nat>)
    requires s <= |instrs|
    ensures r.Some? <==> exists k :: 0 <= k < s && instrs[k].Newarr?
    ensures r.Some? ==> NearestAllocation(instrs, s, r.value)
  {
    if s == 0 then None
    else if instrs[s - 1].Newarr? then Some(s)
    else FindStart(instrs, s - 1)
  }

  /** An opened decode block: emulation starts at `start`, and the block
      declares `strLen` characters. */
  datatype Window = Window(start: nat, strLen: Int32)

  /** The trigger test and block validation at instruction `i`. The length
      constant must be a plain `ldc.i4` and must not sit at position 0. */
  function OpenWindow(instrs: seq<Instr>, catalog: Catalog, i: nat): (w: Option<Window>)
    requires i < |instrs|
    ensures w.Some? <==>
              IsTrigger(instrs[i], catalog) &&
              exists s :: NearestAllocation(instrs, i, s) && 3 <= s && instrs[s - 2].LdcI4?
    ensures w.Some? ==>
              NearestAllocation(instrs, i, w.value.start) && 3 <= w.value.start &&
              instrs[w.value.start - 2] == LdcI4(w.value.strLen)
  {
    if !IsTrigger(instrs[i], catalog) then None
    else
      match FindStart(instrs, i)
      case None => None
      case Some(start) =>
        if start - 2 <= 0 || !instrs[start - 2].LdcI4? then
          None
        else
          Some(Window(start, instrs[start - 2].k))
  }
}
