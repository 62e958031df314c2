/** The scan over one method body (Program.cs lines 33-55 and 134-145) and
    the per-method result lists (lines 10, 29-31 and 134-142). */
module Scanner {
  import opened Outcomes
  import opened Cil
  import opened FieldCatalog
  import opened Locator
  import opened Emulator

  /** Where the trigger scan resumes after a block decoded up to `j` from a
      trigger at `i`: the cursor is set to `Max(i + 1, j)` and the loop's own
      increment then adds one, so that position itself is never examined. */
  function NextCursor(i: nat, j: nat): (n: nat)
    ensures i + 2 <= n && j + 1 <= n
    ensures n == i + 2 || n == j + 1
  {
    (if i + 1 < j then j else i + 1) + 1
  }

  /** `s` is what the block opened by the trigger at `t` decodes to. */
  ghost predicate DecodedBlock(instrs: seq<Instr>, catalog: Catalog, t: int, s: Utf16)
  {
    0 <= t < |instrs| && OpenWindow(instrs, catalog, t).Some? &&
    var w := OpenWindow(instrs, catalog, t).value;
    Emulate(instrs, catalog, w.start, w.strLen).Ok? &&
    Emulate(instrs, catalog, w.start, w.strLen).value.chars == s
  }

  /** What the trigger candidate at `t` contributes: the decoding of the
      block it opens, or nothing when it opens none or that block crashes. */
  ghost function DecodingAt(instrs: seq<Instr>, catalog: Catalog, t: nat): Utf16
  {
    if t < |instrs| && OpenWindow(instrs, catalog, t).Some? then
      var w := OpenWindow(instrs, catalog, t).value;
      if Emulate(instrs, catalog, w.start, w.strLen).Ok? then
        Emulate(instrs, catalog, w.start, w.strLen).value.chars
      else []
    else []
  }

  /** The block opened at `t` raises an exception. */
  ghost predicate CrashesAt(instrs: seq<Instr>, catalog: Catalog, t: nat)
  {
    t < |instrs| && OpenWindow(instrs, catalog, t).Some? &&
    var w := OpenWindow(instrs, catalog, t).value;
    Emulate(instrs, catalog, w.start, w.strLen).Crash?
  }

  /** The position examined after `t`: the next one when no block opens,
      `NextCursor` past a decoded block, and the end of the body (the scan
      stops) when the block raises. */
  ghost function Successor(instrs: seq<Instr>, catalog: Catalog, t: nat): (n: nat)
    requires t < |instrs|
    ensures t < n
  {
    match OpenWindow(instrs, catalog, t)
    case None => t + 1
    case Some(w) =>
      match Emulate(instrs, catalog, w.start, w.strLen)
      case Crash(_) => |instrs|
      case Ok(d) => NextCursor(t, d.next)
  }

  /** The positions the scan examines from `i` on, in order. */
  ghost function Visited(instrs: seq<Instr>, catalog: Catalog, i: nat): seq<nat>
    decreases |instrs| - i
  {
    if |instrs| <= i then [] else [i] + Visited(instrs, catalog, Successor(instrs, catalog, i))
  }

  /** The non-empty decodings at positions `ts`, in order. */
  ghost function Collect(instrs: seq<Instr>, catalog: Catalog, ts: seq<nat>): seq<Utf16>
  {
    if ts == [] then []
    else
      var s := DecodingAt(instrs, catalog, ts[0]);
      (if |s| > 0 then [s] else []) + Collect(instrs, catalog, ts[1..])
  }

  /** Some catalogued field load in the body raises an exception. */
  ghost predicate SomeLoadFaults(instrs: seq<Instr>, catalog: Catalog)
  {
    exists p :: FaultsAt(instrs, catalog, p)
  }

  /** The strings the scan finds from position `i` on, in discovery order.
      A trigger that opens no block moves the cursor by one; a block moves it
      to `NextCursor`. Only non-empty decodings are kept. */
  function ScanFrom(instrs: seq<Instr>, catalog: Catalog, i: nat): (r: Result<seq<Utf16>>)
    decreases |instrs| - i
    ensures |instrs| <= i ==> r == Ok([])
    ensures r.Ok? ==> forall s :: s in r.value ==> |s| > 0
    ensures r.Ok? ==> forall s :: s in r.value ==>
                        exists t :: i <= t && DecodedBlock(instrs, catalog, t, s)
    ensures r.Crash? ==> SomeLoadFaults(instrs, catalog)
    ensures r.Ok? && |DecodingAt(instrs, catalog, i)| > 0 ==>
              |r.value| > 0 && r.value[0] == DecodingAt(instrs, catalog, i)
  {
    if |instrs| <= i then Ok([])
    else
      match OpenWindow(instrs, catalog, i)
      case None => ScanFrom(instrs, catalog, i + 1)
      case Some(w) =>
        match Emulate(instrs, catalog, w.start, w.strLen)
        case Crash(e) => Crash(e)
        case Ok(d) =>
          var rest := ScanFrom(instrs, catalog, NextCursor(i, d.next));
          if rest.Crash? then rest
          else
            assert |d.chars| > 0 ==> DecodedBlock(instrs, catalog, i, d.chars);
            Ok((if |d.chars| > 0 then [d.chars] else []) + rest.value)
  }

  /** `strs` are the decodings of the blocks opened at trigger positions
      `ts`, all at or after `i`, in strictly increasing order. */
  ghost predicate BlocksInOrder(instrs: seq<Instr>, catalog: Catalog, i: int, ts: seq<int>, strs: seq<Utf16>)
  {
    |ts| == |strs| &&
    (forall n :: 0 <= n < |ts| ==> i <= ts[n] && DecodedBlock(instrs, catalog, ts[n], strs[n])) &&
    (forall m, n :: 0 <= m < n < |ts| ==> ts[m] < ts[n])
  }

  /** Lowering the bound keeps blocks in order. */
  lemma BlocksInOrderFrom(instrs: seq<Instr>, catalog: Catalog, i: int, n: int, ts: seq<int>, strs: seq<Utf16>)
    requires i <= n && BlocksInOrder(instrs, catalog, n, ts, strs)
    ensures BlocksInOrder(instrs, catalog, i, ts, strs)
  {
  }

  /** A block found before all others goes at the front. */
  lemma BlocksInOrderCons(instrs: seq<Instr>, catalog: Catalog, i: int, n: int,
                          ts: seq<int>, strs: seq<Utf16>, s: Utf16)
    requires i < n && BlocksInOrder(instrs, catalog, n, ts, strs)
    requires DecodedBlock(instrs, catalog, i, s)
    ensures BlocksInOrder(instrs, catalog, i, [i] + ts, [s] + strs)
  {
    var ts', strs' := [i] + ts, [s] + strs;
    forall n | 0 < n < |ts'|
      ensures i <= ts'[n] && DecodedBlock(instrs, catalog, ts'[n], strs'[n])
    {
      assert ts'[n] == ts[n - 1] && strs'[n] == strs[n - 1];
    }
    forall m, n | 0 <= m < n < |ts'|
      ensures ts'[m] < ts'[n]
    {
      assert ts'[n] == ts[n - 1];
      if 0 < m {
        assert ts'[m] == ts[m - 1];
      }
    }
  }

  /** The strings of a method are listed in discovery order: each one is the
      decoding of a block, and their triggers occur in increasing order. */
  lemma {:induction false} ScanInDiscoveryOrder(instrs: seq<Instr>, catalog: Catalog, i: nat)
    ensures ScanFrom(instrs, catalog, i).Ok? ==>
              exists ts :: BlocksInOrder(instrs, catalog, i, ts, ScanFrom(instrs, catalog, i).value)
    decreases |instrs| - i
  {
    var r := ScanFrom(instrs, catalog, i);
    if r.Crash? {
      return;
    }
    if |instrs| <= i {
      assert BlocksInOrder(instrs, catalog, i, [], r.value);
      return;
    }
    var n := Successor(instrs, catalog, i);
    ScanInDiscoveryOrder(instrs, catalog, n);
    var rest := ScanFrom(instrs, catalog, n).value;
    var ts :| BlocksInOrder(instrs, catalog, n, ts, rest);
    var s := DecodingAt(instrs, catalog, i);
    if |s| > 0 {
      assert r.value == [s] + rest;
      BlocksInOrderCons(instrs, catalog, i, n, ts, rest, s);
    } else {
      assert r.value == rest;
      BlocksInOrderFrom(instrs, catalog, i, n, ts, rest);
    }
  }

  /** Every character of every string the scan finds is accounted for by
      the decode idiom inside the block that produced it: between that
      block's start (index 3 or later) and the position where it stopped. */
  lemma ScanProvenance(instrs: seq<Instr>, catalog: Catalog, i: nat, s: Utf16)
    requires ScanFrom(instrs, catalog, i).Ok? && s in ScanFrom(instrs, catalog, i).value
    ensures exists t :: i <= t && DecodedBlock(instrs, catalog, t, s) &&
                        var w := OpenWindow(instrs, catalog, t).value;
                        3 <= w.start &&
                        AllExplained(instrs, catalog, w.start, Emulate(instrs, catalog, w.start, w.strLen).value.next, s)
  {
    var t :| i <= t && DecodedBlock(instrs, catalog, t, s);
    var w := OpenWindow(instrs, catalog, t).value;
    EmulateProvenance(instrs, catalog, w.start, w.strLen);
  }

  /** The examined positions lie in the body, start at `i` and strictly
      increase; a position that opens no block is followed by the next one,
      and a decoded block by `NextCursor` past its end. */
  lemma {:induction false} VisitedWalk(instrs: seq<Instr>, catalog: Catalog, i: nat)
    ensures var ts := Visited(instrs, catalog, i);
            (i < |instrs| <==> |ts| > 0) && (|ts| > 0 ==> ts[0] == i) &&
            (forall n :: 0 <= n < |ts| ==> i <= ts[n] < |instrs|) &&
            (forall n :: 0 <= n < |ts| - 1 ==> ts[n + 1] == Successor(instrs, catalog, ts[n]))
    decreases |instrs| - i
  {
    if i < |instrs| {
      var n := Successor(instrs, catalog, i);
      VisitedWalk(instrs, catalog, n);
      var ts := Visited(instrs, catalog, i);
      assert ts == [i] + Visited(instrs, catalog, n);
      forall k | 0 <= k < |ts| - 1
        ensures ts[k + 1] == Successor(instrs, catalog, ts[k])
      {
        if 0 < k {
          assert ts[k] == Visited(instrs, catalog, n)[k - 1];
        }
      }
    }
  }

  /** The scan is exactly the walk over the examined positions: it raises iff
      the block at some examined position raises, and otherwise returns the
      non-empty decodings at those positions, in order. */
  lemma {:induction false} ScanMatchesVisited(instrs: seq<Instr>, catalog: Catalog, i: nat)
    ensures ScanFrom(instrs, catalog, i).Crash? <==>
              exists t :: t in Visited(instrs, catalog, i) && CrashesAt(instrs, catalog, t)
    ensures ScanFrom(instrs, catalog, i).Ok? ==>
              ScanFrom(instrs, catalog, i).value == Collect(instrs, catalog, Visited(instrs, catalog, i))
    decreases |instrs| - i
  {
    if |instrs| <= i {
      return;
    }
    var n := Successor(instrs, catalog, i);
    var ts := Visited(instrs, catalog, i);
    assert ts == [i] + Visited(instrs, catalog, n);
    assert ts[1..] == Visited(instrs, catalog, n);
    if CrashesAt(instrs, catalog, i) {
      assert i in ts;
      return;
    }
    ScanMatchesVisited(instrs, catalog, n);
    forall t | t in ts && CrashesAt(instrs, catalog, t)
      ensures t in Visited(instrs, catalog, n)
    {
    }
  }

  /** An instruction that is not a load of a catalogued field is skipped. */
  lemma ScanSkipsNonTrigger(instrs: seq<Instr>, catalog: Catalog, i: nat)
    requires i < |instrs| && !IsTrigger(instrs[i], catalog)
    ensures ScanFrom(instrs, catalog, i) == ScanFrom(instrs, catalog, i + 1)
  {
  }

  /** Where no block opens, nothing is found. */
  lemma {:induction false} NoWindowNoStrings(instrs: seq<Instr>, catalog: Catalog, i: nat)
    requires forall k :: i <= k < |instrs| ==> OpenWindow(instrs, catalog, k).None?
    ensures ScanFrom(instrs, catalog, i) == Ok([])
    decreases |instrs| - i
  {
    if i < |instrs| {
      NoWindowNoStrings(instrs, catalog, i + 1);
    }
  }

  /** Without a `newarr` no block is ever opened, so nothing is found. */
  lemma NoAllocationNoStrings(instrs: seq<Instr>, catalog: Catalog)
    requires forall k :: 0 <= k < |instrs| ==> !instrs[k].Newarr?
    ensures ScanFrom(instrs, catalog, 0) == Ok([])
  {
    NoWindowNoStrings(instrs, catalog, 0);
  }

  /** Without a load of a catalogued field nothing is found. */
  lemma NoTriggerNoStrings(instrs: seq<Instr>, catalog: Catalog)
    requires forall k :: 0 <= k < |instrs| ==> !IsTrigger(instrs[k], catalog)
    ensures ScanFrom(instrs, catalog, 0) == Ok([])
  {
    NoWindowNoStrings(instrs, catalog, 0);
  }

  /** Method qualified name to the strings found in it, in discovery order. */
  type ResultMap = map<string, seq<Utf16>>

  /** The result key: the declaring type's full name, a dot, the method name. */
  function MethodKey(typeName: string, methodName: string): (r: string)
    ensures |r| == |typeName| + 1 + |methodName|
    ensures r[..|typeName|] == typeName && r[|typeName|] == '.'
    ensures r[|typeName| + 1..] == methodName
  {
    typeName + "." + methodName
  }

  /** Within one type, distinct method names give distinct keys. */
  lemma MethodKeyInjective(typeName: string, m1: string, m2: string)
    ensures MethodKey(typeName, m1) == MethodKey(typeName, m2) <==> m1 == m2
  {
    if MethodKey(typeName, m1) == MethodKey(typeName, m2) {
      assert m1 == MethodKey(typeName, m1)[|typeName| + 1..];
    }
  }

  /** Across types the key is not unique: dots in a namespace, type or
      method name (an explicit interface implementation, say) can produce
      the key of another type's method, and both then share a list. */
  lemma MethodKeysCanCollide()
    ensures MethodKey("A.B", "C") == MethodKey("A", "B.C")
  {
  }

  /** The list under `key`, or the empty list before its first use. */
  function ListOf(results: ResultMap, key: string): seq<Utf16>
  {
    if key in results then results[key] else []
  }

  /** Appending one string: the list under `key` is created on first use and
      grows by `s` at its end; every other list is left as it was. */
  function Append(results: ResultMap, key: string, s: Utf16): (r: ResultMap)
    ensures r.Keys == results.Keys + {key}
    ensures r[key] == ListOf(results, key) + [s]
    ensures forall k :: k in results && k != key ==> r[k] == results[k]
  {
    if key !in results then results[key := [s]]
    else results[key := results[key] + [s]]
  }

  /** Appending the strings of one method, one by one, in order. No string is
      dropped or merged, and duplicates are kept; a method that yields nothing
      creates no list. */
  function RecordAll(results: ResultMap, key: string, strs: seq<Utf16>): (r: ResultMap)
    decreases |strs|
    ensures strs == [] ==> r == results
    ensures strs != [] ==> r.Keys == results.Keys + {key}
    ensures strs != [] ==> r[key] == ListOf(results, key) + strs
    ensures forall k :: k in results && k != key ==> k in r && r[k] == results[k]
  {
    if strs == [] then results
    else
      var r := RecordAll(Append(results, key, strs[0]), key, strs[1..]);
      assert strs == [strs[0]] + strs[1..];
      r
  }

  /** Every list is non-empty and holds only non-empty strings. */
  ghost predicate WellFormed(results: ResultMap)
  {
    forall k :: k in results ==> |results[k]| > 0 && forall s :: s in results[k] ==> |s| > 0
  }

  /** `r` is `results` with `strs` appended to the list under `key`; every
      other list is unchanged. */
  ghost predicate ExtendsUnder(results: ResultMap, r: ResultMap, key: string, strs: seq<Utf16>)
  {
    forall k :: ListOf(r, k) == ListOf(results, k) + (if k == key then strs else [])
  }

  /** Recording a method's strings extends exactly its own list, and keeps
      every list non-empty when the strings are. */
  lemma RecordAllExtends(results: ResultMap, key: string, strs: seq<Utf16>)
    ensures ExtendsUnder(results, RecordAll(results, key, strs), key, strs)
    ensures WellFormed(results) && (forall s :: s in strs ==> |s| > 0) ==>
              WellFormed(RecordAll(results, key, strs))
  {
    var r := RecordAll(results, key, strs);
    forall k
      ensures ListOf(r, k) == ListOf(results, k) + (if k == key then strs else [])
    {
      if k != key && k !in results {
        assert k !in r;
      }
    }
    if WellFormed(results) && (forall s :: s in strs ==> |s| > 0) {
      forall k | k in r
        ensures |r[k]| > 0 && forall s :: s in r[k] ==> |s| > 0
      {
        if k == key && strs != [] {
          assert r[k] == ListOf(results, k) + strs;
        }
      }
    }
  }

  /** The strings one method yields: its scan, or nothing when it has no body
      or its scan raises. */
  ghost function MethodStrings(m: MethodDecl, catalog: Catalog): seq<Utf16>
  {
    if m.body.Some? && ScanFrom(m.body.value, catalog, 0).Ok? then ScanFrom(m.body.value, catalog, 0).value
    else []
  }

  /** Scanning one method and recording what it yields. A method without a
      body is skipped; a raising scan ends the analysis; otherwise the
      method's strings are appended under its key and no other list changes. */
  function AnalyzeMethod(typeName: string, m: MethodDecl, catalog: Catalog, results: ResultMap): (r: Result<ResultMap>)
    ensures m.body.None? ==> r == Ok(results)
    ensures m.body.Some? ==> (r.Ok? <==> ScanFrom(m.body.value, catalog, 0).Ok?)
    ensures r.Ok? ==> r.value.Keys == results.Keys +
                        (if MethodStrings(m, catalog) == [] then {} else {MethodKey(typeName, m.name)})
    ensures r.Ok? ==> ExtendsUnder(results, r.value, MethodKey(typeName, m.name), MethodStrings(m, catalog))
    ensures r.Ok? && WellFormed(results) ==> WellFormed(r.value)
    ensures r.Crash? ==> m.body.Some? && SomeLoadFaults(m.body.value, catalog)
  {
    match m.body
    case None => Ok(results)
    case Some(instrs) =>
      match ScanFrom(instrs, catalog, 0)
      case Crash(e) => Crash(e)
      case Ok(strs) =>
        RecordAllExtends(results, MethodKey(typeName, m.name), strs);
        Ok(RecordAll(results, MethodKey(typeName, m.name), strs))
  }

  /** `r` extends `results`: no key is lost and every list only grows at its end. */
  ghost predicate Grows(results: ResultMap, r: ResultMap)
  {
    forall k :: k in results ==> k in r && results[k] <= r[k]
  }

  /** `m` is a method with a body declared in one of `types`, under `key`. */
  ghost predicate KeyOfBodiedMethod(types: seq<TypeDecl>, key: string)
  {
    exists t, m :: t in types && m in t.methods && m.body.Some? && key == MethodKey(t.fullName, m.name)
  }

  /** Analysing the methods of one type, in declaration order. */
  function AnalyzeMethods(t: TypeDecl, ms: seq<MethodDecl>, catalog: Catalog, results: ResultMap): (r: Result<ResultMap>)
    decreases |ms|
    ensures r.Ok? ==> Grows(results, r.value)
    ensures r.Crash? ==> exists m :: m in ms && m.body.Some? && SomeLoadFaults(m.body.value, catalog)
  {
    if ms == [] then Ok(results)
    else
      match AnalyzeMethod(t.fullName, ms[0], catalog, results)
      case Crash(e) =>
        assert ms[0] in ms;
        Crash(e)
      case Ok(res) =>
        assert forall m :: m in ms[1..] ==> m in ms;
        AnalyzeMethodGrows(t.fullName, ms[0], catalog, results);
        var r := AnalyzeMethods(t, ms[1..], catalog, res);
        if r.Ok? then GrowsTrans(results, res, r.value); r else r
  }

  /** Analysing one method only grows the report. */
  lemma AnalyzeMethodGrows(typeName: string, m: MethodDecl, catalog: Catalog, results: ResultMap)
    ensures var r := AnalyzeMethod(typeName, m, catalog, results);
            r.Ok? ==> Grows(results, r.value)
  {
    var r := AnalyzeMethod(typeName, m, catalog, results);
    if r.Ok? {
      forall k | k in results
        ensures k in r.value && results[k] <= r.value[k]
      {
        assert ListOf(r.value, k) == ListOf(results, k) +
                 (if k == MethodKey(typeName, m.name) then MethodStrings(m, catalog) else []);
      }
    }
  }

  /** Growth is transitive. */
  lemma GrowsTrans(a: ResultMap, b: ResultMap, c: ResultMap)
    requires Grows(a, b) && Grows(b, c)
    ensures Grows(a, c)
  {
    forall k | k in a
      ensures k in c && a[k] <= c[k]
    {
      assert b[k] <= c[k];
    }
  }

  /** Analysing every type, in enumeration order. */
  function AnalyzeTypes(types: seq<TypeDecl>, catalog: Catalog, results: ResultMap): (r: Result<ResultMap>)
    decreases |types|
    ensures r.Ok? ==> Grows(results, r.value)
    ensures r.Crash? ==> exists t, m :: t in types && m in t.methods && m.body.Some? &&
                                       SomeLoadFaults(m.body.value, catalog)
  {
    if types == [] then Ok(results)
    else
      match AnalyzeMethods(types[0], types[0].methods, catalog, results)
      case Crash(e) => Crash(e)
      case Ok(res) =>
        var r := AnalyzeTypes(types[1..], catalog, res);
        if r.Ok? then GrowsTrans(results, res, r.value); r else r
  }

  /** The whole analysis: build the catalog, then scan every method body. The
      report's keys belong to methods with bodies, its lists are non-empty, and
      it can only fail through a catalogued load that raises. */
  function Analyze(types: seq<TypeDecl>): (r: Result<ResultMap>)
    ensures r.Ok? ==> WellFormed(r.value)
    ensures r.Ok? ==> forall k :: k in r.value ==> KeyOfBodiedMethod(types, k)
    ensures r.Crash? ==> exists t, m :: t in types && m in t.methods && m.body.Some? &&
                                       SomeLoadFaults(m.body.value, BuildCatalog(types))
  {
    AnalyzeTypesShape(types, BuildCatalog(types), map[]);
    AnalyzeTypes(types, BuildCatalog(types), map[])
  }

  /** Analysing a type's methods keeps every list non-empty, and each new key
      belongs to one of its methods with a body. */
  lemma {:induction false} AnalyzeMethodsShape(t: TypeDecl, ms: seq<MethodDecl>, catalog: Catalog, results: ResultMap)
    ensures var r := AnalyzeMethods(t, ms, catalog, results);
            r.Ok? && WellFormed(results) ==> WellFormed(r.value)
    ensures var r := AnalyzeMethods(t, ms, catalog, results);
            r.Ok? ==> forall k :: k in r.value && k !in results ==>
                        exists m :: m in ms && m.body.Some? && k == MethodKey(t.fullName, m.name)
    decreases |ms|
  {
    var r := AnalyzeMethods(t, ms, catalog, results);
    if ms == [] || r.Crash? {
      return;
    }
    AnalyzeMethodsStep(t, ms, catalog, results);
    var res := AnalyzeMethod(t.fullName, ms[0], catalog, results).value;
    AnalyzeMethodsShape(t, ms[1..], catalog, res);
    forall k | k in r.value && k !in results
      ensures exists m :: m in ms && m.body.Some? && k == MethodKey(t.fullName, m.name)
    {
      if k in res {
        assert k == MethodKey(t.fullName, ms[0].name) && MethodStrings(ms[0], catalog) != [];
        assert ms[0] in ms;
      } else {
        var m :| m in ms[1..] && m.body.Some? && k == MethodKey(t.fullName, m.name);
        assert m in ms;
      }
    }
  }

  /** The same over all types: lists stay non-empty and each new key belongs
      to a method with a body. */
  lemma {:induction false} AnalyzeTypesShape(types: seq<TypeDecl>, catalog: Catalog, results: ResultMap)
    ensures var r := AnalyzeTypes(types, catalog, results);
            r.Ok? && WellFormed(results) ==> WellFormed(r.value)
    ensures var r := AnalyzeTypes(types, catalog, results);
            r.Ok? ==> forall k :: k in r.value && k !in results ==> KeyOfBodiedMethod(types, k)
    decreases |types|
  {
    var r := AnalyzeTypes(types, catalog, results);
    if types == [] || r.Crash? {
      return;
    }
    AnalyzeTypesStep(types, catalog, results);
    var res := AnalyzeMethods(types[0], types[0].methods, catalog, results).value;
    AnalyzeMethodsShape(types[0], types[0].methods, catalog, results);
    AnalyzeTypesShape(types[1..], catalog, res);
    forall k | k in r.value && k !in results
      ensures KeyOfBodiedMethod(types, k)
    {
      if k in res {
        var m :| m in types[0].methods && m.body.Some? && k == MethodKey(types[0].fullName, m.name);
        assert types[0] in types;
      } else {
        assert KeyOfBodiedMethod(types[1..], k);
        var t, m :| t in types[1..] && m in t.methods && m.body.Some? && k == MethodKey(t.fullName, m.name);
        assert t in types;
      }
    }
  }

  /** What the methods `ms` of a type named `typeName` contribute under
      `key`: the strings of each method with that key, in declaration order. */
  ghost function MethodsReport(typeName: string, ms: seq<MethodDecl>, catalog: Catalog, key: string): seq<Utf16>
  {
    if ms == [] then []
    else
      (if key == MethodKey(typeName, ms[0].name) then MethodStrings(ms[0], catalog) else []) +
      MethodsReport(typeName, ms[1..], catalog, key)
  }

  /** What all of `types` contribute under `key`, in enumeration order. */
  ghost function TypesReport(types: seq<TypeDecl>, catalog: Catalog, key: string): seq<Utf16>
  {
    if types == [] then []
    else MethodsReport(types[0].fullName, types[0].methods, catalog, key) + TypesReport(types[1..], catalog, key)
  }

  /** Every method with a body in `ms` was scanned without an exception. */
  ghost predicate ScansSucceed(ms: seq<MethodDecl>, catalog: Catalog)
  {
    forall m :: m in ms && m.body.Some? ==> ScanFrom(m.body.value, catalog, 0).Ok?
  }

  /** Two successive extensions of a list are one extension by both parts. */
  lemma ConcatChain(x: seq<Utf16>, y: seq<Utf16>, z: seq<Utf16>, head: seq<Utf16>, rest: seq<Utf16>)
    requires y == x + head && z == y + rest
    ensures z == x + (head + rest)
  {
  }

  /** One step of `AnalyzeMethods` that did not raise. */
  lemma AnalyzeMethodsStep(t: TypeDecl, ms: seq<MethodDecl>, catalog: Catalog, results: ResultMap)
    requires ms != [] && AnalyzeMethods(t, ms, catalog, results).Ok?
    ensures AnalyzeMethod(t.fullName, ms[0], catalog, results).Ok?
    ensures AnalyzeMethods(t, ms, catalog, results) ==
            AnalyzeMethods(t, ms[1..], catalog, AnalyzeMethod(t.fullName, ms[0], catalog, results).value)
  {
  }

  /** One step of `AnalyzeTypes` that did not raise. */
  lemma AnalyzeTypesStep(types: seq<TypeDecl>, catalog: Catalog, results: ResultMap)
    requires types != [] && AnalyzeTypes(types, catalog, results).Ok?
    ensures AnalyzeMethods(types[0], types[0].methods, catalog, results).Ok?
    ensures AnalyzeTypes(types, catalog, results) ==
            AnalyzeTypes(types[1..], catalog, AnalyzeMethods(types[0], types[0].methods, catalog, results).value)
  {
  }

  /** When a type's methods are analysed without an exception, every scan
      succeeded and the list under `key` grows by exactly the strings of the
      methods with that key, in declaration order. */
  lemma {:induction false} AnalyzeMethodsLists(t: TypeDecl, ms: seq<MethodDecl>, catalog: Catalog,
                                               results: ResultMap, key: string)
    ensures var r := AnalyzeMethods(t, ms, catalog, results);
            r.Ok? ==> ListOf(r.value, key) == ListOf(results, key) + MethodsReport(t.fullName, ms, catalog, key)
    decreases |ms|
  {
    var r := AnalyzeMethods(t, ms, catalog, results);
    if ms == [] || r.Crash? {
      return;
    }
    AnalyzeMethodsStep(t, ms, catalog, results);
    var res := AnalyzeMethod(t.fullName, ms[0], catalog, results).value;
    AnalyzeMethodsLists(t, ms[1..], catalog, res, key);
    var head := if key == MethodKey(t.fullName, ms[0].name) then MethodStrings(ms[0], catalog) else [];
    var rest := MethodsReport(t.fullName, ms[1..], catalog, key);
    assert ListOf(res, key) == ListOf(results, key) + head;
    assert MethodsReport(t.fullName, ms, catalog, key) == head + rest;
    ConcatChain(ListOf(results, key), ListOf(res, key), ListOf(r.value, key), head, rest);
  }

  /** When a type's methods are analysed without an exception, every scan
      succeeded. */
  lemma {:induction false} AnalyzeMethodsScans(t: TypeDecl, ms: seq<MethodDecl>, catalog: Catalog, results: ResultMap)
    ensures AnalyzeMethods(t, ms, catalog, results).Ok? ==> ScansSucceed(ms, catalog)
    decreases |ms|
  {
    var r := AnalyzeMethods(t, ms, catalog, results);
    if ms == [] || r.Crash? {
      return;
    }
    AnalyzeMethodsStep(t, ms, catalog, results);
    var res := AnalyzeMethod(t.fullName, ms[0], catalog, results).value;
    AnalyzeMethodsScans(t, ms[1..], catalog, res);
    forall m | m in ms && m.body.Some?
      ensures ScanFrom(m.body.value, catalog, 0).Ok?
    {
      if m != ms[0] {
        assert m in ms[1..];
      }
    }
  }

  /** The same over all types: the list under `key` grows by exactly the
      strings of the methods with that key, in enumeration order. */
  lemma {:induction false} AnalyzeTypesLists(types: seq<TypeDecl>, catalog: Catalog, results: ResultMap, key: string)
    ensures var r := AnalyzeTypes(types, catalog, results);
            r.Ok? ==> ListOf(r.value, key) == ListOf(results, key) + TypesReport(types, catalog, key)
    decreases |types|
  {
    var r := AnalyzeTypes(types, catalog, results);
    if types == [] || r.Crash? {
      return;
    }
    var head := MethodsReport(types[0].fullName, types[0].methods, catalog, key);
    var rest := TypesReport(types[1..], catalog, key);
    assert AnalyzeMethods(types[0], types[0].methods, catalog, results).Ok? by {
      AnalyzeTypesStep(types, catalog, results);
    }
    var res := AnalyzeMethods(types[0], types[0].methods, catalog, results).value;
    assert r == AnalyzeTypes(types[1..], catalog, res) by {
      AnalyzeTypesStep(types, catalog, results);
    }
    assert ListOf(res, key) == ListOf(results, key) + head by {
      AnalyzeMethodsLists(types[0], types[0].methods, catalog, results, key);
    }
    assert ListOf(r.value, key) == ListOf(res, key) + rest by {
      AnalyzeTypesLists(types[1..], catalog, res, key);
    }
    assert TypesReport(types, catalog, key) == head + rest;
    ConcatChain(ListOf(results, key), ListOf(res, key), ListOf(r.value, key), head, rest);
  }

  /** When all types are analysed without an exception, every scan succeeded. */
  lemma {:induction false} AnalyzeTypesScans(types: seq<TypeDecl>, catalog: Catalog, results: ResultMap)
    ensures AnalyzeTypes(types, catalog, results).Ok? ==>
              forall t :: t in types ==> ScansSucceed(t.methods, catalog)
    decreases |types|
  {
    var r := AnalyzeTypes(types, catalog, results);
    if types == [] || r.Crash? {
      return;
    }
    AnalyzeTypesStep(types, catalog, results);
    var res := AnalyzeMethods(types[0], types[0].methods, catalog, results).value;
    AnalyzeMethodsScans(types[0], types[0].methods, catalog, results);
    AnalyzeTypesScans(types[1..], catalog, res);
    forall t | t in types
      ensures ScansSucceed(t.methods, catalog)
    {
      if t != types[0] {
        assert t in types[1..];
      }
    }
  }

  /** The report lists, under every key, exactly the strings of the methods
      with that key, in enumeration and declaration order; a key is present
      iff those strings are not all empty. Every method was scanned without
      an exception. */
  lemma ReportIsEveryMethodInOrder(types: seq<TypeDecl>)
    ensures var r := Analyze(types);
            r.Ok? ==> (forall t :: t in types ==> ScansSucceed(t.methods, BuildCatalog(types))) &&
                      forall k :: ListOf(r.value, k) == TypesReport(types, BuildCatalog(types), k) &&
                                  (k in r.value <==> TypesReport(types, BuildCatalog(types), k) != [])
  {
    var r := Analyze(types);
    if r.Ok? {
      forall k
        ensures ListOf(r.value, k) == TypesReport(types, BuildCatalog(types), k)
      {
        AnalyzeTypesLists(types, BuildCatalog(types), map[], k);
      }
      AnalyzeTypesScans(types, BuildCatalog(types), map[]);
    }
  }

  /** `xs` occurs as a contiguous run inside `ys`. */
  ghost predicate Infix(xs: seq<Utf16>, ys: seq<Utf16>)
  {
    exists a, b :: ys == a + xs + b
  }

  lemma InfixLeft(xs: seq<Utf16>, head: seq<Utf16>, rest: seq<Utf16>)
    requires Infix(xs, head)
    ensures Infix(xs, head + rest)
  {
    var a, b :| head == a + xs + b;
    assert head + rest == a + xs + (b + rest);
  }

  lemma InfixRight(xs: seq<Utf16>, head: seq<Utf16>, rest: seq<Utf16>)
    requires Infix(xs, rest)
    ensures Infix(xs, head + rest)
  {
    var a, b :| rest == a + xs + b;
    assert head + rest == (head + a) + xs + b;
  }

  /** A method's strings occur contiguously in what its type's methods
      contribute under its key. */
  lemma {:induction false} MethodsReportHas(typeName: string, ms: seq<MethodDecl>, catalog: Catalog, m: MethodDecl)
    requires m in ms
    ensures Infix(MethodStrings(m, catalog), MethodsReport(typeName, ms, catalog, MethodKey(typeName, m.name)))
    decreases |ms|
  {
    var key := MethodKey(typeName, m.name);
    var xs := MethodStrings(m, catalog);
    var head := if key == MethodKey(typeName, ms[0].name) then MethodStrings(ms[0], catalog) else [];
    var rest := MethodsReport(typeName, ms[1..], catalog, key);
    assert MethodsReport(typeName, ms, catalog, key) == head + rest;
    if ms[0] == m {
      assert head == [] + xs + [];
      InfixLeft(xs, head, rest);
    } else {
      assert m in ms[1..];
      MethodsReportHas(typeName, ms[1..], catalog, m);
      InfixRight(xs, head, rest);
    }
  }

  /** A method's strings occur contiguously in what all types contribute
      under its key. */
  lemma {:induction false} TypesReportHas(types: seq<TypeDecl>, catalog: Catalog, t: TypeDecl, m: MethodDecl)
    requires t in types && m in t.methods
    ensures Infix(MethodStrings(m, catalog), TypesReport(types, catalog, MethodKey(t.fullName, m.name)))
    decreases |types|
  {
    var key := MethodKey(t.fullName, m.name);
    var xs := MethodStrings(m, catalog);
    var head := MethodsReport(types[0].fullName, types[0].methods, catalog, key);
    var rest := TypesReport(types[1..], catalog, key);
    assert TypesReport(types, catalog, key) == head + rest;
    if types[0] == t {
      MethodsReportHas(t.fullName, t.methods, catalog, m);
      InfixLeft(xs, head, rest);
    } else {
      assert t in types[1..];
      TypesReportHas(types[1..], catalog, t, m);
      InfixRight(xs, head, rest);
    }
  }

  /** For every method with a body, its scan succeeded and the strings it
      found appear, in order and contiguously, in the report under
      `MethodKey(t.fullName, m.name)`. */
  lemma MethodStringsInReport(types: seq<TypeDecl>, t: TypeDecl, m: MethodDecl)
    requires t in types && m in t.methods && m.body.Some?
    ensures var r := Analyze(types);
            r.Ok? ==> ScanFrom(m.body.value, BuildCatalog(types), 0).Ok? &&
                      Infix(ScanFrom(m.body.value, BuildCatalog(types), 0).value,
                            ListOf(r.value, MethodKey(t.fullName, m.name)))
  {
    ReportIsEveryMethodInOrder(types);
    TypesReportHas(types, BuildCatalog(types), t, m);
  }

  /** With an empty catalog no method contributes anything. */
  lemma {:induction false} EmptyCatalogMethods(t: TypeDecl, ms: seq<MethodDecl>, results: ResultMap)
    ensures AnalyzeMethods(t, ms, map[], results) == Ok(results)
    decreases |ms|
  {
    if ms != [] {
      if ms[0].body.Some? {
        NoTriggerNoStrings(ms[0].body.value, map[]);
      }
      EmptyCatalogMethods(t, ms[1..], results);
    }
  }

  lemma {:induction false} EmptyCatalogTypes(types: seq<TypeDecl>, results: ResultMap)
    ensures AnalyzeTypes(types, map[], results) == Ok(results)
    decreases |types|
  {
    if types != [] {
      EmptyCatalogMethods(types[0], types[0].methods, results);
      EmptyCatalogTypes(types[1..], results);
    }
  }

  /** A module without any RVA field yields an empty report. */
  lemma NoRvaFieldsEmptyReport(types: seq<TypeDecl>)
    requires forall t, f :: t in types && f in t.fields ==> !f.hasFieldRva
    ensures Analyze(types) == Ok(map[])
  {
    assert BuildCatalog(types) == map[];
    EmptyCatalogTypes(types, map[]);
  }
}
