/** The analyzer's function list, its start-address index and its two instruction caches. */
module FunctionTable {
  import opened Instructions
  import opened CallGraphs
  import Sorting

  // ---- Decoding -----------------------------------------------------------------------------

  /** What one word of the image yields; unreadable and undecodable words are skipped. */
  datatype Fetched = Skipped | Decoded(inst: Instruction)

  type Image = uint32 -> Fetched

  /** The instructions of [addr, end), word by word. */
  function Decode(image: Image, addr: nat, end: uint32): seq<Instruction>
    decreases end - addr
  {
    if addr >= end then []
    else (match image(addr) case Skipped => [] case Decoded(inst) => [inst]) + Decode(image, addr + 4, end)
  }

  /** The 32-bit loop counter steps over every word of its residue without ever reaching the end. */
  predicate RunsAway(start: uint32, end: uint32) {
    start < end && 0xFFFF_FFFC + start % 4 < end
  }

  lemma NextWordFits(start: uint32, end: uint32, n: nat)
    requires !RunsAway(start, end) && start + 4 * n < end
    ensures Wrap32(start + 4 * n + 4) == start + 4 * n + 4
  {
    var m := start / 4 + n;
    assert start + 4 * n == 4 * m + start % 4;
    assert m < 0x4000_0000;
  }

  lemma DecodeNext(image: Image, addr: nat, end: uint32, done: seq<Instruction>)
    requires addr < end
    ensures done + Decode(image, addr, end)
            == (if image(addr).Decoded? then done + [image(addr).inst] else done) + Decode(image, addr + 4, end)
  {
  }

  /** The decode loop. It must not be called where it would not return. */
  method DecodeFunction(image: Image, start: uint32, end: uint32) returns (instructions: seq<Instruction>)
    requires !RunsAway(start, end)
    ensures instructions == Decode(image, start, end)
  {
    instructions := [];
    var addr: uint32 := start;
    ghost var n := 0;
    while addr < end
      invariant addr == start + 4 * n
      invariant instructions + Decode(image, addr, end) == Decode(image, start, end)
      decreases end - addr
    {
      DecodeNext(image, addr, end, instructions);
      match image(addr) {
        case Skipped =>
        case Decoded(inst) => instructions := instructions + [inst];
      }
      NextWordFits(start, end, n);
      addr := Wrap32(addr + 4);
      n := n + 1;
    }
  }

  /** Exactly then does the loop condition hold after every number of steps. */
  lemma DecodeLoopsForeverIff(start: uint32, end: uint32)
    ensures RunsAway(start, end) <==> forall k: nat :: Wrap32(start + 4 * k) < end
  {
    if RunsAway(start, end) {
      forall k: nat ensures Wrap32(start + 4 * k) < end {
        WordStep(start, k);
      }
    } else if start < end {
      var k := (0xFFFF_FFFC + start % 4 - start) / 4;
      assert Wrap32(start + 4 * k) == 0xFFFF_FFFC + start % 4;
    } else {
      assert Wrap32(start + 4 * 0) == start;
    }
  }

  /** A function that ends one byte behind the last word of the address space. */
  lemma DecodeRunsAway()
    ensures RunsAway(0xFFFF_FFF0, 0xFFFF_FFFD)
    ensures forall k: nat :: Wrap32(0xFFFF_FFF0 + 4 * k) < 0xFFFF_FFFD
  {
    DecodeLoopsForeverIff(0xFFFF_FFF0, 0xFFFF_FFFD);
  }

  lemma WordStep(start: uint32, k: nat)
    ensures Wrap32(start + 4 * k) % 4 == start % 4 && Wrap32(start + 4 * k) <= 0xFFFF_FFFC + start % 4
  {
    var q, r := (start + 4 * k) / TWO_32, Wrap32(start + 4 * k);
    var m := start / 4 + k - 0x4000_0000 * q;
    assert r == 4 * m + start % 4;
  }

  // ---- The table ----------------------------------------------------------------------------

  datatype Function = Function(name: Name, start: uint32, end: uint32, instructions: seq<Instruction>)

  datatype Bounds = Bounds(name: Name, end: uint32)

  /** A scanner match, and a row of an imported map. */
  datatype Match = Match(name: Name, address: uint32, size: uint32)
  datatype Row = Row(name: Name, start: uint32, end: uint32)

  /** A match names the function at its address and can only extend it; one that runs past the
      address space is ignored. */
  function MergeMatch(table: map<uint32, Bounds>, m: Match): map<uint32, Bounds> {
    if m.size > TWO_32 - 1 - m.address then table
    else
      var end := m.address + m.size;
      table[m.address := Bounds(m.name,
        if m.address in table && table[m.address].end > end then table[m.address].end else end)]
  }

  function MergeAll(table: map<uint32, Bounds>, ms: seq<Match>): map<uint32, Bounds>
    decreases |ms|
  {
    if ms == [] then table else MergeMatch(MergeAll(table, ms[..|ms| - 1]), ms[|ms| - 1])
  }

  /** m is a usable match for the function at address a. */
  predicate MatchesAt(m: Match, a: uint32) {
    m.address == a && m.size <= TWO_32 - 1 - m.address
  }

  /** Known are the old functions and the matched ones; an end is the largest of the old end and the
      matches' ends, whatever the order of the matches. */
  lemma {:induction false} MergeAllIs(table: map<uint32, Bounds>, ms: seq<Match>, a: uint32)
    ensures a in MergeAll(table, ms) <==> a in table || exists m <- ms :: MatchesAt(m, a)
    ensures a in table ==> table[a].end <= MergeAll(table, ms)[a].end
    ensures forall m <- ms :: MatchesAt(m, a) ==> a + m.size <= MergeAll(table, ms)[a].end
    ensures a in MergeAll(table, ms) ==>
      (a in table && MergeAll(table, ms)[a].end == table[a].end)
      || exists m <- ms :: MatchesAt(m, a) && MergeAll(table, ms)[a].end == a + m.size
    decreases |ms|
  {
    if ms != [] {
      var last, rest := ms[|ms| - 1], ms[..|ms| - 1];
      MergeAllIs(table, rest, a);
      assert forall m :: m in ms <==> m in rest || m == last;
    }
  }

  /** The name is that of the last usable match for the address. */
  lemma {:induction false} MergeAllNames(table: map<uint32, Bounds>, ms: seq<Match>, a: uint32, i: nat)
    requires i <= |ms| && forall j :: i <= j < |ms| ==> !MatchesAt(ms[j], a)
    ensures i == 0 ==> (a in MergeAll(table, ms) <==> a in table)
                       && (a in table ==> MergeAll(table, ms)[a].name == table[a].name)
    ensures i > 0 && MatchesAt(ms[i - 1], a) ==>
      a in MergeAll(table, ms) && MergeAll(table, ms)[a].name == ms[i - 1].name
    decreases |ms|
  {
    if i < |ms| {
      MergeAllNames(table, ms[..|ms| - 1], a, i);
    }
  }

  /** An imported row replaces name and end. */
  function ImportAll(table: map<uint32, Bounds>, rows: seq<Row>): map<uint32, Bounds>
    decreases |rows|
  {
    if rows == [] then table
    else
      var row := rows[|rows| - 1];
      ImportAll(table, rows[..|rows| - 1])[row.start := Bounds(row.name, row.end)]
  }

  /** The last row for an address counts. */
  lemma {:induction false} ImportAllIs(table: map<uint32, Bounds>, rows: seq<Row>, a: uint32, i: nat)
    requires i <= |rows| && forall j :: i <= j < |rows| ==> rows[j].start != a
    ensures i == 0 ==> (a in ImportAll(table, rows) <==> a in table)
                       && (a in table ==> ImportAll(table, rows)[a] == table[a])
    ensures i > 0 && rows[i - 1].start == a ==>
      a in ImportAll(table, rows) && ImportAll(table, rows)[a] == Bounds(rows[i - 1].name, rows[i - 1].end)
    decreases |rows|
  {
    if i < |rows| {
      ImportAllIs(table, rows[..|rows| - 1], a, i);
    }
  }

  ghost predicate DistinctStarts(fs: seq<Function>) {
    forall i, j :: 0 <= i < j < |fs| ==> fs[i].start != fs[j].start
  }

  ghost predicate SortedByStart(fs: seq<Function>) {
    forall i, j :: 0 <= i < j < |fs| ==> fs[i].start < fs[j].start
  }

  /** The list holds exactly the table's functions. */
  ghost predicate Lists(fs: seq<Function>, table: map<uint32, Bounds>) {
    && (forall i :: 0 <= i < |fs| ==> fs[i].start in table && table[fs[i].start] == Bounds(fs[i].name, fs[i].end))
    && (forall s :: s in table ==> exists i :: 0 <= i < |fs| && fs[i].start == s)
  }

  /** The index finds what a linear search for the start address finds. */
  ghost predicate Indexes(index: map<uint32, nat>, fs: seq<Function>) {
    && (forall s :: s in index ==> index[s] < |fs| && fs[index[s]].start == s)
    && (forall i :: 0 <= i < |fs| ==> fs[i].start in index)
  }

  lemma SameMembersList(fs: seq<Function>, gs: seq<Function>, table: map<uint32, Bounds>)
    requires Lists(fs, table) && forall f :: f in gs <==> f in fs
    ensures Lists(gs, table)
  {
    forall i | 0 <= i < |gs| ensures gs[i].start in table && table[gs[i].start] == Bounds(gs[i].name, gs[i].end) {
      assert gs[i] in fs;
    }
    forall s | s in table ensures exists i :: 0 <= i < |gs| && gs[i].start == s {
      var i :| 0 <= i < |fs| && fs[i].start == s;
      assert fs[i] in gs;
    }
  }

  /** The list with f put at position i, or appended. */
  function PutAt(fs: seq<Function>, i: nat, f: Function): seq<Function>
    requires i <= |fs|
  {
    if i < |fs| then fs[i := f] else fs + [f]
  }

  lemma PutAtKeeps(fs: seq<Function>, table: map<uint32, Bounds>, i: nat, f: Function)
    requires DistinctStarts(fs) && Lists(fs, table) && i <= |fs|
    requires if i < |fs| then fs[i].start == f.start else f.start !in table
    ensures DistinctStarts(PutAt(fs, i, f))
    ensures Lists(PutAt(fs, i, f), table[f.start := Bounds(f.name, f.end)])
  {
    var fs' := PutAt(fs, i, f);
    var table' := table[f.start := Bounds(f.name, f.end)];
    assert fs'[i] == f;
    forall s | s in table' ensures exists j :: 0 <= j < |fs'| && fs'[j].start == s {
      if s != f.start {
        var j :| 0 <= j < |fs| && fs[j].start == s;
        assert fs'[j] == fs[j];
      }
    }
  }

  lemma PutAtIndexed(fs: seq<Function>, index: map<uint32, nat>, i: nat, f: Function)
    requires Indexes(index, fs) && i <= |fs|
    requires if i < |fs| then fs[i].start == f.start else f.start !in index
    ensures Indexes(if i < |fs| then index else index[f.start := i], PutAt(fs, i, f))
  {
  }

  /** The function at position i, or a new one, after match m. */
  function Merged(fs: seq<Function>, i: nat, m: Match): Function
    requires i <= |fs| && m.size <= TWO_32 - 1 - m.address
  {
    var end := m.address + m.size;
    if i < |fs| then fs[i].(name := m.name, end := if fs[i].end < end then end else fs[i].end)
    else Function(m.name, m.address, end, [])
  }

  lemma MergedKeeps(fs: seq<Function>, table: map<uint32, Bounds>, i: nat, m: Match)
    requires DistinctStarts(fs) && Lists(fs, table) && i <= |fs| && m.size <= TWO_32 - 1 - m.address
    requires if i < |fs| then fs[i].start == m.address
             else forall j :: 0 <= j < |fs| ==> fs[j].start != m.address
    ensures DistinctStarts(PutAt(fs, i, Merged(fs, i, m)))
    ensures Lists(PutAt(fs, i, Merged(fs, i, m)), MergeMatch(table, m))
    ensures Merged(fs, i, m).start == m.address
  {
    var f := Merged(fs, i, m);
    PutAtKeeps(fs, table, i, f);
    assert MergeMatch(table, m) == table[f.start := Bounds(f.name, f.end)];
  }

  /** Not a library stub, not empty, and not decoded before. */
  predicate ToDecode(f: Function, lib: set<Name>) {
    f.name !in lib && f.start < f.end && f.instructions == []
  }

  /** The same functions, whatever instructions they remember. */
  ghost predicate SameFunctions(fs: seq<Function>, gs: seq<Function>) {
    |fs| == |gs| && forall i :: 0 <= i < |fs| ==> gs[i] == fs[i].(instructions := gs[i].instructions)
  }

  lemma SameFunctionsKeep(fs: seq<Function>, gs: seq<Function>, table: map<uint32, Bounds>, index: map<uint32, nat>)
    requires SameFunctions(fs, gs) && DistinctStarts(fs) && Lists(fs, table) && Indexes(index, fs)
    ensures DistinctStarts(gs) && Lists(gs, table) && Indexes(index, gs)
  {
    forall s | s in table ensures exists i :: 0 <= i < |gs| && gs[i].start == s {
      var i :| 0 <= i < |fs| && fs[i].start == s;
      assert gs[i].start == s;
    }
  }

  /** Every function remembers no decoding or the one it would get now. */
  ghost predicate Remembered(image: Image, fs: seq<Function>) {
    forall i :: 0 <= i < |fs| ==>
      fs[i].instructions == [] || fs[i].instructions == Decode(image, fs[i].start, fs[i].end)
  }

  /** The function with its instructions, if it is to be decoded. */
  function DecodedOf(image: Image, f: Function, lib: set<Name>): Function {
    if ToDecode(f, lib) then f.(instructions := Decode(image, f.start, f.end)) else f
  }

  lemma DecodedOfKeeps(image: Image, fs: seq<Function>, i: nat, lib: set<Name>)
    requires Remembered(image, fs) && i < |fs|
    ensures var gs := fs[i := DecodedOf(image, fs[i], lib)]; Remembered(image, gs) && SameFunctions(fs, gs)
    ensures var f := DecodedOf(image, fs[i], lib);
            f.name !in lib ==> f.instructions == Decode(image, f.start, f.end)
  {
  }

  /** The first n functions decoded. */
  function DecodedUpTo(image: Image, fs: seq<Function>, lib: set<Name>, n: nat): (gs: seq<Function>)
    requires n <= |fs|
    ensures |gs| == |fs|
  {
    seq(|fs|, i requires 0 <= i < |fs| => if i < n then DecodedOf(image, fs[i], lib) else fs[i])
  }

  lemma DecodedUpToNext(image: Image, fs: seq<Function>, lib: set<Name>, n: nat)
    requires n < |fs|
    ensures DecodedUpTo(image, fs, lib, n + 1)
            == DecodedUpTo(image, fs, lib, n)[n := DecodedOf(image, DecodedUpTo(image, fs, lib, n)[n], lib)]
  {
  }

  lemma DecodedUpToIs(image: Image, fs: seq<Function>, lib: set<Name>)
    requires Remembered(image, fs)
    ensures var gs := DecodedUpTo(image, fs, lib, |fs|);
            && SameFunctions(fs, gs)
            && forall i :: 0 <= i < |gs| && gs[i].name !in lib ==>
                 gs[i].instructions == Decode(image, gs[i].start, gs[i].end)
  {
  }

  /** The first n functions without their instructions. */
  function Cleared(fs: seq<Function>, n: nat): (gs: seq<Function>)
    requires n <= |fs|
    ensures |gs| == |fs|
  {
    seq(|fs|, i requires 0 <= i < |fs| => if i < n then fs[i].(instructions := []) else fs[i])
  }

  lemma ClearedNext(fs: seq<Function>, n: nat)
    requires n < |fs|
    ensures Cleared(fs, n + 1) == Cleared(fs, n)[n := Cleared(fs, n)[n].(instructions := [])]
  {
  }

  lemma ClearedIs(image: Image, fs: seq<Function>)
    ensures var gs := Cleared(fs, |fs|);
            && SameFunctions(fs, gs) && Remembered(image, gs)
            && forall i :: 0 <= i < |gs| ==> gs[i].instructions == []
  {
  }

  /** What sorting by start keeps. */
  lemma SortedKeeps(fs: seq<Function>, gs: seq<Function>, table: map<uint32, Bounds>)
    requires Lists(fs, table) && Sorting.SortedBy(gs, (f: Function) => f.start) && forall f :: f in gs <==> f in fs
    ensures SortedByStart(gs) && DistinctStarts(gs) && Lists(gs, table)
  {
    SameMembersList(fs, gs, table);
  }

  lemma SameFunctionsSorted(fs: seq<Function>, gs: seq<Function>)
    requires SameFunctions(fs, gs) && SortedByStart(fs)
    ensures SortedByStart(gs)
  {
  }

  class ElfAnalysisContext {
    const image: Image
    var functions: seq<Function>
    var functionIndexByStart: map<uint32, nat>
    var instructionCache: map<uint32, seq<Instruction>>
    /** The bounds of every known function. */
    ghost var table: map<uint32, Bounds>

    /** Every remembered decoding is the one the function would get now. */
    ghost predicate CachesFresh()
      reads this
    {
      && Remembered(image, functions)
      && (forall s :: s in instructionCache ==>
            s in table && instructionCache[s] == Decode(image, s, table[s].end))
    }

    ghost predicate Valid()
      reads this
    {
      && DistinctStarts(functions) && Lists(functions, table) && Indexes(functionIndexByStart, functions)
      && CachesFresh()
    }

    /** After loading: functions with distinct starts and no instructions yet. */
    constructor (image: Image, functions: seq<Function>, ghost table: map<uint32, Bounds>)
      requires DistinctStarts(functions) && Lists(functions, table)
      requires forall i :: 0 <= i < |functions| ==> functions[i].instructions == []
      ensures Valid() && this.image == image && this.table == table
    {
      this.image, this.functions, this.table := image, functions, table;
      this.instructionCache, this.functionIndexByStart := map[], map[];
      new;
      BuildFunctionIndex();
    }

    method BuildFunctionIndex()
      requires DistinctStarts(functions)
      modifies this`functionIndexByStart
      ensures Indexes(functionIndexByStart, functions)
    {
      functionIndexByStart := map[];
      for i := 0 to |functions|
        invariant Indexes(functionIndexByStart, functions[..i])
      {
        functionIndexByStart := functionIndexByStart[functions[i].start := i];
      }
      assert functions[..|functions|] == functions;
    }

    /** Forgets every decoding. */
    method ClearInstructionCache()
      requires DistinctStarts(functions) && Lists(functions, table) && Indexes(functionIndexByStart, functions)
      modifies this`functions, this`instructionCache
      ensures Valid() && instructionCache == map[]
      ensures SameFunctions(old(functions), functions)
      ensures forall i :: 0 <= i < |functions| ==> functions[i].instructions == []
    {
      instructionCache := map[];
      ghost var before := functions;
      for i := 0 to |functions|
        invariant functions == Cleared(before, i)
        invariant instructionCache == map[]
      {
        functions := functions[i := functions[i].(instructions := [])];
        ClearedNext(before, i);
      }
      ClearedIs(image, before);
      SameFunctionsKeep(before, functions, table, functionIndexByStart);
    }

    /** The indexed lookup: the position of the function starting there, or |functions|. */
    method FindFunction(start: uint32) returns (i: nat)
      requires DistinctStarts(functions) && Indexes(functionIndexByStart, functions)
      ensures i <= |functions|
      ensures i < |functions| ==> functions[i].start == start
      ensures i == |functions| <==> forall j :: 0 <= j < |functions| ==> functions[j].start != start
    {
      i := if start in functionIndexByStart then functionIndexByStart[start] else |functions|;
    }

    /** The linear search of the map import. */
    method FindLinearly(start: uint32) returns (i: nat)
      ensures i <= |functions|
      ensures i < |functions| ==> functions[i].start == start
      ensures i == |functions| <==> forall j :: 0 <= j < |functions| ==> functions[j].start != start
    {
      i := 0;
      while i < |functions|
        invariant i <= |functions| && forall j :: 0 <= j < i ==> functions[j].start != start
      {
        if functions[i].start == start {
          return;
        }
        i := i + 1;
      }
    }

    /** The common end of both update passes. */
    method Resort()
      requires DistinctStarts(functions) && Lists(functions, table)
      modifies this`functions, this`functionIndexByStart, this`instructionCache
      ensures Valid() && SortedByStart(functions)
    {
      ghost var before := functions;
      functions := Sorting.Sort(functions, (f: Function) => f.start);
      SortedKeeps(before, functions, table);
      ghost var sorted := functions;
      BuildFunctionIndex();
      ClearInstructionCache();
      SameFunctionsSorted(sorted, functions);
    }

    /** One match: rename and extend the function that starts there, or append it. */
    method MergeSymbol(m: Match)
      requires DistinctStarts(functions) && Lists(functions, table) && Indexes(functionIndexByStart, functions)
      modifies this`functions, this`functionIndexByStart, this`table
      ensures DistinctStarts(functions) && Lists(functions, table) && Indexes(functionIndexByStart, functions)
      ensures table == MergeMatch(old(table), m)
    {
      if m.size > TWO_32 - 1 - m.address {
        return;
      }
      var i := FindFunction(m.address);
      var f := Merged(functions, i, m);
      MergedKeeps(functions, table, i, m);
      PutAtIndexed(functions, functionIndexByStart, i, f);
      if i == |functions| {
        functionIndexByStart := functionIndexByStart[m.address := i];
      }
      functions := PutAt(functions, i, f);
      table := MergeMatch(table, m);
    }

    /** Merging the scanner's matches into the list. */
    method MergeSceSymbols(matches: seq<Match>)
      requires Valid()
      modifies this
      ensures Valid() && table == MergeAll(old(table), matches)
      ensures matches == [] || SortedByStart(functions)
    {
      if matches == [] {
        return;
      }
      for k := 0 to |matches|
        invariant DistinctStarts(functions) && Lists(functions, table) && Indexes(functionIndexByStart, functions)
        invariant table == MergeAll(old(table), matches[..k])
      {
        assert matches[..k + 1][..k] == matches[..k];
        MergeSymbol(matches[k]);
      }
      assert matches[..|matches|] == matches;
      Resort();
    }

    /** One imported row: overwrite the function that starts there, or append it. */
    method ImportRow(row: Row)
      requires DistinctStarts(functions) && Lists(functions, table)
      modifies this`functions, this`table
      ensures DistinctStarts(functions) && Lists(functions, table)
      ensures table == old(table)[row.start := Bounds(row.name, row.end)]
    {
      var i := FindLinearly(row.start);
      var f := if i < |functions| then functions[i].(name := row.name, end := row.end)
               else Function(row.name, row.start, row.end, []);
      PutAtKeeps(functions, table, i, f);
      table := table[row.start := Bounds(row.name, row.end)];
      functions := PutAt(functions, i, f);
    }

    /** Importing the rows of a function map. */
    method ImportMap(rows: seq<Row>)
      requires Valid()
      modifies this
      ensures Valid() && table == ImportAll(old(table), rows) && SortedByStart(functions)
    {
      for k := 0 to |rows|
        invariant DistinctStarts(functions) && Lists(functions, table)
        invariant table == ImportAll(old(table), rows[..k])
      {
        assert rows[..k + 1][..k] == rows[..k];
        ImportRow(rows[k]);
      }
      assert rows[..|rows|] == rows;
      Resort();
    }

    /** Decoding one function, unless it is a stub, empty, or decoded already. */
    method DecodeOnce(i: nat, lib: set<Name>)
      requires Valid() && i < |functions|
      requires ToDecode(functions[i], lib) ==> !RunsAway(functions[i].start, functions[i].end)
      modifies this`functions
      ensures Valid() && functions == old(functions)[i := DecodedOf(image, old(functions)[i], lib)]
      ensures functions[i].name !in lib ==>
        functions[i].instructions == Decode(image, functions[i].start, functions[i].end)
    {
      var f := functions[i];
      ghost var before := functions;
      if f.name !in lib && f.start < f.end && f.instructions == [] {
        var instructions := DecodeFunction(image, f.start, f.end);
        functions := functions[i := f.(instructions := instructions)];
      }
      DecodedOfKeeps(image, before, i, lib);
      SameFunctionsKeep(before, functions, table, functionIndexByStart);
    }

    /** Decoding every function that is no library stub, once. */
    method DecodeAllFunctionsOnce(lib: set<Name>)
      requires Valid()
      requires forall i :: 0 <= i < |functions| && ToDecode(functions[i], lib) ==>
        !RunsAway(functions[i].start, functions[i].end)
      modifies this`functions, this`instructionCache
      ensures Valid() && SameFunctions(old(functions), functions)
      ensures forall i :: 0 <= i < |functions| && functions[i].name !in lib ==>
        functions[i].instructions == Decode(image, functions[i].start, functions[i].end)
    {
      instructionCache := map[];
      ghost var before := functions;
      for i := 0 to |functions|
        invariant Valid() && functions == DecodedUpTo(image, before, lib, i)
      {
        DecodeOnce(i, lib);
        DecodedUpToNext(image, before, lib, i);
      }
      DecodedUpToIs(image, before, lib);
    }

    /** Main result on the caches: whatever updates happened before, this is a fresh decoding. */
    method GetDecodedInstructions(i: nat) returns (instructions: seq<Instruction>)
      requires Valid() && i < |functions|
      requires functions[i].instructions == [] && functions[i].start !in instructionCache ==>
        !RunsAway(functions[i].start, functions[i].end)
      modifies this`instructionCache
      ensures Valid()
      ensures instructions == Decode(image, functions[i].start, functions[i].end)
    {
      var f := functions[i];
      if f.instructions != [] || f.start >= f.end {
        return f.instructions;
      }
      if f.start !in instructionCache {
        var decoded := DecodeFunction(image, f.start, f.end);
        instructionCache := instructionCache[f.start := decoded];
      }
      return instructionCache[f.start];
    }
  }
}
