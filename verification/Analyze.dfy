/** Whole-workspace analysis (src/ast-workspace.cpp, analyze_workspace and analyze_files): what a run leaves once sorted.

The workers of module `AnalyzePipeline` merge their results in whatever order they finish. Sorting the vectors at the
end removes that order, except among symbols that the order does not tell apart.
*/
module Analyze {
  import opened Ast
  import opened Options
  import opened Sequences
  import opened Sorting
  import opened Worlds
  import opened Units
  import opened Workspaces
  import opened AnalyzePipeline

  // ---- Merged results -------------------------------------------------------

  /** The unit of one file, when it parses. */
  function UnitsAt(w: World, d: Disk): Text -> seq<LoadedUnit> {
    (p: Text) => match AnalysisOf(w, d, p) case None => [] case Some(u) => [u]
  }

  function SymbolsAt(w: World, d: Disk): Text -> seq<WorkspaceSymbol> {
    (p: Text) => match AnalysisOf(w, d, p) case None => [] case Some(u) => LiftAll(u.unit)
  }

  function DepsAt(w: World, d: Disk): Text -> seq<FileDependencies> {
    (p: Text) => match AnalysisOf(w, d, p) case None => [] case Some(u) => [DependenciesOf(w, u)]
  }

  /** What merging the results of `paths` leaves, file by file; every file is a unit or a failure. */
  lemma {:induction false} MergedFields(w: World, d: Disk, paths: seq<Text>)
    ensures var m := Merged(w, d, paths);
      && m.units == Collected(UnitsAt(w, d), paths)
      && m.symbols == Collected(SymbolsAt(w, d), paths)
      && m.deps == Collected(DepsAt(w, d), paths)
      && m.parsed == |m.units| && m.parsed + m.failed == |paths|
      && m == Opened(None).(units := m.units, symbols := m.symbols, deps := m.deps, index := m.index,
                            parsed := m.parsed, failed := m.failed)
  {
    if paths != [] {
      var rest, last := paths[..|paths| - 1], paths[|paths| - 1];
      MergedFields(w, d, rest);
      MergeOne(w, d, Merged(w, d, rest), last);
    }
  }

  lemma MergeOne(w: World, d: Disk, m: Memory, p: Text)
    ensures var n := MergeResult(w, m, AnalysisOf(w, d, p));
      && n.units == m.units + UnitsAt(w, d)(p) && n.symbols == m.symbols + SymbolsAt(w, d)(p)
      && n.deps == m.deps + DepsAt(w, d)(p)
      && n.parsed + n.failed == m.parsed + m.failed + 1 && n.parsed - m.parsed == |n.units| - |m.units|
      && n == m.(units := n.units, symbols := n.symbols, deps := n.deps, index := n.index, parsed := n.parsed, failed := n.failed)
  {
    assert m.units + [] == m.units && m.symbols + [] == m.symbols && m.deps + [] == m.deps;
  }

  /** The merged symbols are those of the merged units, one unit after the other, and likewise the dependencies. */
  lemma {:induction false} MergedInStep(w: World, d: Disk, paths: seq<Text>)
    ensures Merged(w, d, paths).symbols == AllSymbols(Merged(w, d, paths).units)
    ensures Merged(w, d, paths).deps == DepsOf(w, Merged(w, d, paths).units)
  {
    if paths != [] {
      var rest, last := paths[..|paths| - 1], AnalysisOf(w, d, paths[|paths| - 1]);
      MergedInStep(w, d, rest);
      var units := Merged(w, d, rest).units;
      if last.Some? {
        SymbolsSnoc(units, last.value);
        assert (units + [last.value])[..|units|] == units;
      }
    }
  }

  // ---- Sorting --------------------------------------------------------------

  /** Units by path. */
  function UnitOrder(less: (Text, Text) -> bool): (LoadedUnit, LoadedUnit) -> bool {
    (a: LoadedUnit, b: LoadedUnit) => less(a.unit.path, b.unit.path)
  }

  function DepsOrder(less: (Text, Text) -> bool): (FileDependencies, FileDependencies) -> bool {
    (a: FileDependencies, b: FileDependencies) => less(a.file, b.file)
  }

  /** Symbols by file, then line, then column. */
  predicate SymbolBefore(less: (Text, Text) -> bool, a: WorkspaceSymbol, b: WorkspaceSymbol) {
    if a.sourceFile != b.sourceFile then less(a.sourceFile, b.sourceFile)
    else if a.symbol.line != b.symbol.line then a.symbol.line < b.symbol.line
    else a.symbol.column < b.symbol.column
  }

  function SymbolOrder(less: (Text, Text) -> bool): (WorkspaceSymbol, WorkspaceSymbol) -> bool {
    (a: WorkspaceSymbol, b: WorkspaceSymbol) => SymbolBefore(less, a, b)
  }

  /** What sort_workspace may make of `m`: sorted vectors, and the index rebuilt for them. */
  ghost predicate IsSorted(w: World, less: (Text, Text) -> bool, m: Memory, t: Memory) {
    && IsSorting(UnitOrder(less), m.units, t.units)
    && IsSorting(DepsOrder(less), m.deps, t.deps)
    && IsSorting(SymbolOrder(less), m.symbols, t.symbols)
    && t == m.(units := t.units, deps := t.deps, symbols := t.symbols, index := IndexOf(w, t.units))
  }

  lemma OrdersAreStrict(less: (Text, Text) -> bool)
    requires Strict(less)
    ensures Strict(UnitOrder(less)) && Strict(DepsOrder(less))
  {
    forall a: LoadedUnit ensures !UnitOrder(less)(a, a) {
      assert !less(a.unit.path, a.unit.path);
    }
    forall a: FileDependencies ensures !DepsOrder(less)(a, a) {
      assert !less(a.file, a.file);
    }
    forall a, b, c: LoadedUnit | UnitOrder(less)(a, b) && UnitOrder(less)(b, c) ensures UnitOrder(less)(a, c) {
      assert less(a.unit.path, b.unit.path) && less(b.unit.path, c.unit.path);
    }
    forall a, b, c: FileDependencies | DepsOrder(less)(a, b) && DepsOrder(less)(b, c) ensures DepsOrder(less)(a, c) {
      assert less(a.file, b.file) && less(b.file, c.file);
    }
  }

  lemma SymbolOrderIsStrict(less: (Text, Text) -> bool)
    requires Strict(less)
    ensures Strict(SymbolOrder(less))
  {
    forall a, b, c | SymbolBefore(less, a, b) && SymbolBefore(less, b, c) ensures SymbolBefore(less, a, c) {
      assert !less(a.sourceFile, a.sourceFile);
    }
  }

  /** The index rebuilt after sorting is the one that loading the sorted units in a row would have built. */
  method RebuildIndex(w: World, units: seq<LoadedUnit>) returns (index: map<Text, nat>)
    ensures index == IndexOf(w, units)
  {
    index := map[];
    for i := 0 to |units|
      invariant index == IndexOf(w, units[..i])
    {
      assert units[..i + 1][..i] == units[..i];
      index := index[w.normal(units[i].unit.path) := i];
    }
    assert units[..|units|] == units;
  }

  method SortWorkspace(ws: Workspace, less: (Text, Text) -> bool)
    requires Strict(less)
    modifies ws
    ensures IsSorted(ws.w, less, old(ws.View()), ws.View())
  {
    OrdersAreStrict(less);
    SymbolOrderIsStrict(less);
    ws.translationUnits := Sort(UnitOrder(less), ws.translationUnits);
    ws.deps := Sort(DepsOrder(less), ws.deps);
    ws.symbols := Sort(SymbolOrder(less), ws.symbols);
    ws.tuIndex := RebuildIndex(ws.w, ws.translationUnits);
  }

  /** Once sorted, units and dependencies come by path, and symbols by path, within a file by line, within a line by column. */
  lemma SortedByPlace(w: World, less: (Text, Text) -> bool, m: Memory, t: Memory, j: nat, k: nat)
    requires Strict(less) && IsSorted(w, less, m, t) && j < k
    ensures k < |t.units| ==> !less(t.units[k].unit.path, t.units[j].unit.path)
    ensures k < |t.deps| ==> !less(t.deps[k].file, t.deps[j].file)
    ensures k < |t.symbols| ==>
      var a, b := t.symbols[j], t.symbols[k];
      && !less(b.sourceFile, a.sourceFile)
      && (a.sourceFile == b.sourceFile ==> a.symbol.line <= b.symbol.line)
      && (a.sourceFile == b.sourceFile && a.symbol.line == b.symbol.line ==> a.symbol.column <= b.symbol.column)
  {
    if k < |t.units| {
      assert !UnitOrder(less)(t.units[k], t.units[j]);
    }
    if k < |t.deps| {
      assert !DepsOrder(less)(t.deps[k], t.deps[j]);
    }
    if k < |t.symbols| {
      assert !SymbolOrder(less)(t.symbols[k], t.symbols[j]);
    }
  }

  // ---- Order independence ---------------------------------------------------

  lemma {:induction false} CollectedFrom<U>(f: Text -> seq<U>, paths: seq<Text>, x: U) returns (p: Text)
    requires x in Collected(f, paths)
    ensures p in paths && x in f(p)
  {
    var rest, last := paths[..|paths| - 1], paths[|paths| - 1];
    if x in f(last) {
      p := last;
    } else {
      p := CollectedFrom(f, rest, x);
      assert paths == rest + [last];
    }
  }

  lemma {:induction false} UnitsSeparated(w: World, d: Disk, less: (Text, Text) -> bool, paths: seq<Text>)
    requires Separates(less, paths)
    ensures Separates(UnitOrder(less), Collected(UnitsAt(w, d), paths))
  {
    var units := Collected(UnitsAt(w, d), paths);
    forall x, y | x in units && y in units
      ensures less(x.unit.path, y.unit.path) || less(y.unit.path, x.unit.path) || x == y
    {
      var p := CollectedFrom(UnitsAt(w, d), paths, x);
      var q := CollectedFrom(UnitsAt(w, d), paths, y);
      assert less(p, q) || less(q, p) || p == q;
    }
  }

  lemma {:induction false} DepsSeparated(w: World, d: Disk, less: (Text, Text) -> bool, paths: seq<Text>)
    requires Separates(less, paths)
    ensures Separates(DepsOrder(less), Collected(DepsAt(w, d), paths))
  {
    var deps := Collected(DepsAt(w, d), paths);
    forall x, y | x in deps && y in deps ensures less(x.file, y.file) || less(y.file, x.file) || x == y {
      var p := CollectedFrom(DepsAt(w, d), paths, x);
      var q := CollectedFrom(DepsAt(w, d), paths, y);
      assert less(p, q) || less(q, p) || p == q;
    }
  }

  /** The same workspace, up to the order of the symbols. */
  ghost predicate SameWorkspace(a: Memory, b: Memory) {
    multiset(a.symbols) == multiset(b.symbols) && a == b.(symbols := a.symbols)
  }

  lemma {:induction false} MergedAgree(w: World, d: Disk, a: seq<Text>, b: seq<Text>)
    requires SameItems(a, b)
    ensures var m, n := Merged(w, d, a), Merged(w, d, b);
      && multiset(m.units) == multiset(n.units) && multiset(m.deps) == multiset(n.deps)
      && multiset(m.symbols) == multiset(n.symbols)
  {
    MergedFields(w, d, a);
    MergedFields(w, d, b);
    CollectedAgrees(UnitsAt(w, d), a, b);
    CollectedAgrees(DepsAt(w, d), a, b);
    CollectedAgrees(SymbolsAt(w, d), a, b);
  }

  lemma {:induction false} SameCounts(w: World, d: Disk, a: seq<Text>, b: seq<Text>)
    requires SameItems(a, b)
    ensures Merged(w, d, a).parsed == Merged(w, d, b).parsed && Merged(w, d, a).failed == Merged(w, d, b).failed
  {
    MergedAgree(w, d, a, b);
    MergedFields(w, d, a);
    MergedFields(w, d, b);
    assert |Merged(w, d, a).units| == |multiset(Merged(w, d, a).units)|;
    assert |Merged(w, d, b).units| == |multiset(Merged(w, d, b).units)|;
    SumOfOnes(a);
    SumOfOnes(b);
    SumAgrees((p: Text) => 1, a, b);
  }

  lemma {:induction false} SumOfOnes(paths: seq<Text>)
    ensures Sum((p: Text) => 1, paths) == |paths|
  {
    if paths != [] {
      SumOfOnes(paths[..|paths| - 1]);
    }
  }

  lemma {:induction false} SortedVectorsAgree(w: World, d: Disk, less: (Text, Text) -> bool, a: seq<Text>, b: seq<Text>, s: Memory, t: Memory)
    requires SameItems(a, b) && Separates(less, b)
    requires IsSorted(w, less, Merged(w, d, a), s) && IsSorted(w, less, Merged(w, d, b), t)
    ensures s.units == t.units && s.deps == t.deps && multiset(s.symbols) == multiset(t.symbols)
  {
    MergedAgree(w, d, a, b);
    MergedFields(w, d, b);
    UnitsSeparated(w, d, less, b);
    DepsSeparated(w, d, less, b);
    SameSeparates(UnitOrder(less), Merged(w, d, b).units, t.units);
    SameSeparates(DepsOrder(less), Merged(w, d, b).deps, t.deps);
    SortedIsUnique(UnitOrder(less), t.units, s.units);
    SortedIsUnique(DepsOrder(less), t.deps, s.deps);
  }

  /** Two orders of merging the same paths, sorted, give the same workspace. */
  lemma {:induction false} OrderDoesNotMatter(w: World, d: Disk, less: (Text, Text) -> bool, a: seq<Text>, b: seq<Text>, s: Memory, t: Memory)
    requires SameItems(a, b) && Separates(less, b)
    requires IsSorted(w, less, Merged(w, d, a), s) && IsSorted(w, less, Merged(w, d, b), t)
    ensures SameWorkspace(s, t)
  {
    SortedVectorsAgree(w, d, less, a, b, s, t);
    SameCounts(w, d, a, b);
    MergedFields(w, d, a);
    MergedFields(w, d, b);
  }

  /** Schedule independence: however scanner and workers interleave, a finished run, sorted, leaves the workspace that
  analysing the files one after the other in scan order leaves, sorted. */
  lemma {:induction false} ScheduleDoesNotMatter(c: Config, run: seq<Step>, less: (Text, Text) -> bool, s: Memory, t: Memory)
    requires Sane(c) && Possible(c, Start(c), run) && Final(c, Start(c), run).finished
    requires Separates(less, c.paths)
    requires IsSorted(c.w, less, Final(c, Start(c), run).ws, s) && IsSorted(c.w, less, Merged(c.w, c.disk, c.paths), t)
    ensures SameWorkspace(s, t)
    ensures s.parsed + s.failed == |c.paths|
  {
    FinishedMergesAll(c, run);
    OrderDoesNotMatter(c.w, c.disk, less, Final(c, Start(c), run).merged, c.paths, s, t);
    MergedFields(c.w, c.disk, c.paths);
  }

  /** ... and so do any two runs, even on machines with different numbers of workers. */
  lemma {:induction false} RunsAgree(c: Config, run: seq<Step>, c': Config, run': seq<Step>, less: (Text, Text) -> bool, s: Memory, t: Memory)
    requires Sane(c) && Possible(c, Start(c), run) && Final(c, Start(c), run).finished
    requires Sane(c') && Possible(c', Start(c'), run') && Final(c', Start(c'), run').finished
    requires c'.w == c.w && c'.disk == c.disk && SameItems(c'.paths, c.paths) && Separates(less, c.paths)
    requires IsSorted(c.w, less, Final(c, Start(c), run).ws, s) && IsSorted(c.w, less, Final(c', Start(c'), run').ws, t)
    ensures SameWorkspace(s, t)
  {
    FinishedMergesAll(c, run);
    FinishedMergesAll(c', run');
    var a, b := Final(c, Start(c), run).merged, Final(c', Start(c'), run').merged;
    SameItemsSeparated(less, c.paths, a);
    OrderDoesNotMatter(c.w, c.disk, less, b, a, t, s);
  }

  lemma SameItemsSeparated(less: (Text, Text) -> bool, a: seq<Text>, b: seq<Text>)
    requires SameItems(b, a) && Separates(less, a)
    ensures Separates(less, b)
  {
    SameMembers(b, a);
  }
}
