/** Comparing the symbols of two workspaces (src/ast-semantic-diff.cpp).

Symbols with the same (fqn, kind) form a group; the r-th of the old group is paired with the r-th of the new one.
`IsChange` says of one entry, without groups or loops, whether it is a change; `Compare` lists exactly the changes,
once each, in whatever order the hash maps are walked.
*/
module SemanticDiff {
  import opened Ast
  import opened Sequences
  import opened Symbols
  import opened Units

  datatype Key = Key(fqn: Text, kind: SymbolKind)

  /** Positions stand for the pointers into the two symbol tables. */
  datatype DiffEntry = Added(after: nat) | Removed(before: nat) | Modified(before: nat, after: nat)

  datatype Properties = Properties(access: Access, isStatic: bool, isConstexpr: bool, isInline: bool)

  function KeyOf(s: WorkspaceSymbol): Key {
    Key(s.symbol.fqn, s.symbol.kind)
  }

  function PropertiesOf(s: WorkspaceSymbol): Properties {
    Properties(s.symbol.access, s.symbol.isStatic, s.symbol.isConstexpr, s.symbol.isInline)
  }

  predicate PropertiesEqual(a: WorkspaceSymbol, b: WorkspaceSymbol) {
    && a.symbol.access == b.symbol.access && a.symbol.isStatic == b.symbol.isStatic
    && a.symbol.isConstexpr == b.symbol.isConstexpr && a.symbol.isInline == b.symbol.isInline
  }

  // ---- Groups ---------------------------------------------------------------

  /** The positions before `k` of the symbols with this key, in order. */
  function GroupUpTo(table: seq<WorkspaceSymbol>, key: Key, k: nat): seq<nat>
    requires k <= |table|
  {
    if k == 0 then []
    else if KeyOf(table[k - 1]) == key then GroupUpTo(table, key, k - 1) + [k - 1]
    else GroupUpTo(table, key, k - 1)
  }

  function Group(table: seq<WorkspaceSymbol>, key: Key): seq<nat> {
    GroupUpTo(table, key, |table|)
  }

  /** How many earlier symbols have the same key. */
  function Rank(table: seq<WorkspaceSymbol>, i: nat): nat
    requires i < |table|
  {
    |GroupUpTo(table, KeyOf(table[i]), i)|
  }

  /** Position `r` of a group holds a symbol of that key and rank `r` ... */
  lemma {:induction false} GroupHolds(table: seq<WorkspaceSymbol>, key: Key, k: nat, r: nat)
    requires k <= |table| && r < |GroupUpTo(table, key, k)|
    ensures var i := GroupUpTo(table, key, k)[r]; i < k && KeyOf(table[i]) == key && Rank(table, i) == r
  {
    if r < |GroupUpTo(table, key, k - 1)| {
      GroupHolds(table, key, k - 1, r);
    }
  }

  /** ... and every symbol is in its group at its rank. */
  lemma {:induction false} GroupFinds(table: seq<WorkspaceSymbol>, i: nat, k: nat)
    requires i < k <= |table|
    ensures Rank(table, i) < |GroupUpTo(table, KeyOf(table[i]), k)|
    ensures GroupUpTo(table, KeyOf(table[i]), k)[Rank(table, i)] == i
  {
    if i < k - 1 {
      GroupFinds(table, i, k - 1);
    }
  }

  // ---- What a change is -----------------------------------------------------

  /** Left over on its side, or paired by rank with a symbol of other properties. */
  predicate IsChange(old_: seq<WorkspaceSymbol>, new_: seq<WorkspaceSymbol>, e: DiffEntry) {
    match e
    case Removed(i) => i < |old_| && Rank(old_, i) >= |Group(new_, KeyOf(old_[i]))|
    case Added(j) => j < |new_| && Rank(new_, j) >= |Group(old_, KeyOf(new_[j]))|
    case Modified(i, j) =>
      && i < |old_| && j < |new_| && KeyOf(old_[i]) == KeyOf(new_[j]) && Rank(old_, i) == Rank(new_, j)
      && !PropertiesEqual(old_[i], new_[j])
  }

  function EntryKey(old_: seq<WorkspaceSymbol>, new_: seq<WorkspaceSymbol>, e: DiffEntry): Key
    requires IsChange(old_, new_, e)
  {
    match e case Removed(i) => KeyOf(old_[i]) case Added(j) => KeyOf(new_[j]) case Modified(i, _) => KeyOf(old_[i])
  }

  /** A correct comparison: all changes and nothing else, once each. */
  ghost predicate IsDiff(old_: seq<WorkspaceSymbol>, new_: seq<WorkspaceSymbol>, changes: seq<DiffEntry>) {
    Distinct(changes) && forall e :: e in changes <==> IsChange(old_, new_, e)
  }

  /** The changes under the keys of `done`, once each. */
  ghost predicate IsDiffOn(old_: seq<WorkspaceSymbol>, new_: seq<WorkspaceSymbol>, done: set<Key>, changes: seq<DiffEntry>) {
    Distinct(changes) && forall e :: e in changes <==> IsChange(old_, new_, e) && EntryKey(old_, new_, e) in done
  }

  // ---- One group ------------------------------------------------------------

  function Smaller(a: nat, b: nat): nat {
    if a < b then a else b
  }

  /** Pairs of unequal properties among the first `k`. */
  function ModifiedUpTo(old_: seq<WorkspaceSymbol>, new_: seq<WorkspaceSymbol>, og: seq<nat>, ng: seq<nat>, k: nat): seq<DiffEntry>
    requires k <= |og| && k <= |ng|
    requires (forall i :: i in og ==> i < |old_|) && (forall j :: j in ng ==> j < |new_|)
  {
    if k == 0 then []
    else
      var r := ModifiedUpTo(old_, new_, og, ng, k - 1);
      assert og[k - 1] in og && ng[k - 1] in ng;
      if !PropertiesEqual(old_[og[k - 1]], new_[ng[k - 1]]) then r + [Modified(og[k - 1], ng[k - 1])] else r
  }

  function RemovedFrom(og: seq<nat>, from: nat): seq<DiffEntry>
    requires from <= |og|
  {
    seq(|og| - from, i requires 0 <= i < |og| - from => Removed(og[from + i]))
  }

  function AddedFrom(ng: seq<nat>, from: nat): seq<DiffEntry>
    requires from <= |ng|
  {
    seq(|ng| - from, i requires 0 <= i < |ng| - from => Added(ng[from + i]))
  }

  lemma GroupInTable(table: seq<WorkspaceSymbol>, key: Key)
    ensures forall i :: i in Group(table, key) ==> i < |table|
  {
    forall i | i in Group(table, key) ensures i < |table| {
      var r :| 0 <= r < |Group(table, key)| && Group(table, key)[r] == i;
      GroupHolds(table, key, |table|, r);
    }
  }

  /** What diff_group lists for one key. */
  function GroupDiff(old_: seq<WorkspaceSymbol>, new_: seq<WorkspaceSymbol>, key: Key): seq<DiffEntry> {
    var og, ng := Group(old_, key), Group(new_, key);
    var common := Smaller(|og|, |ng|);
    GroupInTable(old_, key);
    GroupInTable(new_, key);
    ModifiedUpTo(old_, new_, og, ng, common) + RemovedFrom(og, common) + AddedFrom(ng, common)
  }

  ghost predicate PairedAt(old_: seq<WorkspaceSymbol>, new_: seq<WorkspaceSymbol>, og: seq<nat>, ng: seq<nat>, r: nat, e: DiffEntry)
    requires r < |og| && r < |ng|
  {
    og[r] < |old_| && ng[r] < |new_| && e == Modified(og[r], ng[r]) && !PropertiesEqual(old_[og[r]], new_[ng[r]])
  }

  lemma {:induction false} ModifiedExact(old_: seq<WorkspaceSymbol>, new_: seq<WorkspaceSymbol>, og: seq<nat>, ng: seq<nat>, k: nat, e: DiffEntry)
    requires k <= |og| && k <= |ng|
    requires (forall i :: i in og ==> i < |old_|) && (forall j :: j in ng ==> j < |new_|)
    ensures e in ModifiedUpTo(old_, new_, og, ng, k) <==> exists r :: 0 <= r < k && PairedAt(old_, new_, og, ng, r, e)
  {
    if k > 0 {
      ModifiedExact(old_, new_, og, ng, k - 1, e);
      assert og[k - 1] in og && ng[k - 1] in ng;
      assert PairedAt(old_, new_, og, ng, k - 1, e) <==>
        e == Modified(og[k - 1], ng[k - 1]) && !PropertiesEqual(old_[og[k - 1]], new_[ng[k - 1]]);
    }
  }

  lemma JoinOnce<T>(a: seq<T>, b: seq<T>)
    requires Distinct(a) && Distinct(b) && forall x :: x in a ==> x !in b
    ensures Distinct(a + b)
  {
    var s := a + b;
    forall i, j | 0 <= i < j < |s| ensures s[i] != s[j] {
      if i < |a| <= j {
        assert s[i] in a && s[j] in b;
      }
    }
  }

  lemma {:induction false} ModifiedOnce(old_: seq<WorkspaceSymbol>, new_: seq<WorkspaceSymbol>, og: seq<nat>, ng: seq<nat>, k: nat)
    requires k <= |og| && k <= |ng| && Distinct(og)
    requires (forall i :: i in og ==> i < |old_|) && (forall j :: j in ng ==> j < |new_|)
    ensures Distinct(ModifiedUpTo(old_, new_, og, ng, k))
  {
    if k > 0 {
      ModifiedOnce(old_, new_, og, ng, k - 1);
      var before := ModifiedUpTo(old_, new_, og, ng, k - 1);
      forall e | e in before ensures e != Modified(og[k - 1], ng[k - 1]) {
        ModifiedExact(old_, new_, og, ng, k - 1, e);
      }
      var last := [Modified(og[k - 1], ng[k - 1])];
      JoinOnce(before, last);
    }
  }

  lemma GroupOnce(table: seq<WorkspaceSymbol>, key: Key)
    ensures Distinct(Group(table, key))
  {
    var g := Group(table, key);
    forall i, j | 0 <= i < j < |g| ensures g[i] != g[j] {
      GroupHolds(table, key, |table|, i);
      GroupHolds(table, key, |table|, j);
    }
  }

  /** Membership of a group's list in terms of single entries. */
  lemma GroupDiffExact(old_: seq<WorkspaceSymbol>, new_: seq<WorkspaceSymbol>, key: Key, e: DiffEntry)
    ensures e in GroupDiff(old_, new_, key) <==> IsChange(old_, new_, e) && EntryKey(old_, new_, e) == key
  {
    match e
    case Removed(i) => RemovedExact(old_, new_, key, i);
    case Added(j) => AddedExact(old_, new_, key, j);
    case Modified(i, j) => PairExact(old_, new_, key, i, j);
  }

  lemma OnlyModified(old_: seq<WorkspaceSymbol>, new_: seq<WorkspaceSymbol>, key: Key, e: DiffEntry)
    requires !e.Modified?
    ensures var og, ng := Group(old_, key), Group(new_, key); var common := Smaller(|og|, |ng|);
      e in GroupDiff(old_, new_, key) <==> e in RemovedFrom(og, common) || e in AddedFrom(ng, common)
  {
    var og, ng := Group(old_, key), Group(new_, key);
    GroupInTable(old_, key);
    GroupInTable(new_, key);
    ModifiedExact(old_, new_, og, ng, Smaller(|og|, |ng|), e);
  }

  lemma RemovedMembers(og: seq<nat>, from: nat, i: nat)
    requires from <= |og|
    ensures Removed(i) in RemovedFrom(og, from) <==> exists r :: from <= r < |og| && og[r] == i
  {
    if r :| from <= r < |og| && og[r] == i {
      assert RemovedFrom(og, from)[r - from] == Removed(i);
    }
  }

  lemma AddedMembers(ng: seq<nat>, from: nat, j: nat)
    requires from <= |ng|
    ensures Added(j) in AddedFrom(ng, from) <==> exists r :: from <= r < |ng| && ng[r] == j
  {
    if r :| from <= r < |ng| && ng[r] == j {
      assert AddedFrom(ng, from)[r - from] == Added(j);
    }
  }

  lemma RemovedExact(old_: seq<WorkspaceSymbol>, new_: seq<WorkspaceSymbol>, key: Key, i: nat)
    ensures Removed(i) in GroupDiff(old_, new_, key) <==> IsChange(old_, new_, Removed(i)) && KeyOf(old_[i]) == key
  {
    var og, ng := Group(old_, key), Group(new_, key);
    var common := Smaller(|og|, |ng|);
    OnlyModified(old_, new_, key, Removed(i));
    RemovedMembers(og, common, i);
    if r :| common <= r < |og| && og[r] == i {
      GroupHolds(old_, key, |old_|, r);
    }
    if i < |old_| && KeyOf(old_[i]) == key {
      GroupFinds(old_, i, |old_|);
    }
  }

  lemma AddedExact(old_: seq<WorkspaceSymbol>, new_: seq<WorkspaceSymbol>, key: Key, j: nat)
    ensures Added(j) in GroupDiff(old_, new_, key) <==> IsChange(old_, new_, Added(j)) && KeyOf(new_[j]) == key
  {
    var og, ng := Group(old_, key), Group(new_, key);
    var common := Smaller(|og|, |ng|);
    OnlyModified(old_, new_, key, Added(j));
    AddedMembers(ng, common, j);
    if r :| common <= r < |ng| && ng[r] == j {
      GroupHolds(new_, key, |new_|, r);
    }
    if j < |new_| && KeyOf(new_[j]) == key {
      GroupFinds(new_, j, |new_|);
    }
  }

  lemma PairExact(old_: seq<WorkspaceSymbol>, new_: seq<WorkspaceSymbol>, key: Key, i: nat, j: nat)
    ensures Modified(i, j) in GroupDiff(old_, new_, key) <==> IsChange(old_, new_, Modified(i, j)) && KeyOf(old_[i]) == key
  {
    var og, ng := Group(old_, key), Group(new_, key);
    var common := Smaller(|og|, |ng|);
    GroupInTable(old_, key);
    GroupInTable(new_, key);
    ModifiedExact(old_, new_, og, ng, common, Modified(i, j));
    if r :| 0 <= r < common && PairedAt(old_, new_, og, ng, r, Modified(i, j)) {
      GroupHolds(old_, key, |old_|, r);
      GroupHolds(new_, key, |new_|, r);
    } else if IsChange(old_, new_, Modified(i, j)) && KeyOf(old_[i]) == key {
      GroupFinds(old_, i, |old_|);
      GroupFinds(new_, j, |new_|);
      assert PairedAt(old_, new_, og, ng, Rank(old_, i), Modified(i, j));
    }
  }

  lemma GroupDiffOnce(old_: seq<WorkspaceSymbol>, new_: seq<WorkspaceSymbol>, key: Key)
    ensures Distinct(GroupDiff(old_, new_, key))
  {
    var og, ng := Group(old_, key), Group(new_, key);
    var common := Smaller(|og|, |ng|);
    GroupInTable(old_, key);
    GroupInTable(new_, key);
    GroupOnce(old_, key);
    GroupOnce(new_, key);
    ModifiedOnce(old_, new_, og, ng, common);
    var m, r, a := ModifiedUpTo(old_, new_, og, ng, common), RemovedFrom(og, common), AddedFrom(ng, common);
    forall e | e in m ensures e.Modified? {
      ModifiedExact(old_, new_, og, ng, common, e);
    }
    JoinOnce(m, r);
    JoinOnce(m + r, a);
  }

  // ---- The comparison -------------------------------------------------------

  /** Position lists by key, as the unordered_map holds them. */
  ghost predicate IsIndex(table: seq<WorkspaceSymbol>, k: nat, index: map<Key, seq<nat>>)
    requires k <= |table|
  {
    && (forall key :: key in index <==> GroupUpTo(table, key, k) != [])
    && (forall key :: key in index ==> index[key] == GroupUpTo(table, key, k))
  }

  method BuildIndex(table: seq<WorkspaceSymbol>) returns (index: map<Key, seq<nat>>)
    ensures IsIndex(table, |table|, index)
  {
    index := map[];
    for k := 0 to |table|
      invariant IsIndex(table, k, index)
    {
      var key := KeyOf(table[k]);
      var group := if key in index then index[key] else [];
      assert group == GroupUpTo(table, key, k);
      index := index[key := group + [k]];
    }
  }

  method AppendRemoved(og: seq<nat>, from: nat, out: seq<DiffEntry>) returns (out': seq<DiffEntry>)
    requires from <= |og|
    ensures out' == out + RemovedFrom(og, from)
  {
    out' := out;
    ghost var removed := RemovedFrom(og, from);
    for i := from to |og|
      invariant out' == out + removed[..i - from]
    {
      assert removed[..i + 1 - from] == removed[..i - from] + [Removed(og[i])];
      out' := out' + [Removed(og[i])];
    }
    assert removed[..|og| - from] == removed;
  }

  method AppendAdded(ng: seq<nat>, from: nat, out: seq<DiffEntry>) returns (out': seq<DiffEntry>)
    requires from <= |ng|
    ensures out' == out + AddedFrom(ng, from)
  {
    out' := out;
    ghost var added := AddedFrom(ng, from);
    for i := from to |ng|
      invariant out' == out + added[..i - from]
    {
      assert added[..i + 1 - from] == added[..i - from] + [Added(ng[i])];
      out' := out' + [Added(ng[i])];
    }
    assert added[..|ng| - from] == added;
  }

  /** Appends the differences of two groups of the same key. */
  method DiffGroup(old_: seq<WorkspaceSymbol>, new_: seq<WorkspaceSymbol>, key: Key, og: seq<nat>, ng: seq<nat>, out: seq<DiffEntry>)
    returns (out': seq<DiffEntry>)
    requires og == Group(old_, key) && ng == Group(new_, key)
    ensures out' == out + GroupDiff(old_, new_, key)
  {
    GroupInTable(old_, key);
    GroupInTable(new_, key);
    var common := if |og| < |ng| then |og| else |ng|;
    out' := out;
    for i := 0 to common
      invariant out' == out + ModifiedUpTo(old_, new_, og, ng, i)
    {
      assert og[i] in og && ng[i] in ng;
      if !PropertiesEqual(old_[og[i]], new_[ng[i]]) {
        out' := out' + [Modified(og[i], ng[i])];
      }
    }
    out' := AppendRemoved(og, common, out');
    out' := AppendAdded(ng, common, out');
    ghost var m, r, a := ModifiedUpTo(old_, new_, og, ng, common), RemovedFrom(og, common), AddedFrom(ng, common);
    assert out + m + r + a == out + (m + r + a);
  }

  /** A key that one side lacks: everything of the other side is left over. */
  lemma OneSided(old_: seq<WorkspaceSymbol>, new_: seq<WorkspaceSymbol>, key: Key)
    ensures Group(new_, key) == [] ==> GroupDiff(old_, new_, key) == RemovedFrom(Group(old_, key), 0)
    ensures Group(old_, key) == [] ==> GroupDiff(old_, new_, key) == AddedFrom(Group(new_, key), 0)
  {
  }

  /** One more key handled. */
  lemma DiffOneMore(old_: seq<WorkspaceSymbol>, new_: seq<WorkspaceSymbol>, done: set<Key>, changes: seq<DiffEntry>, key: Key)
    requires IsDiffOn(old_, new_, done, changes) && key !in done
    ensures IsDiffOn(old_, new_, done + {key}, changes + GroupDiff(old_, new_, key))
  {
    var more := GroupDiff(old_, new_, key);
    forall e ensures e in more <==> IsChange(old_, new_, e) && EntryKey(old_, new_, e) == key {
      GroupDiffExact(old_, new_, key, e);
    }
    GroupDiffOnce(old_, new_, key);
    JoinOnce(changes, more);
  }

  /** The key of every change is in one of the two indexes. */
  lemma ChangeHasKey(old_: seq<WorkspaceSymbol>, new_: seq<WorkspaceSymbol>, e: DiffEntry)
    requires IsChange(old_, new_, e)
    ensures Group(old_, EntryKey(old_, new_, e)) != [] || Group(new_, EntryKey(old_, new_, e)) != []
  {
    match e
    case Removed(i) => GroupFinds(old_, i, |old_|);
    case Added(j) => GroupFinds(new_, j, |new_|);
    case Modified(i, _) => GroupFinds(old_, i, |old_|);
  }

  /** Walks the keys of both indexes in arbitrary order. */
  method Compare(old_: seq<WorkspaceSymbol>, new_: seq<WorkspaceSymbol>) returns (changes: seq<DiffEntry>)
    ensures IsDiff(old_, new_, changes)
  {
    var oldIdx := BuildIndex(old_);
    var newIdx := BuildIndex(new_);
    changes := [];
    var todo := oldIdx.Keys;
    ghost var done: set<Key> := {};
    while todo != {}
      invariant done == oldIdx.Keys - todo && todo <= oldIdx.Keys
      invariant IsDiffOn(old_, new_, done, changes)
      decreases todo
    {
      var key :| key in todo;
      DiffOneMore(old_, new_, done, changes, key);
      if key !in newIdx {
        OneSided(old_, new_, key);
        changes := AppendRemoved(oldIdx[key], 0, changes);
      } else {
        changes := DiffGroup(old_, new_, key, oldIdx[key], newIdx[key], changes);
      }
      done := done + {key};
      todo := todo - {key};
    }
    todo := newIdx.Keys;
    assert done == oldIdx.Keys + ((newIdx.Keys - oldIdx.Keys) - todo);
    while todo != {}
      invariant todo <= newIdx.Keys && done == oldIdx.Keys + ((newIdx.Keys - oldIdx.Keys) - todo)
      invariant IsDiffOn(old_, new_, done, changes)
      decreases todo
    {
      var key :| key in todo;
      if key !in oldIdx {
        DiffOneMore(old_, new_, done, changes, key);
        OneSided(old_, new_, key);
        changes := AppendAdded(newIdx[key], 0, changes);
        done := done + {key};
      }
      todo := todo - {key};
    }
    forall e | IsChange(old_, new_, e) ensures EntryKey(old_, new_, e) in done {
      ChangeHasKey(old_, new_, e);
    }
  }

  // ---- What a diff tells ----------------------------------------------------

  /** The positions before `k` whose symbols have the name and kind of `s`. */
  ghost function AlikeBefore(table: seq<WorkspaceSymbol>, s: WorkspaceSymbol, k: nat): set<nat>
    requires k <= |table|
  {
    set i: nat | i < k && table[i].symbol.fqn == s.symbol.fqn && table[i].symbol.kind == s.symbol.kind
  }

  lemma {:induction false} GroupSize(table: seq<WorkspaceSymbol>, s: WorkspaceSymbol, k: nat)
    requires k <= |table|
    ensures |GroupUpTo(table, KeyOf(s), k)| == |AlikeBefore(table, s, k)|
  {
    if k > 0 {
      GroupSize(table, s, k - 1);
      var before := AlikeBefore(table, s, k - 1);
      assert AlikeBefore(table, s, k) == if KeyOf(table[k - 1]) == KeyOf(s) then before + {k - 1} else before;
    }
  }

  /** The change that `e` is, by counting alike symbols: one removed has as many before it as there are in the new table,
  or more; one added likewise; and a modified pair has equally many before it on both sides, and differs in access,
  static, constexpr or inline. */
  ghost predicate IsChangeByCount(old_: seq<WorkspaceSymbol>, new_: seq<WorkspaceSymbol>, e: DiffEntry) {
    match e
    case Removed(i) => i < |old_| && |AlikeBefore(old_, old_[i], i)| >= |AlikeBefore(new_, old_[i], |new_|)|
    case Added(j) => j < |new_| && |AlikeBefore(new_, new_[j], j)| >= |AlikeBefore(old_, new_[j], |old_|)|
    case Modified(i, j) =>
      && i < |old_| && j < |new_|
      && var a, b := old_[i].symbol, new_[j].symbol;
         && a.fqn == b.fqn && a.kind == b.kind
         && |AlikeBefore(old_, old_[i], i)| == |AlikeBefore(new_, new_[j], j)|
         && (a.access != b.access || a.isStatic != b.isStatic || a.isConstexpr != b.isConstexpr || a.isInline != b.isInline)
  }

  /** An entry is reported exactly when counting says so. */
  lemma ReportedByCount(old_: seq<WorkspaceSymbol>, new_: seq<WorkspaceSymbol>, changes: seq<DiffEntry>, e: DiffEntry)
    requires IsDiff(old_, new_, changes)
    ensures e in changes <==> IsChangeByCount(old_, new_, e)
  {
    match e
    case Removed(i) =>
      if i < |old_| {
        GroupSize(old_, old_[i], i);
        GroupSize(new_, old_[i], |new_|);
      }
    case Added(j) =>
      if j < |new_| {
        GroupSize(new_, new_[j], j);
        GroupSize(old_, new_[j], |old_|);
      }
    case Modified(i, j) =>
      if i < |old_| && j < |new_| {
        GroupSize(old_, old_[i], i);
        GroupSize(new_, new_[j], j);
      }
  }

  /** The same entry seen from the other side. */
  function Swapped(e: DiffEntry): DiffEntry {
    match e case Removed(i) => Added(i) case Added(j) => Removed(j) case Modified(i, j) => Modified(j, i)
  }

  lemma SwapIsChange(old_: seq<WorkspaceSymbol>, new_: seq<WorkspaceSymbol>, e: DiffEntry)
    ensures IsChange(old_, new_, e) <==> IsChange(new_, old_, Swapped(e))
  {
  }

  /** Antisymmetry: comparing the other way round gives the swapped entries, as multisets, for any walk of the maps. */
  lemma DiffIsAntisymmetric(old_: seq<WorkspaceSymbol>, new_: seq<WorkspaceSymbol>, forward: seq<DiffEntry>, backward: seq<DiffEntry>, e: DiffEntry)
    requires IsDiff(old_, new_, forward) && IsDiff(new_, old_, backward)
    ensures multiset(forward)[e] == multiset(backward)[Swapped(e)]
  {
    SwapIsChange(old_, new_, e);
    AtMostOnce(forward, e);
    AtMostOnce(backward, Swapped(e));
  }

  predicate OnOldSide(e: DiffEntry, i: nat) {
    (e.Removed? || e.Modified?) && e.before == i
  }

  predicate OnNewSide(e: DiffEntry, j: nat) {
    (e.Added? || e.Modified?) && e.after == j
  }

  lemma SameRankSame(table: seq<WorkspaceSymbol>, i: nat, j: nat)
    requires i < |table| && j < |table| && KeyOf(table[i]) == KeyOf(table[j]) && Rank(table, i) == Rank(table, j)
    ensures i == j
  {
    GroupFinds(table, i, |table|);
    GroupFinds(table, j, |table|);
  }

  /** A symbol appears in at most one entry of each side. */
  lemma OneEntryPerSymbol(old_: seq<WorkspaceSymbol>, new_: seq<WorkspaceSymbol>, a: DiffEntry, b: DiffEntry, i: nat)
    requires IsChange(old_, new_, a) && IsChange(old_, new_, b)
    ensures OnOldSide(a, i) && OnOldSide(b, i) ==> a == b
    ensures OnNewSide(a, i) && OnNewSide(b, i) ==> a == b
  {
    if a.Modified? {
      GroupFinds(old_, a.before, |old_|);
      GroupFinds(new_, a.after, |new_|);
    }
    if b.Modified? {
      GroupFinds(old_, b.before, |old_|);
      GroupFinds(new_, b.after, |new_|);
    }
    if a.Modified? && b.Modified? && KeyOf(old_[a.before]) == KeyOf(old_[b.before]) && Rank(old_, a.before) == Rank(old_, b.before) {
      SameRankSame(old_, a.before, b.before);
      SameRankSame(new_, a.after, b.after);
    }
  }

  /** The property sequences of a key agree. */
  ghost predicate SameProperties(old_: seq<WorkspaceSymbol>, new_: seq<WorkspaceSymbol>, key: Key) {
    var og, ng := Group(old_, key), Group(new_, key);
    && |og| == |ng|
    && forall r :: 0 <= r < |og| && og[r] < |old_| && ng[r] < |new_| ==> PropertiesOf(old_[og[r]]) == PropertiesOf(new_[ng[r]])
  }

  lemma SamePropertiesNoChange(old_: seq<WorkspaceSymbol>, new_: seq<WorkspaceSymbol>, e: DiffEntry)
    requires IsChange(old_, new_, e)
    ensures !SameProperties(old_, new_, EntryKey(old_, new_, e))
  {
    match e
    case Removed(i) => GroupFinds(old_, i, |old_|);
    case Added(j) => GroupFinds(new_, j, |new_|);
    case Modified(i, j) =>
      GroupFinds(old_, i, |old_|);
      GroupFinds(new_, j, |new_|);
  }

  lemma DifferenceIsChange(old_: seq<WorkspaceSymbol>, new_: seq<WorkspaceSymbol>, key: Key) returns (e: DiffEntry)
    requires !SameProperties(old_, new_, key)
    ensures IsChange(old_, new_, e)
  {
    var og, ng := Group(old_, key), Group(new_, key);
    if |og| > |ng| {
      GroupHolds(old_, key, |old_|, |ng|);
      e := Removed(og[|ng|]);
    } else if |og| < |ng| {
      GroupHolds(new_, key, |new_|, |og|);
      e := Added(ng[|og|]);
    } else {
      var r :| 0 <= r < |og| && og[r] < |old_| && ng[r] < |new_| && PropertiesOf(old_[og[r]]) != PropertiesOf(new_[ng[r]]);
      GroupHolds(old_, key, |old_|, r);
      GroupHolds(new_, key, |new_|, r);
      e := Modified(og[r], ng[r]);
    }
  }

  /** Nothing is reported exactly when every key has the same property sequence on both sides. */
  lemma EmptyMeansSame(old_: seq<WorkspaceSymbol>, new_: seq<WorkspaceSymbol>, changes: seq<DiffEntry>)
    requires IsDiff(old_, new_, changes)
    ensures changes == [] <==> forall key :: SameProperties(old_, new_, key)
  {
    if changes == [] {
      forall key ensures SameProperties(old_, new_, key) {
        if !SameProperties(old_, new_, key) {
          var _ := DifferenceIsChange(old_, new_, key);
        }
      }
    } else {
      assert changes[0] in changes;
      SamePropertiesNoChange(old_, new_, changes[0]);
    }
  }

  // ---- Conservation ---------------------------------------------------------

  /** Entries picked from a list without repeats do not repeat. */
  lemma {:induction false} FilterOnce(changes: seq<DiffEntry>, p: DiffEntry -> bool)
    requires Distinct(changes)
    ensures Distinct(Filter(changes, p))
  {
    if changes != [] {
      var rest, last := changes[..|changes| - 1], changes[|changes| - 1];
      FilterOnce(rest, p);
      assert forall i :: 0 <= i < |rest| ==> rest[i] == changes[i];
      assert last !in rest;
      JoinOnce(Filter(rest, p), [last]);
    }
  }

  function RemovesKey(old_: seq<WorkspaceSymbol>, key: Key): DiffEntry -> bool {
    (e: DiffEntry) => e.Removed? && e.before < |old_| && KeyOf(old_[e.before]) == key
  }

  function AddsKey(new_: seq<WorkspaceSymbol>, key: Key): DiffEntry -> bool {
    (e: DiffEntry) => e.Added? && e.after < |new_| && KeyOf(new_[e.after]) == key
  }

  /** How many entries remove a symbol of this key. */
  function RemovedCount(old_: seq<WorkspaceSymbol>, changes: seq<DiffEntry>, key: Key): nat {
    |Filter(changes, RemovesKey(old_, key))|
  }

  function AddedCount(new_: seq<WorkspaceSymbol>, changes: seq<DiffEntry>, key: Key): nat {
    |Filter(changes, AddsKey(new_, key))|
  }

  lemma CountRemoved(old_: seq<WorkspaceSymbol>, new_: seq<WorkspaceSymbol>, changes: seq<DiffEntry>, key: Key)
    requires IsDiff(old_, new_, changes)
    ensures RemovedCount(old_, changes, key) == |Group(old_, key)| - Smaller(|Group(old_, key)|, |Group(new_, key)|)
  {
    var og, ng, p := Group(old_, key), Group(new_, key), RemovesKey(old_, key);
    var common := Smaller(|og|, |ng|);
    FilterOnce(changes, p);
    GroupOnce(old_, key);
    GroupInTable(old_, key);
    forall e ensures e in Filter(changes, p) <==> e in RemovedFrom(og, common) {
      GroupDiffExact(old_, new_, key, e);
      if !e.Modified? {
        OnlyModified(old_, new_, key, e);
      }
    }
    SameLength(Filter(changes, p), RemovedFrom(og, common));
  }

  lemma CountAdded(old_: seq<WorkspaceSymbol>, new_: seq<WorkspaceSymbol>, changes: seq<DiffEntry>, key: Key)
    requires IsDiff(old_, new_, changes)
    ensures AddedCount(new_, changes, key) == |Group(new_, key)| - Smaller(|Group(old_, key)|, |Group(new_, key)|)
  {
    var og, ng, p := Group(old_, key), Group(new_, key), AddsKey(new_, key);
    var common := Smaller(|og|, |ng|);
    FilterOnce(changes, p);
    GroupOnce(new_, key);
    GroupInTable(new_, key);
    forall e ensures e in Filter(changes, p) <==> e in AddedFrom(ng, common) {
      GroupDiffExact(old_, new_, key, e);
      if !e.Modified? {
        OnlyModified(old_, new_, key, e);
      }
    }
    SameLength(Filter(changes, p), AddedFrom(ng, common));
  }

  /** Conservation: what a key had, less what was removed, plus what was added, is what it has. */
  lemma DiffConserves(old_: seq<WorkspaceSymbol>, new_: seq<WorkspaceSymbol>, changes: seq<DiffEntry>, key: Key)
    requires IsDiff(old_, new_, changes)
    ensures |Group(old_, key)| - RemovedCount(old_, changes, key) + AddedCount(new_, changes, key) == |Group(new_, key)|
  {
    CountRemoved(old_, new_, changes, key);
    CountAdded(old_, new_, changes, key);
  }
}
