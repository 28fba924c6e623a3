/** The precomputed visibility table (src/ast-scope-visibility.cpp) and its agreement with the ancestor walk. */
module Visibility {
  import opened Ast
  import opened Sequences
  import opened Sorting
  import opened Symbols
  import opened ScopeTrees
  import opened Lookups

  datatype Entry = Entry(visible: seq<nat>, byName: map<Text, nat>)

  /** `names` overlaid with the symbols of `list`; a later entry replaces an earlier one of the same name. */
  function Layer(names: map<Text, nat>, list: seq<nat>, symbols: seq<Symbol>): map<Text, nat> {
    if list == [] then names
    else
      var below, last := Layer(names, list[..|list| - 1], symbols), list[|list| - 1];
      if last < |symbols| then below[symbols[last].name := last] else below
  }

  /** The names visible in scope `id`: those of its parent, shadowed by its own. */
  function NamesIn(scopes: seq<Scope>, symbols: seq<Symbol>, id: nat): map<Text, nat>
    requires Ordered(scopes) && id < |scopes|
    decreases id
  {
    var parent := scopes[id].parent;
    Layer(if parent < id then NamesIn(scopes, symbols, parent) else map[], scopes[id].symbols, symbols)
  }

  ghost predicate StrictlySorted(s: seq<nat>) {
    forall i, j :: 0 <= i < j < |s| ==> s[i] < s[j]
  }

  /** The visible list holds each value of the name map once, in increasing order. */
  ghost predicate ListsValues(e: Entry) {
    StrictlySorted(e.visible) && forall v: nat :: v in e.visible <==> v in e.byName.Values
  }

  /** Every name maps to a symbol of that name. */
  ghost predicate NamesSymbols(names: map<Text, nat>, symbols: seq<Symbol>) {
    forall n :: n in names ==> names[n] < |symbols| && symbols[names[n]].name == n
  }

  method SortIndices(values: seq<nat>) returns (sorted: seq<nat>)
    requires Distinct(values)
    ensures StrictlySorted(sorted) && forall v: nat :: v in sorted <==> v in values
  {
    sorted := Sort((a: nat, b: nat) => a < b, values);
    SortedItems(values, sorted);
  }

  lemma SortedItems(values: seq<nat>, sorted: seq<nat>)
    requires Distinct(values) && IsSorting((a: nat, b: nat) => a < b, values, sorted)
    ensures StrictlySorted(sorted) && forall v: nat :: v in sorted <==> v in values
  {
    RearrangedDistinct(values, sorted);
    forall v: nat ensures v in sorted <==> v in values {
      assert v in sorted <==> v in multiset(sorted);
    }
  }

  class ScopeVisibility {
    var entries: seq<Entry>

    ghost predicate Computed(scopes: seq<Scope>, symbols: seq<Symbol>, upTo: nat)
      reads this
      requires Ordered(scopes)
    {
      && |entries| == |scopes| && upTo <= |scopes|
      && forall id :: 0 <= id < upTo ==> entries[id].byName == NamesIn(scopes, symbols, id) && ListsValues(entries[id])
    }

    /** ScopeVisibility::compute. */
    constructor Compute(scopes: seq<Scope>, symbols: seq<Symbol>)
      requires Ordered(scopes)
      ensures Computed(scopes, symbols, |scopes|)
    {
      entries := seq(|scopes|, _ => Entry([], map[]));
      new;
      for id := 0 to |scopes|
        invariant Computed(scopes, symbols, id)
      {
        var parentId := scopes[id].parent;
        var names: map<Text, nat> := map[];
        if parentId != INVALID_ID && parentId < |entries| {
          names := entries[parentId].byName;
        }
        ghost var inherited := names;
        NamesAreSymbols(scopes, symbols, id);
        var list := scopes[id].symbols;
        for k := 0 to |list|
          invariant names == Layer(inherited, list[..k], symbols)
        {
          assert list[..k + 1][..k] == list[..k];
          if list[k] < |symbols| {
            names := names[symbols[list[k]].name := list[k]];
          }
        }
        assert list[..|list|] == list;
        assert names == NamesIn(scopes, symbols, id);
        var visible := CollectVisible(names, symbols);
        entries := entries[id := Entry(visible, names)];
      }
    }

    /** The symbol that `name` denotes in scope `scopeId`, or INVALID_ID. */
    function Resolve(scopeId: nat, name: Text): nat
      reads this
    {
      if scopeId >= |entries| || name !in entries[scopeId].byName then INVALID_ID
      else entries[scopeId].byName[name]
    }

    function VisibleIn(scopeId: nat): seq<nat>
      reads this
    {
      if scopeId >= |entries| then [] else entries[scopeId].visible
    }

    /** The table answers what the ancestor walk answers: the last match of the innermost scope, or nothing when the walk finds nothing. */
    lemma {:induction false} ResolveIsLookup(scopes: seq<Scope>, symbols: seq<Symbol>, scopeId: nat, name: Text)
      requires Ordered(scopes) && Computed(scopes, symbols, |scopes|)
      requires IsScope(scopes, scopeId) && |symbols| <= INVALID_ID
      ensures var found := Lookup(name, scopeId, scopes, symbols);
        && (Resolve(scopeId, name) == INVALID_ID <==> found == [])
        && (found != [] ==> Resolve(scopeId, name) == found[|found| - 1])
    {
      if scopeId < |scopes| {
        NamesAreLastMatches(scopes, symbols, scopeId, name);
        NamesAreSymbols(scopes, symbols, scopeId);
      }
    }

    /** The visible list is strictly increasing and has exactly one entry, the winning one, per visible name. */
    lemma VisibleAreWinners(scopes: seq<Scope>, symbols: seq<Symbol>, scopeId: nat)
      requires Ordered(scopes) && Computed(scopes, symbols, |scopes|) && |symbols| <= INVALID_ID
      ensures StrictlySorted(VisibleIn(scopeId))
      ensures forall v: nat :: v in VisibleIn(scopeId) <==> v < |symbols| && Resolve(scopeId, symbols[v].name) == v
    {
      if scopeId < |scopes| {
        NamesAreSymbols(scopes, symbols, scopeId);
        var e := entries[scopeId];
        assert ListsValues(e);
        forall v: nat ensures v in e.visible <==> v < |symbols| && Resolve(scopeId, symbols[v].name) == v {
          if v in e.visible {
            var n :| n in e.byName && e.byName[n] == v;
          }
        }
      }
    }
  }

  /** The values of the name map, visited in an arbitrary order and then sorted. */
  method CollectVisible(names: map<Text, nat>, ghost symbols: seq<Symbol>) returns (visible: seq<nat>)
    requires NamesSymbols(names, symbols)
    ensures ListsValues(Entry(visible, names))
  {
    visible := [];
    var keys := names.Keys;
    while keys != {}
      invariant keys <= names.Keys
      invariant forall i, j :: 0 <= i < j < |visible| ==> visible[i] != visible[j]
      invariant forall v: nat :: v in visible <==> exists n :: n in names.Keys - keys && names[n] == v
      decreases |keys|
    {
      var n :| n in keys;
      ghost var was := keys;
      keys := keys - {n};
      assert forall m :: m in names && m != n ==> names[m] != names[n];
      assert names[n] !in visible;
      forall v: nat ensures v in visible + [names[n]] <==> exists m :: m in names.Keys - keys && names[m] == v {
        if v in visible {
          var m :| m in names.Keys - was && names[m] == v;
          assert m in names.Keys - keys;
        }
        if v == names[n] {
          assert n in names.Keys - keys;
        }
      }
      visible := visible + [names[n]];
    }
    visible := SortIndices(visible);
  }

  lemma {:induction false} LayerNamesSymbols(names: map<Text, nat>, list: seq<nat>, symbols: seq<Symbol>)
    requires NamesSymbols(names, symbols)
    ensures NamesSymbols(Layer(names, list, symbols), symbols)
  {
    if list != [] {
      LayerNamesSymbols(names, list[..|list| - 1], symbols);
    }
  }

  lemma {:induction false} NamesAreSymbols(scopes: seq<Scope>, symbols: seq<Symbol>, id: nat)
    requires Ordered(scopes) && id < |scopes|
    ensures NamesSymbols(NamesIn(scopes, symbols, id), symbols)
    decreases id
  {
    var parent := scopes[id].parent;
    if parent < id {
      NamesAreSymbols(scopes, symbols, parent);
      LayerNamesSymbols(NamesIn(scopes, symbols, parent), scopes[id].symbols, symbols);
    } else {
      LayerNamesSymbols(map[], scopes[id].symbols, symbols);
    }
  }

  lemma {:induction false} LayerIsLastMatch(names: map<Text, nat>, list: seq<nat>, symbols: seq<Symbol>, name: Text)
    ensures var m := MatchesIn(list, name, symbols);
      if m == [] then
        (name in Layer(names, list, symbols) <==> name in names)
        && (name in names ==> Layer(names, list, symbols)[name] == names[name])
      else
        name in Layer(names, list, symbols) && Layer(names, list, symbols)[name] == m[|m| - 1]
  {
    if list != [] {
      LayerIsLastMatch(names, list[..|list| - 1], symbols, name);
    }
  }

  lemma {:induction false} NamesAreLastMatches(scopes: seq<Scope>, symbols: seq<Symbol>, id: nat, name: Text)
    requires Ordered(scopes) && id < |scopes|
    ensures var found := Lookup(name, id, scopes, symbols);
      && (name in NamesIn(scopes, symbols, id) <==> found != [])
      && (found != [] ==> NamesIn(scopes, symbols, id)[name] == found[|found| - 1])
    decreases id
  {
    var parent := scopes[id].parent;
    if parent < id {
      NamesAreLastMatches(scopes, symbols, parent, name);
      LayerIsLastMatch(NamesIn(scopes, symbols, parent), scopes[id].symbols, symbols, name);
    } else {
      LayerIsLastMatch(map[], scopes[id].symbols, symbols, name);
    }
  }
}
