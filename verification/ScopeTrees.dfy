/** The container of a file's scopes (src/ast-scope.cpp) as a class over value-level operations on the scope vector. */
module ScopeTrees {
  import opened Ast
  import opened Symbols

  /** Every parent id is smaller than the scope's own id, or absent. */
  predicate Ordered(scopes: seq<Scope>) {
    && |scopes| < INVALID_ID
    && forall s :: 0 <= s < |scopes| ==> scopes[s].parent == INVALID_ID || scopes[s].parent < s
  }

  predicate IsScope(scopes: seq<Scope>, id: nat) {
    id == INVALID_ID || id < |scopes|
  }

  /** The vector after ScopeTree::add. */
  function AddScope(scopes: seq<Scope>, kind: ScopeKind, nodeIndex: nat, startByte: U32, endByte: U32, parent: nat): (r: seq<Scope>)
    ensures |r| == |scopes| + 1
  {
    var id := |scopes|;
    var grown := scopes + [Scope(id, kind, nodeIndex, startByte, endByte, parent, [], [])];
    if parent < id then grown[parent := grown[parent].(children := grown[parent].children + [id])] else grown
  }

  /** The vector after ScopeTree::addSymbol. */
  function AddSymbolTo(scopes: seq<Scope>, scopeId: nat, symbolIndex: nat): (r: seq<Scope>)
    requires scopeId < |scopes|
    ensures |r| == |scopes|
  {
    scopes[scopeId := scopes[scopeId].(symbols := scopes[scopeId].symbols + [symbolIndex])]
  }

  function EntryOr(ids: seq<nat>, i: nat): nat {
    if i < |ids| then ids[i] else INVALID_ID
  }

  /** The first scope from `s` on that lists `symbolIndex`. */
  function FindSymbolFrom(scopes: seq<Scope>, symbolIndex: nat, s: nat): nat
    decreases |scopes| - s
  {
    if s >= |scopes| then INVALID_ID
    else if symbolIndex in scopes[s].symbols then scopes[s].id
    else FindSymbolFrom(scopes, symbolIndex, s + 1)
  }

  /** The first scope from `s` on that `nodeIndex` introduces. */
  function FindNodeFrom(scopes: seq<Scope>, nodeIndex: nat, s: nat): nat
    decreases |scopes| - s
  {
    if s >= |scopes| then INVALID_ID
    else if scopes[s].nodeIndex == nodeIndex then scopes[s].id
    else FindNodeFrom(scopes, nodeIndex, s + 1)
  }

  /** A freshly reserved map: no entry is set. */
  function Unmapped(count: nat): (r: seq<nat>)
    ensures |r| == count && forall i :: 0 <= i < count ==> r[i] == INVALID_ID
  {
    seq(count, _ => INVALID_ID)
  }

  class ScopeTree {
    var scopes: seq<Scope>
    var nodeScope: seq<nat>
    var symbolScope: seq<nat>

    constructor ()
      ensures scopes == [] && nodeScope == [] && symbolScope == []
    {
      scopes, nodeScope, symbolScope := [], [], [];
    }

    method Add(kind: ScopeKind, nodeIndex: nat, startByte: U32, endByte: U32, parentId: nat) returns (id: nat)
      requires IsScope(scopes, parentId) && |scopes| < INVALID_ID
      modifies this`scopes
      ensures id == old(|scopes|)
      ensures scopes == AddScope(old(scopes), kind, nodeIndex, startByte, endByte, parentId)
    {
      id := |scopes|;
      scopes := scopes + [Scope(id, kind, nodeIndex, startByte, endByte, parentId, [], [])];
      if parentId != INVALID_ID {
        scopes := scopes[parentId := scopes[parentId].(children := scopes[parentId].children + [id])];
      }
    }

    method AddSymbol(scopeId: nat, symbolIndex: nat)
      requires scopeId < |scopes|
      modifies this`scopes
      ensures scopes == AddSymbolTo(old(scopes), scopeId, symbolIndex)
    {
      scopes := scopes[scopeId := scopes[scopeId].(symbols := scopes[scopeId].symbols + [symbolIndex])];
    }

    /** Linear scan for the first scope that `nodeIndex` introduces. */
    method FindByNodeIndex(nodeIndex: nat) returns (id: nat)
      ensures id == FindNodeFrom(scopes, nodeIndex, 0)
    {
      for s := 0 to |scopes|
        invariant FindNodeFrom(scopes, nodeIndex, 0) == FindNodeFrom(scopes, nodeIndex, s)
      {
        if scopes[s].nodeIndex == nodeIndex {
          return scopes[s].id;
        }
      }
      id := INVALID_ID;
    }

    /** Linear scan for the first scope that lists `symbolIndex`. */
    method FindBySymbol(symbolIndex: nat) returns (id: nat)
      ensures id == FindSymbolFrom(scopes, symbolIndex, 0)
    {
      for s := 0 to |scopes|
        invariant FindSymbolFrom(scopes, symbolIndex, 0) == FindSymbolFrom(scopes, symbolIndex, s)
      {
        for k := 0 to |scopes[s].symbols|
          invariant symbolIndex !in scopes[s].symbols[..k]
        {
          if scopes[s].symbols[k] == symbolIndex {
            return scopes[s].id;
          }
        }
      }
      id := INVALID_ID;
    }

    method ReserveSymbolMap(symbolCount: nat)
      modifies this`symbolScope
      ensures symbolScope == Unmapped(symbolCount)
    {
      symbolScope := seq(symbolCount, _ => INVALID_ID);
    }

    method SetScopeOfSymbol(symbolIndex: nat, scopeId: nat)
      modifies this`symbolScope
      ensures symbolScope ==
        if symbolIndex < old(|symbolScope|) then old(symbolScope)[symbolIndex := scopeId] else old(symbolScope)
    {
      if symbolIndex < |symbolScope| {
        symbolScope := symbolScope[symbolIndex := scopeId];
      }
    }

    function GetScopeOfSymbol(symbolIndex: nat): nat
      reads this`symbolScope
    {
      EntryOr(symbolScope, symbolIndex)
    }

    method ReserveNodeMap(nodeCount: nat)
      modifies this`nodeScope
      ensures nodeScope == Unmapped(nodeCount)
    {
      nodeScope := seq(nodeCount, _ => INVALID_ID);
    }

    method SetNodeScope(nodeIndex: nat, scopeId: nat)
      modifies this`nodeScope
      ensures nodeScope ==
        if nodeIndex < old(|nodeScope|) then old(nodeScope)[nodeIndex := scopeId] else old(nodeScope)
    {
      if nodeIndex < |nodeScope| {
        nodeScope := nodeScope[nodeIndex := scopeId];
      }
    }

    function GetNodeScope(nodeIndex: nat): nat
      reads this`nodeScope
    {
      EntryOr(nodeScope, nodeIndex)
    }
  }
}
