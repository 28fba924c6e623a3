/** Resolution of member calls through the receiver's type (src/ast-member-resolution.cpp). */
module MemberResolution {
  import opened Ast
  import opened Options
  import opened Sequences
  import opened NodeTypes
  import opened Symbols
  import opened ScopeTrees
  import opened Units
  import opened Resolver
  import opened CallUtils
  import opened TreeWalk
  import opened LocalTypes

  const COLON: Byte := 58
  const SEPARATOR: Text := [COLON, COLON]

  predicate IsTypeKind(kind: SymbolKind) {
    kind.Class? || kind.Struct? || kind.Union?
  }

  predicate IsCallableKind(kind: SymbolKind) {
    kind.Function? || kind.Method? || kind.Constructor? || kind.Destructor?
  }

  // ---- Qualified names ------------------------------------------------------

  /** rfind: the last position before `k` at which the separator occurs in `t`, or INVALID_ID. */
  function LastSeparator(t: Text, k: nat): (p: nat)
    ensures p == INVALID_ID || (p < k && p + 2 <= |t| && t[p..p + 2] == SEPARATOR)
  {
    if k == 0 then INVALID_ID
    else if k + 1 <= |t| && t[k - 1] == COLON && t[k] == COLON then k - 1
    else LastSeparator(t, k - 1)
  }

  /** The part of a qualified name before its last separator, empty when there is none. */
  function Qualifier(t: Text): (q: Text)
    ensures q <= t && (t != [] ==> |q| < |t|)
  {
    var p := LastSeparator(t, |t|);
    if p == INVALID_ID then [] else t[..p]
  }

  predicate SeparatorAt(t: Text, p: nat) {
    p + 2 <= |t| && t[p..p + 2] == SEPARATOR
  }

  /** A qualified name is cut at its last separator; one without a separator has no qualifier. */
  lemma {:induction false} SeparatorIsLast(t: Text, k: nat)
    requires k <= |t| < INVALID_ID
    ensures forall p: nat :: p < k && SeparatorAt(t, p) ==> LastSeparator(t, k) != INVALID_ID && p <= LastSeparator(t, k)
    decreases k
  {
    if k > 0 {
      SeparatorIsLast(t, k - 1);
      assert SeparatorAt(t, k - 1) ==> t[k - 1..k + 1][0] == t[k - 1] && t[k - 1..k + 1][1] == t[k];
      assert k + 1 <= |t| && t[k - 1] == COLON && t[k] == COLON ==> t[k - 1..k + 1] == SEPARATOR;
    }
  }

  lemma QualifierIsLongest(t: Text)
    requires |t| < INVALID_ID
    ensures forall p: nat :: SeparatorAt(t, p) && (forall q: nat :: p < q ==> !SeparatorAt(t, q)) ==> Qualifier(t) == t[..p]
    ensures (forall p: nat :: !SeparatorAt(t, p)) ==> Qualifier(t) == []
  {
    SeparatorIsLast(t, |t|);
    var p := LastSeparator(t, |t|);
    assert p != INVALID_ID ==> SeparatorAt(t, p);
  }

  /** `typeName` under every enclosing qualifier, innermost first, and last on its own. */
  function UnderQualifiers(context: Text, typeName: Text): (names: seq<Text>)
    ensures names != []
    decreases |context|
  {
    if context == [] then [typeName]
    else [context + SEPARATOR + typeName] + UnderQualifiers(Qualifier(context), typeName)
  }

  function ExpectedNames(contextFqn: Text, typeName: Text): seq<Text> {
    if LastSeparator(typeName, |typeName|) != INVALID_ID then [typeName]
    else UnderQualifiers(Qualifier(contextFqn), typeName)
  }

  /** `q` is met when `context` is cut back qualifier by qualifier. */
  predicate Qualifies(q: Text, context: Text)
    decreases |context|
  {
    context != [] && (q == context || Qualifies(q, Qualifier(context)))
  }

  /** The expected names are the bare one and the one under each enclosing qualifier. */
  lemma {:induction false} NamesUnderQualifiers(context: Text, typeName: Text, name: Text)
    ensures name in UnderQualifiers(context, typeName) <==>
      name == typeName || exists q :: Qualifies(q, context) && name == q + SEPARATOR + typeName
    decreases |context|
  {
    if context != [] {
      NamesUnderQualifiers(Qualifier(context), typeName, name);
      if name == context + SEPARATOR + typeName {
        assert Qualifies(context, context);
      }
      if q :| Qualifies(q, context) && name == q + SEPARATOR + typeName {
        assert q == context || Qualifies(q, Qualifier(context));
      }
    }
  }

  /** A type name that is qualified itself is expected alone; any other also under each qualifier of the caller's name. */
  lemma ExpectedExactly(contextFqn: Text, typeName: Text, name: Text)
    requires |typeName| < INVALID_ID
    ensures name in ExpectedNames(contextFqn, typeName) <==>
      || name == typeName
      || ((forall p: nat :: !SeparatorAt(typeName, p))
          && exists q :: Qualifies(q, Qualifier(contextFqn)) && name == q + SEPARATOR + typeName)
  {
    SeparatorIsLast(typeName, |typeName|);
    assert LastSeparator(typeName, |typeName|) != INVALID_ID ==> SeparatorAt(typeName, LastSeparator(typeName, |typeName|));
    NamesUnderQualifiers(Qualifier(contextFqn), typeName, name);
  }

  /** Every later name is a shorter one, so the first that names a type is the longest. */
  lemma {:induction false} InnermostFirst(context: Text, typeName: Text, j: nat, k: nat)
    requires j < k < |UnderQualifiers(context, typeName)|
    ensures |UnderQualifiers(context, typeName)[k]| < |UnderQualifiers(context, typeName)[j]|
    decreases |context|
  {
    var names := UnderQualifiers(context, typeName);
    assert context != [];
    var rest := UnderQualifiers(Qualifier(context), typeName);
    assert names[k] == rest[k - 1];
    if j > 0 {
      assert names[j] == rest[j - 1];
      InnermostFirst(Qualifier(context), typeName, j - 1, k - 1);
    } else {
      FirstIsLongest(Qualifier(context), typeName, k - 1);
    }
  }

  lemma {:induction false} FirstIsLongest(context: Text, typeName: Text, k: nat)
    requires k < |UnderQualifiers(context, typeName)|
    ensures |UnderQualifiers(context, typeName)[k]| <= |context| + 2 + |typeName|
    decreases |context|
  {
    if context != [] && k > 0 {
      assert UnderQualifiers(context, typeName)[k] == UnderQualifiers(Qualifier(context), typeName)[k - 1];
      FirstIsLongest(Qualifier(context), typeName, k - 1);
    }
  }

  method BuildExpectedNames(contextFqn: Text, typeName: Text) returns (names: seq<Text>)
    ensures names == ExpectedNames(contextFqn, typeName)
  {
    if LastSeparator(typeName, |typeName|) != INVALID_ID {
      return [typeName];
    }
    names := [];
    var context := Qualifier(contextFqn);
    while context != []
      invariant names + UnderQualifiers(context, typeName) == UnderQualifiers(Qualifier(contextFqn), typeName)
      decreases |context|
    {
      names := names + [context + SEPARATOR + typeName];
      context := Qualifier(context);
    }
    names := names + [typeName];
  }

  // ---- The receiver's type --------------------------------------------------

  function IsTypeCalled(fqn: Text): WorkspaceSymbol -> bool {
    (s: WorkspaceSymbol) => IsTypeKind(s.symbol.kind) && s.symbol.fqn == fqn
  }

  function TypesCalled(symbols: seq<WorkspaceSymbol>, fqn: Text): (r: seq<WorkspaceSymbol>)
    ensures forall s :: s in r <==> s in symbols && IsTypeKind(s.symbol.kind) && s.symbol.fqn == fqn
  {
    Where(symbols, IsTypeCalled(fqn))
  }

  /** The types of the first name that names any. */
  function FirstTypes(symbols: seq<WorkspaceSymbol>, names: seq<Text>): seq<WorkspaceSymbol> {
    if names == [] then []
    else if TypesCalled(symbols, names[0]) != [] then TypesCalled(symbols, names[0])
    else FirstTypes(symbols, names[1..])
  }

  function IsNodeType(t: U16): Node -> bool {
    (n: Node) => n.nodeType == t
  }

  /** The declaration of `s` carries a member list. */
  ghost predicate HasBody(ws: LoadedWorkspace, s: WorkspaceSymbol)
    requires Loaded(ws)
  {
    var u := FindUnit(ws, s.sourceFile);
    u.Some? && s.symbol.nodeIndex < |u.value.nodes|
    && SubtreeHas(u.value.nodes, s.symbol.nodeIndex, IsNodeType(FIELD_DECLARATION_LIST))
  }

  ghost function WithBody(ws: LoadedWorkspace, candidates: seq<WorkspaceSymbol>, k: nat): (r: seq<WorkspaceSymbol>)
    requires Loaded(ws) && k <= |candidates|
    ensures forall s :: s in r <==> s in candidates[..k] && HasBody(ws, s)
  {
    if k == 0 then []
    else
      assert candidates[..k] == candidates[..k - 1] + [candidates[k - 1]];
      var r := WithBody(ws, candidates, k - 1);
      if HasBody(ws, candidates[k - 1]) then r + [candidates[k - 1]] else r
  }

  /** The sole candidate, or the sole one with a body. */
  ghost function Preferred(ws: LoadedWorkspace, candidates: seq<WorkspaceSymbol>): Option<WorkspaceSymbol>
    requires Loaded(ws)
  {
    var bodies := WithBody(ws, candidates, |candidates|);
    if |candidates| == 1 then Some(candidates[0]) else if |bodies| == 1 then Some(bodies[0]) else None
  }

  ghost function ReceiverType(ws: LoadedWorkspace, contextFqn: Text, typeName: Text): Option<WorkspaceSymbol>
    requires Loaded(ws)
  {
    Preferred(ws, FirstTypes(ws.symbols, ExpectedNames(contextFqn, typeName)))
  }

  /** `names[k]` is the first name that names a type. */
  ghost predicate FirstNaming(symbols: seq<WorkspaceSymbol>, names: seq<Text>, k: nat)
    requires k < |names|
  {
    && TypesCalled(symbols, names[k]) != []
    && forall j :: 0 <= j < k ==> TypesCalled(symbols, names[j]) == []
  }

  lemma {:induction false} FirstTypesAreOfFirst(symbols: seq<WorkspaceSymbol>, names: seq<Text>) returns (k: nat)
    ensures FirstTypes(symbols, names) == [] ==> forall j :: 0 <= j < |names| ==> TypesCalled(symbols, names[j]) == []
    ensures FirstTypes(symbols, names) != [] ==>
      k < |names| && FirstNaming(symbols, names, k) && FirstTypes(symbols, names) == TypesCalled(symbols, names[k])
  {
    k := 0;
    if names != [] && TypesCalled(symbols, names[0]) == [] {
      var rest := FirstTypesAreOfFirst(symbols, names[1..]);
      k := rest + 1;
      assert forall j :: 0 < j < |names| ==> names[j] == names[1..][j - 1];
    }
  }

  lemma PreferredIsSole(ws: LoadedWorkspace, candidates: seq<WorkspaceSymbol>)
    requires Loaded(ws)
    ensures Preferred(ws, candidates).Some? ==>
      var t := Preferred(ws, candidates).value;
      t in candidates && (|candidates| == 1 || (HasBody(ws, t) && forall s :: s in candidates && HasBody(ws, s) ==> s == t))
  {
    var bodies := WithBody(ws, candidates, |candidates|);
    assert candidates[..|candidates|] == candidates;
    if |candidates| != 1 && |bodies| == 1 {
      assert bodies[0] in bodies;
    }
  }

  /** `fqn` is the first of `names` that names a type. */
  ghost predicate NamedInnermost(symbols: seq<WorkspaceSymbol>, names: seq<Text>, fqn: Text) {
    exists k :: 0 <= k < |names| && FirstNaming(symbols, names, k) && fqn == names[k]
  }

  /** A receiver type bears the longest enclosing qualifier that names any type, and is the only such type or the only one with a body. */
  lemma ReceiverTypeIsInnermost(ws: LoadedWorkspace, contextFqn: Text, typeName: Text)
    requires Loaded(ws)
    ensures ReceiverType(ws, contextFqn, typeName).Some? ==>
      var t := ReceiverType(ws, contextFqn, typeName).value;
      var same := TypesCalled(ws.symbols, t.symbol.fqn);
      && t in same && NamedInnermost(ws.symbols, ExpectedNames(contextFqn, typeName), t.symbol.fqn)
      && (|same| == 1 || (HasBody(ws, t) && forall s :: s in same && HasBody(ws, s) ==> s == t))
  {
    var names := ExpectedNames(contextFqn, typeName);
    var candidates := FirstTypes(ws.symbols, names);
    PreferredIsSole(ws, candidates);
    if ReceiverType(ws, contextFqn, typeName).Some? {
      var t := ReceiverType(ws, contextFqn, typeName).value;
      assert t in candidates;
      var k := FirstTypesAreOfFirst(ws.symbols, names);
      assert t.symbol.fqn == names[k];
    }
  }

  /** Some type is called `fqn`. */
  predicate NamesType(symbols: seq<WorkspaceSymbol>, fqn: Text) {
    exists s :: s in symbols && s.symbol.kind in {Class, Struct, Union} && s.symbol.fqn == fqn
  }

  ghost function IsTypeWithBody(ws: LoadedWorkspace, fqn: Text): WorkspaceSymbol -> bool
    requires Loaded(ws)
  {
    (s: WorkspaceSymbol) => IsTypeKind(s.symbol.kind) && s.symbol.fqn == fqn && HasBody(ws, s)
  }

  /** `names[k]` is the first name of a type, and `t` is the type at the only position of that name, or, where several
  positions have it, at the only one with a body. */
  ghost predicate IsTypeOfFirst(ws: LoadedWorkspace, names: seq<Text>, k: nat, t: WorkspaceSymbol)
    requires Loaded(ws)
  {
    && k < |names| && NamesType(ws.symbols, names[k]) && (forall j :: 0 <= j < k ==> !NamesType(ws.symbols, names[j]))
    && if Several(ws.symbols, IsTypeCalled(names[k]))
       then exists j: nat :: SoleAt(ws.symbols, IsTypeWithBody(ws, names[k]), j) && t == ws.symbols[j]
       else exists j: nat :: SoleAt(ws.symbols, IsTypeCalled(names[k]), j) && t == ws.symbols[j]
  }

  lemma {:induction false} BodiesAreFiltered(ws: LoadedWorkspace, candidates: seq<WorkspaceSymbol>, k: nat, p: WorkspaceSymbol -> bool)
    requires Loaded(ws) && k <= |candidates| && forall s :: s in candidates ==> p(s) == HasBody(ws, s)
    ensures WithBody(ws, candidates, k) == Filter(candidates[..k], p)
  {
    if k > 0 {
      BodiesAreFiltered(ws, candidates, k - 1, p);
      assert candidates[..k][..k - 1] == candidates[..k - 1];
      assert candidates[k - 1] in candidates;
    }
  }

  lemma TypesAreNamed(symbols: seq<WorkspaceSymbol>, fqn: Text)
    ensures TypesCalled(symbols, fqn) != [] <==> NamesType(symbols, fqn)
  {
    var types := TypesCalled(symbols, fqn);
    if types != [] {
      assert types[0] in types;
    }
  }

  lemma {:induction false} BodiesInTable(ws: LoadedWorkspace, fqn: Text)
    requires Loaded(ws)
    ensures var c := TypesCalled(ws.symbols, fqn); WithBody(ws, c, |c|) == Filter(ws.symbols, IsTypeWithBody(ws, fqn))
  {
    var c, p := TypesCalled(ws.symbols, fqn), IsTypeWithBody(ws, fqn);
    BodiesAreFiltered(ws, c, |c|, p);
    assert c[..|c|] == c;
    FilterTwice(ws.symbols, IsTypeCalled(fqn), p, p);
  }

  lemma PreferredInTable(ws: LoadedWorkspace, fqn: Text, t: WorkspaceSymbol)
    requires Loaded(ws) && NamesType(ws.symbols, fqn)
    ensures Preferred(ws, TypesCalled(ws.symbols, fqn)) == Some(t) <==>
      if Several(ws.symbols, IsTypeCalled(fqn))
      then exists j: nat :: SoleAt(ws.symbols, IsTypeWithBody(ws, fqn), j) && t == ws.symbols[j]
      else exists j: nat :: SoleAt(ws.symbols, IsTypeCalled(fqn), j) && t == ws.symbols[j]
  {
    TypesAreNamed(ws.symbols, fqn);
    BodiesInTable(ws, fqn);
    FilterCounts(ws.symbols, IsTypeCalled(fqn));
    FilterCounts(ws.symbols, IsTypeWithBody(ws, fqn));
  }

  /** A receiver's type is found exactly when the first name that names any type has one position, or one with a body among several. */
  lemma ReceiverTypeExact(ws: LoadedWorkspace, contextFqn: Text, typeName: Text, t: WorkspaceSymbol)
    requires Loaded(ws)
    ensures ReceiverType(ws, contextFqn, typeName) == Some(t) <==> exists k :: IsTypeOfFirst(ws, ExpectedNames(contextFqn, typeName), k, t)
  {
    var names := ExpectedNames(contextFqn, typeName);
    forall j | 0 <= j < |names| ensures TypesCalled(ws.symbols, names[j]) != [] <==> NamesType(ws.symbols, names[j]) {
      TypesAreNamed(ws.symbols, names[j]);
    }
    var k := FirstTypesAreOfFirst(ws.symbols, names);
    if FirstTypes(ws.symbols, names) != [] {
      PreferredInTable(ws, names[k], t);
      assert IsTypeOfFirst(ws, names, k, t) <==> ReceiverType(ws, contextFqn, typeName) == Some(t);
      forall l: nat | IsTypeOfFirst(ws, names, l, t) ensures l == k {
      }
    } else {
      NoTypeAtAll(ws, t);
    }
  }

  lemma NoTypeAtAll(ws: LoadedWorkspace, t: WorkspaceSymbol)
    requires Loaded(ws)
    ensures Preferred(ws, []) != Some(t)
  {
  }

  method CandidateHasBody(ws: LoadedWorkspace, candidate: WorkspaceSymbol) returns (r: bool)
    requires Loaded(ws)
    ensures r == HasBody(ws, candidate)
  {
    var unit := FindUnit(ws, candidate.sourceFile);
    if unit.None? || candidate.symbol.nodeIndex >= |unit.value.nodes| {
      return false;
    }
    r := SearchSubtree(unit.value.nodes, candidate.symbol.nodeIndex, IsNodeType(FIELD_DECLARATION_LIST));
  }

  method CollectTypes(symbols: seq<WorkspaceSymbol>, expected: Text) returns (candidates: seq<WorkspaceSymbol>)
    ensures candidates == TypesCalled(symbols, expected)
  {
    candidates := [];
    for k := 0 to |symbols|
      invariant candidates == WhereUpTo(symbols, IsTypeCalled(expected), k)
    {
      WhereStep(symbols, IsTypeCalled(expected), k);
      if IsTypeKind(symbols[k].symbol.kind) && symbols[k].symbol.fqn == expected {
        candidates := candidates + [symbols[k]];
      }
    }
  }

  /** All candidates bear one name, so the source's test of canonical names never fires. */
  method PreferDefinition(ws: LoadedWorkspace, candidates: seq<WorkspaceSymbol>, ghost expected: Text) returns (definition: Option<WorkspaceSymbol>)
    requires Loaded(ws)
    requires forall s :: s in candidates ==> s.symbol.fqn == expected
    ensures definition == Preferred(ws, candidates)
  {
    if |candidates| == 1 {
      return Some(candidates[0]);
    }
    definition := None;
    var canonical: Text := [];
    for k := 0 to |candidates|
      invariant canonical == [] || canonical == expected
      invariant WithBody(ws, candidates, k) == if definition.Some? then [definition.value] else []
    {
      var candidate := candidates[k];
      assert candidate in candidates;
      if canonical == [] {
        canonical := candidate.symbol.fqn;
      }
      if candidate.symbol.fqn != canonical {
        assert false;
      }
      var hasBody := CandidateHasBody(ws, candidate);
      if hasBody {
        if definition.Some? {
          WithBodyGrows(ws, candidates, k + 1, |candidates|);
          return None;
        }
        definition := Some(candidate);
      }
    }
  }

  lemma {:induction false} WithBodyGrows(ws: LoadedWorkspace, candidates: seq<WorkspaceSymbol>, j: nat, k: nat)
    requires Loaded(ws) && j <= k <= |candidates|
    ensures |WithBody(ws, candidates, j)| <= |WithBody(ws, candidates, k)|
  {
    if j < k {
      WithBodyGrows(ws, candidates, j, k - 1);
    }
  }

  method ResolveReceiverType(ws: LoadedWorkspace, contextFqn: Text, typeName: Text) returns (r: Option<WorkspaceSymbol>)
    requires Loaded(ws)
    ensures r == ReceiverType(ws, contextFqn, typeName)
  {
    var names := BuildExpectedNames(contextFqn, typeName);
    var candidates: seq<WorkspaceSymbol> := [];
    ghost var expected: Text := [];
    for k := 0 to |names|
      invariant candidates == [] && FirstTypes(ws.symbols, names[k..]) == FirstTypes(ws.symbols, names)
    {
      assert names[k..][1..] == names[k + 1..];
      candidates := CollectTypes(ws.symbols, names[k]);
      expected := names[k];
      if candidates != [] {
        break;
      }
    }
    r := PreferDefinition(ws, candidates, expected);
  }

  // ---- Receivers that are fields --------------------------------------------

  function IsFieldCalled(fqn: Text): WorkspaceSymbol -> bool {
    (s: WorkspaceSymbol) => s.symbol.kind.Field? && s.symbol.fqn == fqn
  }

  /** The field `receiverName` of the class around the caller, when exactly one is declared. */
  function ReceiverField(ws: LoadedWorkspace, u: TranslationUnit, scope: nat, receiverName: Text): Option<WorkspaceSymbol>
    requires UnitOk(u) && IsScope(u.scopes, scope)
  {
    match EnclosingCaller(ws, u, scope)
    case None => None
    case Some(caller) =>
      var fqn := caller.symbol.fqn;
      var p := LastSeparator(fqn, |fqn|);
      if p == INVALID_ID then None
      else
        var fields := Where(ws.symbols, IsFieldCalled(fqn[..p] + SEPARATOR + receiverName));
        if |fields| == 1 then Some(fields[0]) else None
  }

  lemma {:induction false} WhereGrows(symbols: seq<WorkspaceSymbol>, p: WorkspaceSymbol -> bool, j: nat, k: nat)
    requires j <= k <= |symbols|
    ensures |WhereUpTo(symbols, p, j)| <= |WhereUpTo(symbols, p, k)|
  {
    if j < k {
      WhereGrows(symbols, p, j, k - 1);
      WhereStep(symbols, p, k - 1);
    }
  }

  method ResolveReceiverField(ws: LoadedWorkspace, u: TranslationUnit, scopeId: nat, receiverName: Text) returns (r: Option<WorkspaceSymbol>)
    requires UnitOk(u) && IsScope(u.scopes, scopeId)
    ensures r == ReceiverField(ws, u, scopeId, receiverName)
  {
    var caller := FindEnclosingCaller(ws, u, scopeId);
    if caller.Some? {
      var fqn := caller.value.symbol.fqn;
      var separator := LastSeparator(fqn, |fqn|);
      if separator != INVALID_ID {
        var expected := fqn[..separator];
        expected := expected + SEPARATOR;
        expected := expected + receiverName;
        var match_: Option<WorkspaceSymbol> := None;
        for k := 0 to |ws.symbols|
          invariant WhereUpTo(ws.symbols, IsFieldCalled(expected), k) == if match_.Some? then [match_.value] else []
        {
          WhereStep(ws.symbols, IsFieldCalled(expected), k);
          if !ws.symbols[k].symbol.kind.Field? || ws.symbols[k].symbol.fqn != expected {
            continue;
          }
          if match_.Some? {
            WhereGrows(ws.symbols, IsFieldCalled(expected), k + 1, |ws.symbols|);
            return None;
          }
          match_ := Some(ws.symbols[k]);
        }
        if match_.Some? {
          return match_;
        }
      }
    }
    r := None;
  }

  /** The receiver is a field exactly when the caller around has a qualifier, and one position of the table holds a field of
  the receiver's name under it. */
  lemma ReceiverFieldExact(ws: LoadedWorkspace, u: TranslationUnit, scope: nat, receiverName: Text, f: WorkspaceSymbol)
    requires UnitOk(u) && IsScope(u.scopes, scope)
    ensures ReceiverField(ws, u, scope, receiverName) == Some(f) <==>
      && EnclosingCaller(ws, u, scope).Some?
      && var fqn := EnclosingCaller(ws, u, scope).value.symbol.fqn;
         && LastSeparator(fqn, |fqn|) != INVALID_ID
         && exists k: nat :: SoleAt(ws.symbols, IsFieldCalled(Qualifier(fqn) + SEPARATOR + receiverName), k) && f == ws.symbols[k]
  {
    if EnclosingCaller(ws, u, scope).Some? {
      var fqn := EnclosingCaller(ws, u, scope).value.symbol.fqn;
      FilterCounts(ws.symbols, IsFieldCalled(Qualifier(fqn) + SEPARATOR + receiverName));
    }
  }

  /** The text of the first type child of `i` from child `k` on, or nothing. */
  function FirstTypeFrom(nodes: seq<Node>, i: nat, k: nat): Text
    requires WellFormed(nodes) && i < |nodes| && k <= |nodes[i].children|
    decreases |nodes[i].children| - k
  {
    if k == |nodes[i].children| then []
    else
      assert Linked(nodes, i);
      var c := nodes[nodes[i].children[k]];
      if c.nodeType == TYPE_IDENTIFIER || c.nodeType == QUALIFIED_IDENTIFIER then c.text else FirstTypeFrom(nodes, i, k + 1)
  }

  function FieldType(u: TranslationUnit, field: WorkspaceSymbol): Text
    requires UnitOk(u)
  {
    var i := field.symbol.nodeIndex;
    if i >= |u.nodes| || u.nodes[i].nodeType != FIELD_DECLARATION then [] else FirstTypeFrom(u.nodes, i, 0)
  }

  /** A field's type is the text of the first type child of its declaration, and nothing without one. */
  lemma {:induction false} FieldTypeIsFirst(nodes: seq<Node>, i: nat, k: nat)
    requires WellFormed(nodes) && i < |nodes| && k <= |nodes[i].children|
    requires forall j :: 0 <= j < k ==> !IsTypeAt(nodes, nodes[i].children[j])
    ensures var kids := nodes[i].children;
      && (forall j :: 0 <= j < |kids| && IsTypeAt(nodes, kids[j]) && (forall l :: 0 <= l < j ==> !IsTypeAt(nodes, kids[l])) ==>
            FirstTypeFrom(nodes, i, k) == nodes[kids[j]].text)
      && ((forall j :: 0 <= j < |kids| ==> !IsTypeAt(nodes, kids[j])) ==> FirstTypeFrom(nodes, i, k) == [])
    decreases |nodes[i].children| - k
  {
    if k < |nodes[i].children| {
      assert Linked(nodes, i);
      if !IsTypeAt(nodes, nodes[i].children[k]) {
        FieldTypeIsFirst(nodes, i, k + 1);
      }
    }
  }

  method DeclaredFieldType(u: TranslationUnit, field: WorkspaceSymbol) returns (r: Text)
    requires UnitOk(u)
    ensures r == FieldType(u, field)
  {
    var i := field.symbol.nodeIndex;
    if i >= |u.nodes| {
      return [];
    }
    if u.nodes[i].nodeType != FIELD_DECLARATION {
      return [];
    }
    assert Linked(u.nodes, i);
    for k := 0 to |u.nodes[i].children|
      invariant FirstTypeFrom(u.nodes, i, 0) == FirstTypeFrom(u.nodes, i, k)
    {
      var childId := u.nodes[i].children[k];
      if childId == INVALID_ID {
        continue;
      }
      var child := u.nodes[childId];
      if child.nodeType == TYPE_IDENTIFIER || child.nodeType == QUALIFIED_IDENTIFIER {
        return child.text;
      }
    }
    r := [];
  }

  // ---- The members a type declares ------------------------------------------

  function IsMention(name: Text): Node -> bool {
    (n: Node) => IsIdentifierType(n.nodeType) && n.text != [] && n.text == name
  }

  /** Node `d` declares a member function called `name`. */
  ghost predicate DeclaresMember(nodes: seq<Node>, d: nat, name: Text)
    requires d < |nodes|
  {
    && (nodes[d].nodeType == FIELD_DECLARATION || nodes[d].nodeType == FUNCTION_DEFINITION)
    && SubtreeHas(nodes, d, IsNodeType(FUNCTION_DECLARATOR))
    && SubtreeHas(nodes, d, IsMention(name))
  }

  /** Node `d` stands in a member list of node `i` and declares `name`. */
  ghost predicate DeclaresInType(nodes: seq<Node>, i: nat, name: Text, d: nat)
    requires d < |nodes|
  {
    && i < |nodes| && 0 < nodes[d].parent < |nodes| && nodes[nodes[d].parent].parent == i
    && nodes[nodes[d].parent].nodeType == FIELD_DECLARATION_LIST && DeclaresMember(nodes, d, name)
  }

  /** How many of the first `k` children of the member list `i` declare `name`. */
  ghost function CountMembers(nodes: seq<Node>, i: nat, name: Text, k: nat): nat
    requires WellFormed(nodes) && i < |nodes| && k <= |nodes[i].children|
  {
    if k == 0 then 0
    else
      assert Linked(nodes, i);
      CountMembers(nodes, i, name, k - 1) + if DeclaresMember(nodes, nodes[i].children[k - 1], name) then 1 else 0
  }

  /** The count over the member lists among the first `k` children of the type node `i`. */
  ghost function CountInLists(nodes: seq<Node>, i: nat, name: Text, k: nat): nat
    requires WellFormed(nodes) && i < |nodes| && k <= |nodes[i].children|
  {
    if k == 0 then 0
    else
      assert Linked(nodes, i);
      var c := nodes[i].children[k - 1];
      CountInLists(nodes, i, name, k - 1)
      + if nodes[c].nodeType == FIELD_DECLARATION_LIST then CountMembers(nodes, c, name, |nodes[c].children|) else 0
  }

  ghost function MemberCount(u: TranslationUnit, type_: WorkspaceSymbol, name: Text): nat
    requires UnitOk(u)
  {
    var i := type_.symbol.nodeIndex;
    if i >= |u.nodes| then 0 else CountInLists(u.nodes, i, name, |u.nodes[i].children|)
  }

  /** The children of member list `a` that are among its first `k` and declare `name`. */
  ghost function DeclaringIn(nodes: seq<Node>, a: nat, name: Text, k: nat): set<nat>
    requires a < |nodes| && k <= |nodes[a].children|
  {
    set d: nat | d < |nodes| && d in nodes[a].children[..k] && DeclaresMember(nodes, d, name)
  }

  /** The nodes that declare `name` in one of the member lists among the first `k` children of `i`. */
  ghost function DeclaringUnder(nodes: seq<Node>, i: nat, name: Text, k: nat): set<nat>
    requires i < |nodes| && k <= |nodes[i].children|
  {
    set d: nat | d < |nodes| && d > 0 && nodes[d].parent < |nodes| && nodes[d].parent in nodes[i].children[..k]
                 && nodes[nodes[d].parent].nodeType == FIELD_DECLARATION_LIST && DeclaresMember(nodes, d, name)
  }

  lemma NewChild(nodes: seq<Node>, i: nat, k: nat)
    requires WellFormed(nodes) && i < |nodes| && k < |nodes[i].children|
    ensures nodes[i].children[k] !in nodes[i].children[..k]
  {
    forall j | 0 <= j < k ensures nodes[i].children[j] != nodes[i].children[k] {
      ChildrenRise(nodes, i, j, k);
    }
  }

  /** A set of children grows by child `k` when that satisfies the test. */
  lemma ChosenStep(kids: seq<nat>, chosen: nat -> bool, k: nat)
    requires k < |kids| && kids[k] !in kids[..k]
    ensures var before, after := set d | d in kids[..k] && chosen(d), set d | d in kids[..k + 1] && chosen(d);
      |after| == |before| + One(chosen(kids[k]))
  {
    var before, after := set d | d in kids[..k] && chosen(d), set d | d in kids[..k + 1] && chosen(d);
    assert kids[..k + 1] == kids[..k] + [kids[k]];
    assert after == if chosen(kids[k]) then before + {kids[k]} else before;
  }

  ghost function Declaring(nodes: seq<Node>, name: Text): nat -> bool {
    (d: nat) => d < |nodes| && DeclaresMember(nodes, d, name)
  }

  lemma DeclaringStep(nodes: seq<Node>, a: nat, name: Text, k: nat)
    requires WellFormed(nodes) && a < |nodes| && k < |nodes[a].children|
    ensures nodes[a].children[k] < |nodes|
    ensures |DeclaringIn(nodes, a, name, k + 1)| == |DeclaringIn(nodes, a, name, k)| + One(DeclaresMember(nodes, nodes[a].children[k], name))
  {
    assert Linked(nodes, a);
    NewChild(nodes, a, k);
    ChosenStep(nodes[a].children, Declaring(nodes, name), k);
    ChosenIsDeclaring(nodes, a, name, k);
    ChosenIsDeclaring(nodes, a, name, k + 1);
  }

  lemma ChosenIsDeclaring(nodes: seq<Node>, a: nat, name: Text, k: nat)
    requires a < |nodes| && k <= |nodes[a].children|
    ensures (set d | d in nodes[a].children[..k] && Declaring(nodes, name)(d)) == DeclaringIn(nodes, a, name, k)
  {
  }

  lemma NothingYet(nodes: seq<Node>, i: nat, name: Text)
    requires i < |nodes|
    ensures DeclaringIn(nodes, i, name, 0) == {} && DeclaringUnder(nodes, i, name, 0) == {}
  {
  }

  lemma {:induction false} CountIsSize(nodes: seq<Node>, a: nat, name: Text, k: nat)
    requires WellFormed(nodes) && a < |nodes| && k <= |nodes[a].children|
    ensures CountMembers(nodes, a, name, k) == |DeclaringIn(nodes, a, name, k)|
  {
    if k == 0 {
      NothingYet(nodes, a, name);
    } else {
      CountIsSize(nodes, a, name, k - 1);
      DeclaringStep(nodes, a, name, k - 1);
    }
  }

  /** Everything that declares in list `a` is a child of it. */
  lemma WholeList(nodes: seq<Node>, a: nat, name: Text)
    requires WellFormed(nodes) && a < |nodes|
    ensures DeclaringIn(nodes, a, name, |nodes[a].children|)
         == set d: nat | d < |nodes| && d > 0 && nodes[d].parent == a && DeclaresMember(nodes, d, name)
  {
    assert Linked(nodes, a);
    assert nodes[a].children[..|nodes[a].children|] == nodes[a].children;
    forall d: nat | d < |nodes| && d > 0 ensures nodes[d].parent == a <==> d in nodes[a].children {
      assert Parented(nodes, d);
    }
  }

  lemma DisjointSum(a: set<nat>, b: set<nat>)
    requires a !! b
    ensures |a + b| == |a| + |b|
  {
  }

  /** Child `k` brings the declarations in its own list, when it is one. */
  lemma UnderStep(nodes: seq<Node>, i: nat, name: Text, k: nat)
    requires WellFormed(nodes) && i < |nodes| && k < |nodes[i].children|
    ensures nodes[i].children[k] < |nodes|
    ensures var c, before := nodes[i].children[k], DeclaringUnder(nodes, i, name, k);
      DeclaringUnder(nodes, i, name, k + 1)
        == if nodes[c].nodeType == FIELD_DECLARATION_LIST then before + DeclaringIn(nodes, c, name, |nodes[c].children|) else before
    ensures DeclaringUnder(nodes, i, name, k) !! DeclaringIn(nodes, nodes[i].children[k], name, |nodes[nodes[i].children[k]].children|)
  {
    assert Linked(nodes, i);
    var c := nodes[i].children[k];
    NewChild(nodes, i, k);
    WholeList(nodes, c, name);
    assert nodes[i].children[..k + 1] == nodes[i].children[..k] + [c];
  }

  lemma {:induction false} ListsAreSize(nodes: seq<Node>, i: nat, name: Text, k: nat)
    requires WellFormed(nodes) && i < |nodes| && k <= |nodes[i].children|
    ensures CountInLists(nodes, i, name, k) == |DeclaringUnder(nodes, i, name, k)|
  {
    if k == 0 {
      NothingYet(nodes, i, name);
    } else {
      var c := nodes[i].children[k - 1];
      UnderStep(nodes, i, name, k - 1);
      var before, here := DeclaringUnder(nodes, i, name, k - 1), DeclaringIn(nodes, c, name, |nodes[c].children|);
      DisjointSum(before, here);
      CountIsSize(nodes, c, name, |nodes[c].children|);
      ListsAreSize(nodes, i, name, k - 1);
    }
  }

  /** The member count of a type is the number of nodes that declare the member in a member list of the type's node. */
  lemma MemberCountExact(u: TranslationUnit, type_: WorkspaceSymbol, name: Text)
    requires UnitOk(u)
    ensures MemberCount(u, type_, name)
         == |set d: nat | d < |u.nodes| && 0 < d && DeclaresInType(u.nodes, type_.symbol.nodeIndex, name, d)|
  {
    var i, nodes := type_.symbol.nodeIndex, u.nodes;
    var all := set d: nat | d < |nodes| && 0 < d && DeclaresInType(nodes, i, name, d);
    if i < |nodes| {
      ListsAreSize(nodes, i, name, |nodes[i].children|);
      assert Linked(nodes, i);
      assert nodes[i].children[..|nodes[i].children|] == nodes[i].children;
      forall a: nat | 0 < a < |nodes| ensures nodes[a].parent == i <==> a in nodes[i].children {
        assert Parented(nodes, a);
      }
      assert all == DeclaringUnder(nodes, i, name, |nodes[i].children|);
    } else {
      assert all == {};
    }
  }

  method CountListMembers(nodes: seq<Node>, list: nat, memberName: Text, before: nat) returns (count: nat)
    requires WellFormed(nodes) && list < |nodes|
    ensures count == before + CountMembers(nodes, list, memberName, |nodes[list].children|)
  {
    count := before;
    assert Linked(nodes, list);
    for k := 0 to |nodes[list].children|
      invariant count == before + CountMembers(nodes, list, memberName, k)
    {
      var declaration := nodes[list].children[k];
      if declaration == INVALID_ID {
        continue;
      }
      if nodes[declaration].nodeType != FIELD_DECLARATION && nodes[declaration].nodeType != FUNCTION_DEFINITION {
        continue;
      }
      var isFunction := SearchSubtree(nodes, declaration, IsNodeType(FUNCTION_DECLARATOR));
      var mentions := SearchSubtree(nodes, declaration, IsMention(memberName));
      if isFunction && mentions {
        count := count + 1;
      }
    }
  }

  method DeclaredMemberCount(u: TranslationUnit, type_: WorkspaceSymbol, memberName: Text) returns (count: nat)
    requires UnitOk(u)
    ensures count == MemberCount(u, type_, memberName)
  {
    var i := type_.symbol.nodeIndex;
    if i >= |u.nodes| {
      return 0;
    }
    count := 0;
    assert Linked(u.nodes, i);
    for k := 0 to |u.nodes[i].children|
      invariant count == CountInLists(u.nodes, i, memberName, k)
    {
      var childId := u.nodes[i].children[k];
      if childId == INVALID_ID {
        continue;
      }
      if u.nodes[childId].nodeType != FIELD_DECLARATION_LIST {
        continue;
      }
      count := CountListMembers(u.nodes, childId, memberName, count);
    }
  }

  // ---- Member calls ---------------------------------------------------------

  function IsCallableCalled(fqn: Text): WorkspaceSymbol -> bool {
    (s: WorkspaceSymbol) => s.symbol.fqn == fqn && IsCallableKind(s.symbol.kind)
  }

  predicate IsProper(s: WorkspaceSymbol) {
    s.symbol.kind.Method? || s.symbol.kind.Constructor? || s.symbol.kind.Destructor?
  }

  function NotPlain(): WorkspaceSymbol -> bool {
    (s: WorkspaceSymbol) => !s.symbol.kind.Function?
  }

  /** The callables named `fqn`, without the plain functions when a method, constructor or destructor is among them. */
  function Survivors(symbols: seq<WorkspaceSymbol>, fqn: Text): seq<WorkspaceSymbol> {
    var callables := Where(symbols, IsCallableCalled(fqn));
    if exists s :: s in callables && IsProper(s) then Where(callables, NotPlain()) else callables
  }

  /** A callable named `fqn`; a plain function only when no method, constructor or destructor bears that name. */
  function Stands(symbols: seq<WorkspaceSymbol>, fqn: Text): WorkspaceSymbol -> bool {
    (s: WorkspaceSymbol) =>
      && s.symbol.kind in {Function, Method, Constructor, Destructor} && s.symbol.fqn == fqn
      && (s.symbol.kind.Function? ==>
            forall t :: t in symbols && t.symbol.kind in {Method, Constructor, Destructor} ==> t.symbol.fqn != fqn)
  }

  /** The survivors are exactly the symbols that stand, position by position. */
  lemma {:induction false} SurvivorsStand(symbols: seq<WorkspaceSymbol>, fqn: Text)
    ensures Survivors(symbols, fqn) == Filter(symbols, Stands(symbols, fqn))
  {
    var callables := Where(symbols, IsCallableCalled(fqn));
    if exists s :: s in callables && IsProper(s) {
      var proper :| proper in callables && IsProper(proper);
      forall s | s in symbols ensures Stands(symbols, fqn)(s) == (IsCallableCalled(fqn)(s) && NotPlain()(s)) {
      }
      FilterTwice(symbols, IsCallableCalled(fqn), NotPlain(), Stands(symbols, fqn));
    } else {
      forall s | s in symbols ensures Stands(symbols, fqn)(s) == IsCallableCalled(fqn)(s) {
        forall t | t in symbols && t.symbol.kind in {Method, Constructor, Destructor} ensures t.symbol.fqn != fqn {
          assert IsProper(t);
          assert t in callables <==> t.symbol.fqn == fqn;
        }
      }
      FilterSame(symbols, IsCallableCalled(fqn), Stands(symbols, fqn));
    }
  }

  method CollectSurvivors(symbols: seq<WorkspaceSymbol>, expected: Text) returns (candidates: seq<WorkspaceSymbol>)
    ensures candidates == Survivors(symbols, expected)
  {
    candidates := [];
    var properCallableFqns: set<Text> := {};
    for k := 0 to |symbols|
      invariant candidates == WhereUpTo(symbols, IsCallableCalled(expected), k)
      invariant properCallableFqns == if exists s :: s in candidates && IsProper(s) then {expected} else {}
    {
      WhereStep(symbols, IsCallableCalled(expected), k);
      ghost var before := candidates;
      var symbol := symbols[k];
      if symbol.symbol.fqn != expected || !IsCallableKind(symbol.symbol.kind) {
        continue;
      }
      candidates := candidates + [symbol];
      assert forall s :: s in candidates <==> s in before || s == symbol;
      if symbol.symbol.kind.Method? || symbol.symbol.kind.Constructor? || symbol.symbol.kind.Destructor? {
        assert IsProper(symbol);
        properCallableFqns := properCallableFqns + {symbol.symbol.fqn};
      }
    }
    assert candidates == Where(symbols, IsCallableCalled(expected));
    if properCallableFqns != {} {
      candidates := EraseFunctions(candidates, properCallableFqns, expected);
    }
  }

  /** std::erase_if on the plain functions whose name a proper callable bears. */
  method EraseFunctions(candidates: seq<WorkspaceSymbol>, fqns: set<Text>, ghost expected: Text) returns (kept: seq<WorkspaceSymbol>)
    requires fqns == {expected} && forall s :: s in candidates ==> s.symbol.fqn == expected
    ensures kept == Where(candidates, NotPlain())
  {
    kept := [];
    for k := 0 to |candidates|
      invariant kept == WhereUpTo(candidates, NotPlain(), k)
    {
      WhereStep(candidates, NotPlain(), k);
      assert candidates[k] in candidates;
      if !(candidates[k].symbol.kind.Function? && candidates[k].symbol.fqn in fqns) {
        kept := kept + [candidates[k]];
      }
    }
  }

  /** The first identifier among the children of `access` from `k` on other than the member itself. */
  function ReceiverFrom(nodes: seq<Node>, access: nat, member: nat, k: nat): (r: nat)
    requires WellFormed(nodes) && access < |nodes| && k <= |nodes[access].children|
    ensures r == INVALID_ID || r < |nodes|
    decreases |nodes[access].children| - k
  {
    if k == |nodes[access].children| then INVALID_ID
    else
      assert Linked(nodes, access);
      var c := nodes[access].children[k];
      if c != member && IsIdentifierType(nodes[c].nodeType) then c else ReceiverFrom(nodes, access, member, k + 1)
  }

  method FindReceiver(nodes: seq<Node>, access: nat, member: nat) returns (receiver: nat)
    requires WellFormed(nodes) && access < |nodes|
    ensures receiver == ReceiverFrom(nodes, access, member, 0)
  {
    assert Linked(nodes, access);
    for k := 0 to |nodes[access].children|
      invariant ReceiverFrom(nodes, access, member, 0) == ReceiverFrom(nodes, access, member, k)
    {
      var childId := nodes[access].children[k];
      if childId == INVALID_ID || childId == member {
        continue;
      }
      if IsIdentifierType(nodes[childId].nodeType) {
        return childId;
      }
    }
    receiver := INVALID_ID;
  }

  /** The type text of the receiver: of the local that declares it, else of the caller's field. */
  ghost function ReceiverTypeName(ws: LoadedWorkspace, u: TranslationUnit, member: nat, scope: nat, receiverName: Text): Text
    requires Loaded(ws) && UnitOk(u) && member < |u.nodes| && IsScope(u.scopes, scope)
  {
    var local := LocalType(u, member, receiverName);
    if local.found then local.typeName
    else
      match ReceiverField(ws, u, scope, receiverName)
      case None => []
      case Some(field) =>
        match FindUnit(ws, field.sourceFile)
        case None => []
        case Some(fieldUnit) => FieldType(fieldUnit, field)
  }

  /** What a call of `memberName` on a receiver of type text `typeName` inside `caller` resolves to. */
  ghost function MemberOfType(ws: LoadedWorkspace, caller: WorkspaceSymbol, typeName: Text, memberName: Text): ResolutionResult
    requires Loaded(ws)
  {
    if typeName == [] then Unresolved
    else
      match ReceiverType(ws, caller.symbol.fqn, typeName)
      case None => Unresolved
      case Some(type_) =>
        match FindUnit(ws, type_.sourceFile)
        case None => Unresolved
        case Some(typeUnit) =>
          if MemberCount(typeUnit, type_, memberName) != 1 then Unresolved
          else
            var survivors := Survivors(ws.symbols, type_.symbol.fqn + SEPARATOR + memberName);
            if |survivors| == 1 then Resolved(survivors[0]) else Unresolved
  }

  /** The access node when `member` names the member of an access that is itself a child of a call, else INVALID_ID. */
  function CalledAccess(nodes: seq<Node>, member: nat): (access: nat)
    requires WellFormed(nodes) && member < |nodes|
    ensures access == INVALID_ID || access < |nodes|
  {
    var access := nodes[member].parent;
    if member == 0 then INVALID_ID
    else
      assert Parented(nodes, member);
      if !IsMemberAccess(nodes[access].nodeType) || access == 0 then INVALID_ID
      else
        assert Parented(nodes, access);
        if IsCallExpression(nodes[nodes[access].parent].nodeType) then access else INVALID_ID
  }

  ghost function MemberCall(ws: LoadedWorkspace, u: TranslationUnit, member: nat, scope: nat): ResolutionResult
    requires Loaded(ws) && UnitOk(u) && member < |u.nodes| && IsScope(u.scopes, scope)
  {
    var access := CalledAccess(u.nodes, member);
    if access == INVALID_ID then Unresolved
    else
      var receiver := ReceiverFrom(u.nodes, access, member, 0);
      if receiver == INVALID_ID then Unresolved
      else
        match EnclosingCaller(ws, u, scope)
        case None => Unresolved
        case Some(caller) =>
          MemberOfType(ws, caller, ReceiverTypeName(ws, u, member, scope, u.nodes[receiver].text), u.nodes[member].text)
  }

  /** Only the first node is without a parent. */
  lemma ParentLink(nodes: seq<Node>, i: nat)
    requires WellFormed(nodes) && i < |nodes|
    ensures nodes[i].parent == INVALID_ID <==> i == 0
    ensures i > 0 ==> nodes[i].parent < i
  {
    if i > 0 {
      assert Parented(nodes, i);
    }
  }

  method FindCalledAccess(nodes: seq<Node>, member: nat) returns (access: nat)
    requires WellFormed(nodes) && member < |nodes|
    ensures access == CalledAccess(nodes, member)
  {
    ParentLink(nodes, member);
    if nodes[member].parent == INVALID_ID {
      return INVALID_ID;
    }
    access := nodes[member].parent;
    ParentLink(nodes, access);
    if nodes[access].nodeType != FIELD_EXPRESSION && nodes[access].nodeType != MEMBER_EXPRESSION {
      return INVALID_ID;
    }
    if nodes[access].parent == INVALID_ID || !IsCallExpression(nodes[nodes[access].parent].nodeType) {
      return INVALID_ID;
    }
  }

  method ResolveReceiverTypeName(ws: LoadedWorkspace, u: TranslationUnit, member: nat, scopeId: nat, receiverName: Text) returns (typeName: Text)
    requires Loaded(ws) && UnitOk(u) && member < |u.nodes| && IsScope(u.scopes, scopeId)
    ensures typeName == ReceiverTypeName(ws, u, member, scopeId, receiverName)
  {
    var local := DeclaredLocalType(u, member, receiverName);
    if local.found {
      return local.typeName;
    }
    var field := ResolveReceiverField(ws, u, scopeId, receiverName);
    if field.None? {
      return [];
    }
    var fieldUnit := FindUnit(ws, field.value.sourceFile);
    if fieldUnit.None? {
      return [];
    }
    typeName := DeclaredFieldType(fieldUnit.value, field.value);
  }

  method ResolveMemberOfType(ws: LoadedWorkspace, caller: WorkspaceSymbol, typeName: Text, memberName: Text) returns (r: ResolutionResult)
    requires Loaded(ws)
    ensures r == MemberOfType(ws, caller, typeName, memberName)
  {
    if typeName == [] {
      return Unresolved;
    }
    var type_ := ResolveReceiverType(ws, caller.symbol.fqn, typeName);
    if type_.None? {
      return Unresolved;
    }
    var typeUnit := FindUnit(ws, type_.value.sourceFile);
    if typeUnit.None? {
      return Unresolved;
    }
    var count := DeclaredMemberCount(typeUnit.value, type_.value, memberName);
    if count != 1 {
      return Unresolved;
    }
    var candidates := CollectSurvivors(ws.symbols, type_.value.symbol.fqn + SEPARATOR + memberName);
    if |candidates| != 1 {
      return Unresolved;
    }
    r := Resolved(candidates[0]);
  }

  method ResolveFieldMemberCall(ws: LoadedWorkspace, u: TranslationUnit, memberIdentifier: nat, scopeId: nat) returns (r: ResolutionResult)
    requires Loaded(ws) && UnitOk(u) && memberIdentifier < |u.nodes| && IsScope(u.scopes, scopeId)
    ensures r == MemberCall(ws, u, memberIdentifier, scopeId)
  {
    var nodes := u.nodes;
    var access := FindCalledAccess(nodes, memberIdentifier);
    if access == INVALID_ID {
      return Unresolved;
    }
    var receiver := FindReceiver(nodes, access, memberIdentifier);
    if receiver == INVALID_ID {
      return Unresolved;
    }
    var caller := FindEnclosingCaller(ws, u, scopeId);
    if caller.None? {
      return Unresolved;
    }
    var typeName := ResolveReceiverTypeName(ws, u, memberIdentifier, scopeId, nodes[receiver].text);
    r := ResolveMemberOfType(ws, caller.value, typeName, nodes[memberIdentifier].text);
  }

  /** `s` is the member `memberName` of `type_`, and no other callable competes: any other of that name is a plain function beside a proper `s`. */
  ghost predicate SoleMember(symbols: seq<WorkspaceSymbol>, type_: WorkspaceSymbol, memberName: Text, s: WorkspaceSymbol) {
    && s in symbols && IsCallableKind(s.symbol.kind)
    && s.symbol.fqn == type_.symbol.fqn + SEPARATOR + memberName
    && forall t :: t in symbols && IsCallableKind(t.symbol.kind) && t.symbol.fqn == s.symbol.fqn && t != s ==>
         t.symbol.kind.Function? && !s.symbol.kind.Function?
  }

  lemma SurvivorIsSole(symbols: seq<WorkspaceSymbol>, type_: WorkspaceSymbol, memberName: Text)
    requires |Survivors(symbols, type_.symbol.fqn + SEPARATOR + memberName)| == 1
    ensures SoleMember(symbols, type_, memberName, Survivors(symbols, type_.symbol.fqn + SEPARATOR + memberName)[0])
  {
    var fqn := type_.symbol.fqn + SEPARATOR + memberName;
    var callables, survivors := Where(symbols, IsCallableCalled(fqn)), Survivors(symbols, fqn);
    var s := survivors[0];
    assert s in survivors && s in callables;
    forall t | t in symbols && IsCallableKind(t.symbol.kind) && t.symbol.fqn == fqn && t != s
      ensures t.symbol.kind.Function? && !s.symbol.kind.Function?
    {
      assert t in callables;
      assert t !in survivors;
    }
  }

  /** `receiver` is an identifier beside `member` under the same parent. */
  predicate StandsBeside(nodes: seq<Node>, member: nat, receiver: nat) {
    && member < |nodes| && receiver < |nodes| && receiver != member && nodes[member].parent < |nodes|
    && receiver in nodes[nodes[member].parent].children && IsIdentifierType(nodes[receiver].nodeType)
  }

  lemma {:induction false} ReceiverStandsBeside(nodes: seq<Node>, member: nat, k: nat)
    requires WellFormed(nodes) && member < |nodes| && nodes[member].parent < |nodes|
    requires k <= |nodes[nodes[member].parent].children|
    ensures var receiver := ReceiverFrom(nodes, nodes[member].parent, member, k);
      receiver == INVALID_ID || StandsBeside(nodes, member, receiver)
    decreases |nodes[nodes[member].parent].children| - k
  {
    assert Linked(nodes, nodes[member].parent);
    if k < |nodes[nodes[member].parent].children| {
      ReceiverStandsBeside(nodes, member, k + 1);
    }
  }

  /** Everything that a member call needs to be taken for a call of `s`: caller, typed receiver, its type, and one such member. */
  ghost predicate Justified(ws: LoadedWorkspace, u: TranslationUnit, member: nat, scope: nat, receiver: nat, type_: WorkspaceSymbol, s: WorkspaceSymbol)
    requires Loaded(ws) && UnitOk(u) && member < |u.nodes| && IsScope(u.scopes, scope)
  {
    && StandsBeside(u.nodes, member, receiver) && EnclosingCaller(ws, u, scope).Some?
    && var typeName := ReceiverTypeName(ws, u, member, scope, u.nodes[receiver].text);
       && typeName != [] && ReceiverType(ws, EnclosingCaller(ws, u, scope).value.symbol.fqn, typeName) == Some(type_)
       && FindUnit(ws, type_.sourceFile).Some? && MemberCount(FindUnit(ws, type_.sourceFile).value, type_, u.nodes[member].text) == 1
       && SoleMember(ws.symbols, type_, u.nodes[member].text, s)
  }

  /** Failing closed: a member call is never ambiguous, and it resolves only to the sole such member of its receiver's type. */
  lemma ResolvedMemberCall(ws: LoadedWorkspace, u: TranslationUnit, member: nat, scope: nat)
    requires Loaded(ws) && UnitOk(u) && member < |u.nodes| && IsScope(u.scopes, scope)
    ensures !MemberCall(ws, u, member, scope).Ambiguous?
    ensures MemberCall(ws, u, member, scope).Resolved? ==>
      exists receiver, type_ :: Justified(ws, u, member, scope, receiver, type_, MemberCall(ws, u, member, scope).symbol)
  {
    var r := MemberCall(ws, u, member, scope);
    if r.Resolved? {
      assert CalledAccess(u.nodes, member) == u.nodes[member].parent;
      ReceiverStandsBeside(u.nodes, member, 0);
      var receiver := ReceiverFrom(u.nodes, CalledAccess(u.nodes, member), member, 0);
      var caller := EnclosingCaller(ws, u, scope).value;
      var typeName := ReceiverTypeName(ws, u, member, scope, u.nodes[receiver].text);
      var type_ := ReceiverType(ws, caller.symbol.fqn, typeName).value;
      SurvivorIsSole(ws.symbols, type_, u.nodes[member].text);
      assert Justified(ws, u, member, scope, receiver, type_, r.symbol);
    }
  }

  /** `member` names the member of an access that a call is made of. */
  ghost predicate IsCalledMember(nodes: seq<Node>, member: nat) {
    && 0 < member < |nodes| && 0 < nodes[member].parent < |nodes|
    && nodes[nodes[member].parent].nodeType in {FIELD_EXPRESSION, MEMBER_EXPRESSION}
    && nodes[nodes[member].parent].parent < |nodes|
    && nodes[nodes[nodes[member].parent].parent].nodeType in {CALL_EXPRESSION, METHOD_INVOCATION, CALL}
  }

  /** `receiver` is the first identifier beside `member` under its parent. */
  ghost predicate IsReceiver(nodes: seq<Node>, member: nat, receiver: nat) {
    && StandsBeside(nodes, member, receiver)
    && var kids := nodes[nodes[member].parent].children;
       exists k :: 0 <= k < |kids| && kids[k] == receiver
         && forall j :: 0 <= j < k && kids[j] != member ==> !IsIdentifierAt(nodes, kids[j])
  }

  lemma {:induction false} ReceiverIsFirst(nodes: seq<Node>, member: nat, k: nat)
    requires WellFormed(nodes) && 0 < member < |nodes| && nodes[member].parent < |nodes|
    requires var kids := nodes[nodes[member].parent].children;
      k <= |kids| && forall j :: 0 <= j < k && kids[j] != member ==> !IsIdentifierAt(nodes, kids[j])
    ensures var r := ReceiverFrom(nodes, nodes[member].parent, member, k);
      && (r != INVALID_ID ==> IsReceiver(nodes, member, r))
      && forall x: nat :: IsReceiver(nodes, member, x) ==> x == r
    decreases |nodes[nodes[member].parent].children| - k
  {
    var a := nodes[member].parent;
    assert Linked(nodes, a);
    if k < |nodes[a].children| {
      var c := nodes[a].children[k];
      if c == member || !IsIdentifierAt(nodes, c) {
        ReceiverIsFirst(nodes, member, k + 1);
      } else {
        assert StandsBeside(nodes, member, c);
        forall x: nat | IsReceiver(nodes, member, x) ensures x == c {
          var l :| 0 <= l < |nodes[a].children| && nodes[a].children[l] == x
            && forall j :: 0 <= j < l && nodes[a].children[j] != member ==> !IsIdentifierAt(nodes, nodes[a].children[j]);
          assert !(k < l);
          assert !(l < k);
        }
      }
    }
  }

  /** The type text of a receiver: of the local, when one is found, even if it has no type; else that of the caller's field. */
  lemma LocalsHideFields(ws: LoadedWorkspace, u: TranslationUnit, member: nat, scope: nat, name: Text)
    requires Loaded(ws) && UnitOk(u) && member < |u.nodes| && IsScope(u.scopes, scope)
    ensures LocalType(u, member, name).found ==> ReceiverTypeName(ws, u, member, scope, name) == LocalType(u, member, name).typeName
    ensures !LocalType(u, member, name).found && ReceiverField(ws, u, scope, name).None? ==> ReceiverTypeName(ws, u, member, scope, name) == []
    ensures !LocalType(u, member, name).found ==>
      forall n, f :: 0 <= n < |ws.units| && ReceiverField(ws, u, scope, name) == Some(f) && f.sourceFile == ws.units[n].path ==>
        ReceiverTypeName(ws, u, member, scope, name) == FieldType(ws.units[n], f)
  {
    forall n | 0 <= n < |ws.units| ensures FindUnit(ws, ws.units[n].path) == Some(ws.units[n]) {
      UnitFound(ws, n);
    }
  }

  /** What a member call needs before its target is looked for: an access under a call, a receiver, a caller around, a type
  text of the receiver, its type, and exactly one declaration of the member in that type. */
  ghost predicate Typed(ws: LoadedWorkspace, u: TranslationUnit, member: nat, scope: nat, receiver: nat, type_: WorkspaceSymbol)
    requires Loaded(ws) && UnitOk(u) && member < |u.nodes| && IsScope(u.scopes, scope)
  {
    && IsCalledMember(u.nodes, member) && IsReceiver(u.nodes, member, receiver) && EnclosingCaller(ws, u, scope).Some?
    && var typeName := ReceiverTypeName(ws, u, member, scope, u.nodes[receiver].text);
       && typeName != [] && ReceiverType(ws, EnclosingCaller(ws, u, scope).value.symbol.fqn, typeName) == Some(type_)
       && FindUnit(ws, type_.sourceFile).Some? && MemberCount(FindUnit(ws, type_.sourceFile).value, type_, u.nodes[member].text) == 1
  }

  /** Position `k` of the table is the only one that stands for member `name` of `type_`. */
  ghost predicate IsTarget(ws: LoadedWorkspace, type_: WorkspaceSymbol, name: Text, k: nat) {
    SoleAt(ws.symbols, Stands(ws.symbols, type_.symbol.fqn + SEPARATOR + name), k)
  }

  lemma CalledAccessIs(nodes: seq<Node>, member: nat)
    requires WellFormed(nodes) && member < |nodes|
    ensures CalledAccess(nodes, member) == if IsCalledMember(nodes, member) then nodes[member].parent else INVALID_ID
  {
    if member > 0 {
      assert Parented(nodes, member);
      if nodes[member].parent > 0 {
        assert Parented(nodes, nodes[member].parent);
      }
    }
  }

  lemma MemberOfTypeExact(ws: LoadedWorkspace, caller: WorkspaceSymbol, typeName: Text, name: Text, s: WorkspaceSymbol)
    requires Loaded(ws)
    ensures MemberOfType(ws, caller, typeName, name) == Resolved(s) <==>
      && typeName != [] && ReceiverType(ws, caller.symbol.fqn, typeName).Some?
      && var type_ := ReceiverType(ws, caller.symbol.fqn, typeName).value;
         && FindUnit(ws, type_.sourceFile).Some? && MemberCount(FindUnit(ws, type_.sourceFile).value, type_, name) == 1
         && exists k: nat :: IsTarget(ws, type_, name, k) && s == ws.symbols[k]
    ensures !MemberOfType(ws, caller, typeName, name).Ambiguous?
  {
    if ReceiverType(ws, caller.symbol.fqn, typeName).Some? {
      var fqn := ReceiverType(ws, caller.symbol.fqn, typeName).value.symbol.fqn + SEPARATOR + name;
      SurvivorsStand(ws.symbols, fqn);
      FilterCounts(ws.symbols, Stands(ws.symbols, fqn));
    }
  }

  /** A member call resolves to `s` exactly when its receiver is typed and one position of the table stands for the member
  of that type, and that position holds `s`. */
  lemma MemberCallExact(ws: LoadedWorkspace, u: TranslationUnit, member: nat, scope: nat, s: WorkspaceSymbol)
    requires Loaded(ws) && UnitOk(u) && member < |u.nodes| && IsScope(u.scopes, scope)
    ensures MemberCall(ws, u, member, scope) == Resolved(s) <==>
      exists receiver, type_, k: nat :: Typed(ws, u, member, scope, receiver, type_)
        && IsTarget(ws, type_, u.nodes[member].text, k) && s == ws.symbols[k]
  {
    var name := u.nodes[member].text;
    CalledAccessIs(u.nodes, member);
    if IsCalledMember(u.nodes, member) {
      ReceiverIsFirst(u.nodes, member, 0);
      var receiver := ReceiverFrom(u.nodes, u.nodes[member].parent, member, 0);
      if receiver != INVALID_ID && EnclosingCaller(ws, u, scope).Some? {
        var caller := EnclosingCaller(ws, u, scope).value;
        var typeName := ReceiverTypeName(ws, u, member, scope, u.nodes[receiver].text);
        MemberOfTypeExact(ws, caller, typeName, name, s);
        if MemberCall(ws, u, member, scope) == Resolved(s) {
          var type_ := ReceiverType(ws, caller.symbol.fqn, typeName).value;
          var k: nat :| IsTarget(ws, type_, name, k) && s == ws.symbols[k];
          assert Typed(ws, u, member, scope, receiver, type_) && IsTarget(ws, type_, name, k) && s == ws.symbols[k];
        }
      }
    }
  }

  // ---- Relationship identifiers ---------------------------------------------

  /** `ident` is the member name of a member call. */
  predicate IsMemberName(nodes: seq<Node>, ident: nat)
    requires WellFormed(nodes) && ident < |nodes|
  {
    var access := CalledAccess(nodes, ident);
    && access != INVALID_ID
    && (assert Parented(nodes, access); CalleeIdentifier(nodes, nodes[access].parent) == ident)
  }

  /** What the identifier at node `ident`, used in `scope`, refers to. */
  ghost function ResolveUse(ws: LoadedWorkspace, u: TranslationUnit, ident: nat, scope: nat): ResolutionResult
    requires Loaded(ws) && UnitOk(u) && IsScope(u.scopes, scope)
  {
    if ident >= |u.nodes| then Unresolved
    else if IsMemberName(u.nodes, ident) then MemberCall(ws, u, ident, scope)
    else if u.nodes[ident].text == [] then Unresolved
    else Resolve(ws, u, u.nodes[ident].text, scope)
  }

  method ResolveRelationshipIdentifier(ws: LoadedWorkspace, u: TranslationUnit, identifier: nat, scopeId: nat) returns (r: ResolutionResult)
    requires Loaded(ws) && UnitOk(u) && IsScope(u.scopes, scopeId)
    ensures r == ResolveUse(ws, u, identifier, scopeId)
  {
    var nodes := u.nodes;
    if identifier >= |nodes| {
      return Unresolved;
    }
    ParentLink(nodes, identifier);
    if nodes[identifier].parent != INVALID_ID {
      var parent := nodes[identifier].parent;
      ParentLink(nodes, parent);
      if nodes[parent].nodeType == FIELD_EXPRESSION || nodes[parent].nodeType == MEMBER_EXPRESSION {
        if nodes[parent].parent != INVALID_ID {
          if IsCallExpression(nodes[nodes[parent].parent].nodeType) {
            var callee := FindCalleeIdentifier(nodes, nodes[parent].parent);
            if callee == identifier {
              r := ResolveFieldMemberCall(ws, u, identifier, scopeId);
              return;
            }
          }
        }
      }
    }
    if nodes[identifier].text == [] {
      return Unresolved;
    }
    r := ResolveName(ws, u, nodes[identifier].text, scopeId);
  }

  /** `ident` is the member that a call names through an access. */
  ghost predicate IsMemberOfCall(nodes: seq<Node>, ident: nat) {
    IsCalledMember(nodes, ident) && NamesCallee(nodes, nodes[nodes[ident].parent].parent, ident)
  }

  /** A member that a call names goes by the type of its receiver, resolved or not; every other identifier with a text
  goes by its name, and one without a text is unresolved. */
  lemma UseExact(ws: LoadedWorkspace, u: TranslationUnit, ident: nat, scope: nat, s: WorkspaceSymbol)
    requires Loaded(ws) && UnitOk(u) && ident < |u.nodes| && IsScope(u.scopes, scope)
    ensures IsMemberOfCall(u.nodes, ident) ==>
      (ResolveUse(ws, u, ident, scope) == Resolved(s) <==>
         exists receiver, type_, k: nat :: Typed(ws, u, ident, scope, receiver, type_)
           && IsTarget(ws, type_, u.nodes[ident].text, k) && s == ws.symbols[k])
    ensures !IsMemberOfCall(u.nodes, ident) && u.nodes[ident].text != [] ==>
      ResolveUse(ws, u, ident, scope) == Resolve(ws, u, u.nodes[ident].text, scope)
    ensures !IsMemberOfCall(u.nodes, ident) && u.nodes[ident].text == [] ==> ResolveUse(ws, u, ident, scope) == Unresolved
  {
    CalledAccessIs(u.nodes, ident);
    if IsCalledMember(u.nodes, ident) {
      CalleeIsNamed(u.nodes, u.nodes[u.nodes[ident].parent].parent);
    }
    MemberCallExact(ws, u, ident, scope, s);
  }

  lemma MemberCallIsDeclared(ws: LoadedWorkspace, u: TranslationUnit, member: nat, scope: nat)
    requires Loaded(ws) && UnitOk(u) && member < |u.nodes| && IsScope(u.scopes, scope)
    ensures MemberCall(ws, u, member, scope).Resolved? ==> MemberCall(ws, u, member, scope).symbol in ws.symbols
  {
    ResolvedMemberCall(ws, u, member, scope);
  }

  /** Whatever a use resolves to is in the workspace's table. */
  lemma ResolvedUseIsDeclared(ws: LoadedWorkspace, u: TranslationUnit, ident: nat, scope: nat)
    requires Loaded(ws) && u in ws.units && UnitOk(u) && IsScope(u.scopes, scope)
    ensures ResolveUse(ws, u, ident, scope).Resolved? ==> ResolveUse(ws, u, ident, scope).symbol in ws.symbols
  {
    if ident < |u.nodes| {
      MemberCallIsDeclared(ws, u, ident, scope);
      ResolvedIsDeclared(ws, u, u.nodes[ident].text, scope);
    }
  }
}
