/** Helpers shared by the call services (src/ast-call-utils.h). */
module CallUtils {
  import opened Ast
  import opened Options
  import opened NodeTypes
  import opened Symbols
  import opened ScopeTrees
  import opened ScopeBuilder
  import opened Lookups
  import opened Units

  predicate IsCallExpression(t: U16) {
    t == CALL_EXPRESSION || t == METHOD_INVOCATION || t == CALL
  }

  predicate IsIdentifierType(t: U16) {
    t == IDENTIFIER || t == TYPE_IDENTIFIER || t == FIELD_IDENTIFIER || t == NAMESPACE_IDENTIFIER || t == PROPERTY_IDENTIFIER
  }

  predicate IsMemberAccess(t: U16) {
    t == FIELD_EXPRESSION || t == MEMBER_EXPRESSION
  }

  predicate IsQualifiedName(t: U16) {
    t == QUALIFIED_IDENTIFIER || t == SCOPED_IDENTIFIER
  }

  predicate IsInstantiation(t: U16) {
    t == TEMPLATE_FUNCTION || t == GENERIC_FUNCTION
  }

  predicate SameDeclaration(a: WorkspaceSymbol, b: WorkspaceSymbol) {
    && a.symbol.fqn == b.symbol.fqn
    && a.symbol.kind == b.symbol.kind
    && a.sourceFile == b.sourceFile
    && a.symbol.line == b.symbol.line
  }

  /** The last identifier among the first `k` children of `i`. */
  function LastIdentifier(nodes: seq<Node>, i: nat, k: nat): nat
    requires WellFormed(nodes) && i < |nodes| && k <= |nodes[i].children|
  {
    if k == 0 then INVALID_ID
    else
      assert Linked(nodes, i);
      var c := nodes[i].children[k - 1];
      if IsIdentifierType(nodes[c].nodeType) then c else LastIdentifier(nodes, i, k - 1)
  }

  /** The first identifier among the children of `i` from `k` on. */
  function FirstIdentifier(nodes: seq<Node>, i: nat, k: nat): nat
    requires WellFormed(nodes) && i < |nodes| && k <= |nodes[i].children|
    decreases |nodes[i].children| - k
  {
    if k == |nodes[i].children| then INVALID_ID
    else
      assert Linked(nodes, i);
      var c := nodes[i].children[k];
      if IsIdentifierType(nodes[c].nodeType) then c else FirstIdentifier(nodes, i, k + 1)
  }

  /** The identifier that names the function called at node `call`, or INVALID_ID. */
  function CalleeIdentifier(nodes: seq<Node>, call: nat): nat
    requires WellFormed(nodes) && call < |nodes|
  {
    if nodes[call].children == [] then INVALID_ID
    else
      assert Linked(nodes, call);
      var callee := nodes[call].children[0];
      var t := nodes[callee].nodeType;
      if IsIdentifierType(t) then callee
      else if IsMemberAccess(t) || IsQualifiedName(t) then LastIdentifier(nodes, callee, |nodes[callee].children|)
      else if IsInstantiation(t) then FirstIdentifier(nodes, callee, 0)
      else INVALID_ID
  }

  method FindLastIdentifier(nodes: seq<Node>, i: nat) returns (ident: nat)
    requires WellFormed(nodes) && i < |nodes|
    ensures ident == LastIdentifier(nodes, i, |nodes[i].children|)
  {
    var c := nodes[i].children;
    assert Linked(nodes, i);
    for k := |c| downto 0
      invariant LastIdentifier(nodes, i, |c|) == LastIdentifier(nodes, i, k)
    {
      if c[k] == INVALID_ID {
        continue;
      }
      if IsIdentifierType(nodes[c[k]].nodeType) {
        return c[k];
      }
    }
    ident := INVALID_ID;
  }

  method FindFirstIdentifier(nodes: seq<Node>, i: nat) returns (ident: nat)
    requires WellFormed(nodes) && i < |nodes|
    ensures ident == FirstIdentifier(nodes, i, 0)
  {
    var c := nodes[i].children;
    assert Linked(nodes, i);
    for k := 0 to |c|
      invariant FirstIdentifier(nodes, i, 0) == FirstIdentifier(nodes, i, k)
    {
      if c[k] == INVALID_ID {
        continue;
      }
      if IsIdentifierType(nodes[c[k]].nodeType) {
        return c[k];
      }
    }
    ident := INVALID_ID;
  }

  method FindCalleeIdentifier(nodes: seq<Node>, call: nat) returns (ident: nat)
    requires WellFormed(nodes) && call < |nodes|
    ensures ident == CalleeIdentifier(nodes, call)
  {
    if nodes[call].children == [] {
      return INVALID_ID;
    }
    assert Linked(nodes, call);
    var callee := nodes[call].children[0];
    if callee == INVALID_ID {
      return INVALID_ID;
    }
    var t := nodes[callee].nodeType;
    if IsIdentifierType(t) {
      return callee;
    }
    if IsMemberAccess(t) || IsQualifiedName(t) {
      ident := FindLastIdentifier(nodes, callee);
    } else if IsInstantiation(t) {
      ident := FindFirstIdentifier(nodes, callee);
    } else {
      ident := INVALID_ID;
    }
  }

  /** `ident` is an identifier child of `i`. */
  ghost predicate IdentifierChild(nodes: seq<Node>, i: nat, ident: nat)
    requires i < |nodes|
  {
    i < ident < |nodes| && nodes[ident].parent == i && IsIdentifierType(nodes[ident].nodeType)
  }

  predicate IsIdentifierAt(nodes: seq<Node>, x: nat) {
    x < |nodes| && nodes[x].nodeType in {IDENTIFIER, TYPE_IDENTIFIER, FIELD_IDENTIFIER, NAMESPACE_IDENTIFIER, PROPERTY_IDENTIFIER}
  }

  /** `x` is the last identifier of `kids`, or INVALID_ID when there is none. */
  ghost predicate IsLastIdentifier(nodes: seq<Node>, kids: seq<nat>, x: nat) {
    if exists k :: 0 <= k < |kids| && IsIdentifierAt(nodes, kids[k])
    then exists k :: 0 <= k < |kids| && kids[k] == x && IsIdentifierAt(nodes, x)
           && forall j :: k < j < |kids| ==> !IsIdentifierAt(nodes, kids[j])
    else x == INVALID_ID
  }

  /** `x` is the first identifier of `kids`, or INVALID_ID when there is none. */
  ghost predicate IsFirstIdentifier(nodes: seq<Node>, kids: seq<nat>, x: nat) {
    if exists k :: 0 <= k < |kids| && IsIdentifierAt(nodes, kids[k])
    then exists k :: 0 <= k < |kids| && kids[k] == x && IsIdentifierAt(nodes, x)
           && forall j :: 0 <= j < k ==> !IsIdentifierAt(nodes, kids[j])
    else x == INVALID_ID
  }

  lemma {:induction false} LastIsLast(nodes: seq<Node>, i: nat, k: nat)
    requires WellFormed(nodes) && i < |nodes| && k <= |nodes[i].children|
    requires forall j :: k <= j < |nodes[i].children| ==> !IsIdentifierAt(nodes, nodes[i].children[j])
    ensures IsLastIdentifier(nodes, nodes[i].children, LastIdentifier(nodes, i, k))
    decreases k
  {
    if k > 0 {
      assert Linked(nodes, i);
      var c := nodes[i].children[k - 1];
      if !IsIdentifierAt(nodes, c) {
        LastIsLast(nodes, i, k - 1);
      }
    }
  }

  lemma {:induction false} FirstIsFirst(nodes: seq<Node>, i: nat, k: nat)
    requires WellFormed(nodes) && i < |nodes| && k <= |nodes[i].children|
    requires forall j :: 0 <= j < k ==> !IsIdentifierAt(nodes, nodes[i].children[j])
    ensures IsFirstIdentifier(nodes, nodes[i].children, FirstIdentifier(nodes, i, k))
    decreases |nodes[i].children| - k
  {
    if k < |nodes[i].children| {
      assert Linked(nodes, i);
      var c := nodes[i].children[k];
      if !IsIdentifierAt(nodes, c) {
        FirstIsFirst(nodes, i, k + 1);
      }
    }
  }

  /** `x` names the callee, by the form of the call's first child: that child itself, the last identifier of a member
  access or qualified name, the first one of a template or generic form; where there is none, `x` is INVALID_ID. */
  ghost predicate NamesCallee(nodes: seq<Node>, call: nat, x: nat)
    requires call < |nodes|
  {
    var kids := nodes[call].children;
    if kids == [] || kids[0] >= |nodes| then x == INVALID_ID
    else
      var c := nodes[kids[0]];
      if IsIdentifierAt(nodes, kids[0]) then x == kids[0]
      else if c.nodeType in {FIELD_EXPRESSION, MEMBER_EXPRESSION, QUALIFIED_IDENTIFIER, SCOPED_IDENTIFIER}
      then IsLastIdentifier(nodes, c.children, x)
      else if c.nodeType in {TEMPLATE_FUNCTION, GENERIC_FUNCTION} then IsFirstIdentifier(nodes, c.children, x)
      else x == INVALID_ID
  }

  lemma OnlyOneLast(nodes: seq<Node>, kids: seq<nat>, x: nat, y: nat)
    requires IsLastIdentifier(nodes, kids, x) && IsLastIdentifier(nodes, kids, y)
    ensures x == y
  {
    if k :| 0 <= k < |kids| && IsIdentifierAt(nodes, kids[k]) {
      var a :| 0 <= a < |kids| && kids[a] == x && forall j :: a < j < |kids| ==> !IsIdentifierAt(nodes, kids[j]);
      var b :| 0 <= b < |kids| && kids[b] == y && forall j :: b < j < |kids| ==> !IsIdentifierAt(nodes, kids[j]);
      assert !(a < b) && !(b < a);
    }
  }

  lemma OnlyOneFirst(nodes: seq<Node>, kids: seq<nat>, x: nat, y: nat)
    requires IsFirstIdentifier(nodes, kids, x) && IsFirstIdentifier(nodes, kids, y)
    ensures x == y
  {
    if k :| 0 <= k < |kids| && IsIdentifierAt(nodes, kids[k]) {
      var a :| 0 <= a < |kids| && kids[a] == x && forall j :: 0 <= j < a ==> !IsIdentifierAt(nodes, kids[j]);
      var b :| 0 <= b < |kids| && kids[b] == y && forall j :: 0 <= j < b ==> !IsIdentifierAt(nodes, kids[j]);
      assert !(a < b) && !(b < a);
    }
  }

  /** The identifier found is the one that names the callee, and no other does. */
  lemma CalleeIsNamed(nodes: seq<Node>, call: nat)
    requires WellFormed(nodes) && call < |nodes|
    ensures forall x: nat :: NamesCallee(nodes, call, x) <==> x == CalleeIdentifier(nodes, call)
  {
    if nodes[call].children != [] {
      assert Linked(nodes, call);
      var callee := nodes[call].children[0];
      var kids := nodes[callee].children;
      var last, first := LastIdentifier(nodes, callee, |kids|), FirstIdentifier(nodes, callee, 0);
      LastIsLast(nodes, callee, |kids|);
      FirstIsFirst(nodes, callee, 0);
      forall x: nat | IsLastIdentifier(nodes, kids, x) ensures x == last {
        OnlyOneLast(nodes, kids, x, last);
      }
      forall x: nat | IsFirstIdentifier(nodes, kids, x) ensures x == first {
        OnlyOneFirst(nodes, kids, x, first);
      }
    }
  }

  lemma {:induction false} LastIdentifierIsChild(nodes: seq<Node>, i: nat, k: nat)
    requires WellFormed(nodes) && i < |nodes| && k <= |nodes[i].children|
    ensures LastIdentifier(nodes, i, k) == INVALID_ID || IdentifierChild(nodes, i, LastIdentifier(nodes, i, k))
  {
    assert Linked(nodes, i);
    if k > 0 {
      LastIdentifierIsChild(nodes, i, k - 1);
    }
  }

  lemma {:induction false} FirstIdentifierIsChild(nodes: seq<Node>, i: nat, k: nat)
    requires WellFormed(nodes) && i < |nodes| && k <= |nodes[i].children|
    ensures FirstIdentifier(nodes, i, k) == INVALID_ID || IdentifierChild(nodes, i, FirstIdentifier(nodes, i, k))
    decreases |nodes[i].children| - k
  {
    assert Linked(nodes, i);
    if k < |nodes[i].children| {
      FirstIdentifierIsChild(nodes, i, k + 1);
    }
  }

  /** No part of a callee expression opens a scope. */
  lemma CalleePartsOpenNothing(t: U16)
    requires IsIdentifierType(t) || IsMemberAccess(t) || IsQualifiedName(t) || IsInstantiation(t)
    ensures ClassifyNode(t) == UnknownScope
  {
  }

  lemma {:induction false} ChildInScope(nodes: seq<Node>, i: nat, c: nat)
    requires WellFormed(nodes) && i < c < |nodes| && nodes[c].parent == i
    requires ClassifyNode(nodes[c].nodeType) == UnknownScope
    ensures ScopeOf(nodes, c) == ScopeOf(nodes, i)
  {
  }

  /** A callee identifier is an identifier inside the call, and resolves in the call's own scope: nothing between opens one. */
  lemma {:induction false} CalleeInCallScope(nodes: seq<Node>, call: nat)
    requires WellFormed(nodes) && call < |nodes| && CalleeIdentifier(nodes, call) != INVALID_ID
    ensures call < CalleeIdentifier(nodes, call) < |nodes|
    ensures IsAncestor(nodes, call, CalleeIdentifier(nodes, call))
    ensures IsIdentifierType(nodes[CalleeIdentifier(nodes, call)].nodeType)
    ensures ScopeOf(nodes, CalleeIdentifier(nodes, call)) == ScopeOf(nodes, call)
  {
    assert Linked(nodes, call);
    var ident, callee := CalleeIdentifier(nodes, call), nodes[call].children[0];
    CalleePartsOpenNothing(nodes[callee].nodeType);
    ChildInScope(nodes, call, callee);
    assert IsAncestor(nodes, call, call);
    if !IsIdentifierType(nodes[callee].nodeType) {
      LastIdentifierIsChild(nodes, callee, |nodes[callee].children|);
      FirstIdentifierIsChild(nodes, callee, 0);
      assert IdentifierChild(nodes, callee, ident);
      assert IsAncestor(nodes, call, callee);
      CalleePartsOpenNothing(nodes[ident].nodeType);
      ChildInScope(nodes, callee, ident);
    }
  }

  // ---- Workspace searches ---------------------------------------------------

  function FirstSameFrom(symbols: seq<WorkspaceSymbol>, sym: WorkspaceSymbol, k: nat): Option<WorkspaceSymbol>
    decreases |symbols| - k
  {
    if k >= |symbols| then None
    else if SameDeclaration(symbols[k], sym) then Some(symbols[k])
    else FirstSameFrom(symbols, sym, k + 1)
  }

  method FindInWorkspace(ws: LoadedWorkspace, sym: WorkspaceSymbol) returns (r: Option<WorkspaceSymbol>)
    ensures r == FirstSameFrom(ws.symbols, sym, 0)
  {
    for k := 0 to |ws.symbols|
      invariant FirstSameFrom(ws.symbols, sym, 0) == FirstSameFrom(ws.symbols, sym, k)
    {
      if SameDeclaration(ws.symbols[k], sym) {
        return Some(ws.symbols[k]);
      }
    }
    r := None;
  }

  /** `r` is the first of `symbols` that satisfies `p`, or none when none does. */
  ghost predicate IsFirst(symbols: seq<WorkspaceSymbol>, p: WorkspaceSymbol -> bool, r: Option<WorkspaceSymbol>) {
    match r
    case None => forall j :: 0 <= j < |symbols| ==> !p(symbols[j])
    case Some(s) => exists k :: 0 <= k < |symbols| && symbols[k] == s && p(s) && forall j :: 0 <= j < k ==> !p(symbols[j])
  }

  function IsSame(sym: WorkspaceSymbol): WorkspaceSymbol -> bool {
    (s: WorkspaceSymbol) => SameDeclaration(s, sym)
  }

  /** The search gives the first entry for the declaration. */
  lemma {:induction false} FirstSameIsFirst(symbols: seq<WorkspaceSymbol>, sym: WorkspaceSymbol, k: nat)
    requires k <= |symbols| && forall j :: 0 <= j < k ==> !SameDeclaration(symbols[j], sym)
    ensures IsFirst(symbols, IsSame(sym), FirstSameFrom(symbols, sym, k))
    decreases |symbols| - k
  {
    if k < |symbols| && !SameDeclaration(symbols[k], sym) {
      FirstSameIsFirst(symbols, sym, k + 1);
    }
  }

  /** A table search for a declaration succeeds exactly when the table has it. */
  lemma {:induction false} SameFound(symbols: seq<WorkspaceSymbol>, sym: WorkspaceSymbol, k: nat)
    ensures FirstSameFrom(symbols, sym, k).Some? <==> exists i :: k <= i < |symbols| && SameDeclaration(symbols[i], sym)
    ensures FirstSameFrom(symbols, sym, k).Some? ==>
      FirstSameFrom(symbols, sym, k).value in symbols && SameDeclaration(FirstSameFrom(symbols, sym, k).value, sym)
    decreases |symbols| - k
  {
    if k < |symbols| && !SameDeclaration(symbols[k], sym) {
      SameFound(symbols, sym, k + 1);
    }
  }

  predicate IsCallerKind(kind: ScopeKind) {
    kind.FunctionScope? || kind.MethodScope? || kind.LambdaScope?
  }

  /** The innermost function, method or lambda scope around `scope`, or INVALID_ID. */
  function CallerScope(scopes: seq<Scope>, scope: nat): (s: nat)
    requires Ordered(scopes) && IsScope(scopes, scope)
    ensures IsScope(scopes, s)
    decreases if scope < |scopes| then scope + 1 else 0
  {
    if scope >= |scopes| then INVALID_ID
    else if IsCallerKind(scopes[scope].kind) then scope
    else CallerScope(scopes, scopes[scope].parent)
  }

  /** The caller's scope is the innermost function, method or lambda scope around; there is none exactly when no such scope encloses. */
  lemma {:induction false} CallerScopeIsInnermost(scopes: seq<Scope>, scope: nat)
    requires Ordered(scopes) && scope < |scopes|
    ensures var s := CallerScope(scopes, scope);
      && (s == INVALID_ID <==> forall t :: 0 <= t < |scopes| && Encloses(scopes, t, scope) ==> !IsCallerKind(scopes[t].kind))
      && (s != INVALID_ID ==>
            && s < |scopes| && Encloses(scopes, s, scope) && IsCallerKind(scopes[s].kind)
            && forall t :: s < t < |scopes| && Encloses(scopes, t, scope) ==> !IsCallerKind(scopes[t].kind))
    decreases scope
  {
    assert Encloses(scopes, scope, scope);
    var parent := scopes[scope].parent;
    forall t | 0 <= t < |scopes| && Encloses(scopes, t, scope)
      ensures t == scope || (t < scope && parent < scope && Encloses(scopes, t, parent))
    {
    }
    if parent < scope {
      CallerScopeIsInnermost(scopes, parent);
      forall t | 0 <= t < |scopes| && Encloses(scopes, t, parent) ensures t < scope && Encloses(scopes, t, scope) {
        EnclosesIsEarlier(scopes, t, parent);
      }
    }
  }

  function FirstAtFrom(symbols: seq<WorkspaceSymbol>, file: Text, nodeIndex: nat, k: nat): (r: Option<WorkspaceSymbol>)
    ensures r.Some? ==> r.value in symbols && r.value.sourceFile == file && r.value.symbol.nodeIndex == nodeIndex
    decreases |symbols| - k
  {
    if k >= |symbols| then None
    else if symbols[k].sourceFile == file && symbols[k].symbol.nodeIndex == nodeIndex then Some(symbols[k])
    else FirstAtFrom(symbols, file, nodeIndex, k + 1)
  }

  function StandsAt(file: Text, nodeIndex: nat): WorkspaceSymbol -> bool {
    (s: WorkspaceSymbol) => s.sourceFile == file && s.symbol.nodeIndex == nodeIndex
  }

  /** The search gives the first entry for that file and node. */
  lemma {:induction false} FirstAtIsFirst(symbols: seq<WorkspaceSymbol>, file: Text, nodeIndex: nat, k: nat)
    requires k <= |symbols| && forall j :: 0 <= j < k ==> !StandsAt(file, nodeIndex)(symbols[j])
    ensures IsFirst(symbols, StandsAt(file, nodeIndex), FirstAtFrom(symbols, file, nodeIndex, k))
    decreases |symbols| - k
  {
    if k < |symbols| && !StandsAt(file, nodeIndex)(symbols[k]) {
      FirstAtIsFirst(symbols, file, nodeIndex, k + 1);
    }
  }

  /** The symbol of the function around `scope`, when that function has one. */
  function EnclosingCaller(ws: LoadedWorkspace, u: TranslationUnit, scope: nat): Option<WorkspaceSymbol>
    requires UnitOk(u) && IsScope(u.scopes, scope)
  {
    var s := CallerScope(u.scopes, scope);
    if s == INVALID_ID then None else FirstAtFrom(ws.symbols, u.path, u.scopes[s].nodeIndex, 0)
  }

  /** `s` is the innermost function, method or lambda scope around `scope`. */
  ghost predicate InnermostCaller(scopes: seq<Scope>, scope: nat, s: nat) {
    && s < |scopes| && Encloses(scopes, s, scope) && scopes[s].kind in {FunctionScope, MethodScope, LambdaScope}
    && forall t :: s < t < |scopes| && Encloses(scopes, t, scope) ==> scopes[t].kind !in {FunctionScope, MethodScope, LambdaScope}
  }

  /** The caller is the first symbol of the node that opens the innermost function, method or lambda scope around, and
  there is none where no such scope encloses. */
  lemma CallerIsInnermost(ws: LoadedWorkspace, u: TranslationUnit, scope: nat)
    requires UnitOk(u) && IsScope(u.scopes, scope)
    ensures forall s: nat :: InnermostCaller(u.scopes, scope, s) ==>
      IsFirst(ws.symbols, StandsAt(u.path, u.scopes[s].nodeIndex), EnclosingCaller(ws, u, scope))
    ensures (forall s: nat :: !InnermostCaller(u.scopes, scope, s)) ==> EnclosingCaller(ws, u, scope) == None
  {
    if scope < |u.scopes| {
      CallerScopeIsInnermost(u.scopes, scope);
      var s := CallerScope(u.scopes, scope);
      if s != INVALID_ID {
        assert InnermostCaller(u.scopes, scope, s);
        FirstAtIsFirst(ws.symbols, u.path, u.scopes[s].nodeIndex, 0);
        forall t: nat | InnermostCaller(u.scopes, scope, t) ensures t == s {
          assert !(t < s) && !(s < t);
        }
      }
    }
  }

  method FindEnclosingCaller(ws: LoadedWorkspace, u: TranslationUnit, scopeId: nat) returns (r: Option<WorkspaceSymbol>)
    requires UnitOk(u) && IsScope(u.scopes, scopeId)
    ensures r == EnclosingCaller(ws, u, scopeId)
  {
    var current: nat := scopeId;
    while current != INVALID_ID
      invariant IsScope(u.scopes, current) && CallerScope(u.scopes, scopeId) == CallerScope(u.scopes, current)
      decreases if current < |u.scopes| then current + 1 else 0
    {
      var scope := u.scopes[current];
      if scope.kind.FunctionScope? || scope.kind.MethodScope? || scope.kind.LambdaScope? {
        for k := 0 to |ws.symbols|
          invariant FirstAtFrom(ws.symbols, u.path, scope.nodeIndex, 0) == FirstAtFrom(ws.symbols, u.path, scope.nodeIndex, k)
        {
          if ws.symbols[k].sourceFile == u.path && ws.symbols[k].symbol.nodeIndex == scope.nodeIndex {
            return Some(ws.symbols[k]);
          }
        }
        return None;
      }
      current := scope.parent;
    }
    r := None;
  }

  /** The node that opens the caller's scope is an ancestor of every node in scope `s`. */
  lemma {:induction false} CallerScopeIsAround(u: TranslationUnit, i: nat, s: nat)
    requires UnitOk(u) && i < |u.nodes| && s < |u.scopes|
    requires IsAncestor(u.nodes, u.scopes[s].nodeIndex, i)
    ensures CallerScope(u.scopes, s) != INVALID_ID ==>
      && IsAncestor(u.nodes, u.scopes[CallerScope(u.scopes, s)].nodeIndex, i)
      && IsCallerKind(u.scopes[CallerScope(u.scopes, s)].kind)
    decreases s
  {
    assert ScopeOpened(u, s);
    var parent := u.scopes[s].parent;
    if !IsCallerKind(u.scopes[s].kind) && parent < |u.scopes| {
      EnclosingNodeIsAround(u, u.scopes[s].nodeIndex, i);
      CallerScopeIsAround(u, i, parent);
    }
  }

  /** Ancestors of an ancestor are ancestors. */
  lemma {:induction false} AncestorsCompose(nodes: seq<Node>, a: nat, b: nat, i: nat)
    requires IsAncestor(nodes, a, b) && IsAncestor(nodes, b, i)
    ensures IsAncestor(nodes, a, i)
    decreases i
  {
    if b < i {
      AncestorsCompose(nodes, a, b, nodes[i].parent);
      AncestorBelow(nodes, a, nodes[i].parent);
    }
  }

  /** The scope of a node is opened by one of its ancestors or by itself. */
  lemma {:induction false} ScopeNodeIsAround(u: TranslationUnit, i: nat)
    requires UnitOk(u) && i < |u.nodes| && ScopeOf(u.nodes, i) < |u.scopes|
    ensures IsAncestor(u.nodes, u.scopes[ScopeOf(u.nodes, i)].nodeIndex, i)
    decreases i
  {
    var s := ScopeOf(u.nodes, i);
    assert ScopeOpened(u, s);
    if Introduces(u.nodes, i) {
      var n := u.scopes[s].nodeIndex;
      SameCountSameNode(u.nodes, n, i);
    } else {
      ScopeNodeIsAround(u, u.nodes[i].parent);
      AncestorBelow(u.nodes, u.scopes[s].nodeIndex, u.nodes[i].parent);
    }
  }

  lemma {:induction false} LaterScopesAreLarger(nodes: seq<Node>, a: nat, b: nat)
    requires a < b < |nodes| && Introduces(nodes, a) && Introduces(nodes, b)
    ensures ScopeOf(nodes, a) < ScopeOf(nodes, b)
  {
    ScopeCountMonotone(nodes, a + 1, b);
  }

  lemma {:induction false} SameCountSameNode(nodes: seq<Node>, a: nat, b: nat)
    requires a < |nodes| && b < |nodes| && Introduces(nodes, a) && Introduces(nodes, b)
    requires ScopeOf(nodes, a) == ScopeOf(nodes, b)
    ensures a == b
  {
    if a != b {
      LaterScopesAreLarger(nodes, if a < b then a else b, if a < b then b else a);
    }
  }

  lemma {:induction false} EnclosingNodeIsAround(u: TranslationUnit, n: nat, i: nat)
    requires UnitOk(u) && n < |u.nodes| && i < |u.nodes|
    requires IsAncestor(u.nodes, n, i) && Enclosing(u.nodes, n) < |u.scopes|
    ensures IsAncestor(u.nodes, u.scopes[Enclosing(u.nodes, n)].nodeIndex, i)
  {
    var p := u.nodes[n].parent;
    ScopeNodeIsAround(u, p);
    AncestorBelow(u.nodes, u.scopes[ScopeOf(u.nodes, p)].nodeIndex, p);
    AncestorsCompose(u.nodes, u.scopes[Enclosing(u.nodes, n)].nodeIndex, n, i);
  }

  /** Whoever is reported as the caller of a call is defined by a node that contains the call. */
  lemma {:induction false} CallerContainsCall(ws: LoadedWorkspace, u: TranslationUnit, i: nat)
    requires UnitOk(u) && i < |u.nodes|
    ensures EnclosingCaller(ws, u, ScopeOf(u.nodes, i)).Some? ==>
      var c := EnclosingCaller(ws, u, ScopeOf(u.nodes, i)).value;
      c in ws.symbols && c.sourceFile == u.path && c.symbol.nodeIndex < |u.nodes| && IsAncestor(u.nodes, c.symbol.nodeIndex, i)
  {
    var s := ScopeOf(u.nodes, i);
    assert u.nodeScope[i] == s;
    if s < |u.scopes| {
      ScopeNodeIsAround(u, i);
      CallerScopeIsAround(u, i, s);
      var c := CallerScope(u.scopes, s);
      if c != INVALID_ID {
        assert ScopeOpened(u, c);
      }
    }
  }
}
