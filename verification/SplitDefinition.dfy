/** A call that Callers reports under its caller and Callees does not: two files declare a function of the same name.

The first file is a Go one that says `func m() { m() }`; there a function is a function declaration, which the extractor
lists as a function (src/ast-extractor-go.cpp:197-203). The second is a C file with a function definition of the same
name, which the search for the first one's body finds instead.
*/
module SplitDefinitions {
  import opened Ast
  import opened Options
  import opened NodeTypes
  import opened Symbols
  import opened ScopeTrees
  import opened ScopeBuilder
  import opened SymbolScope
  import opened Lookups
  import opened Units
  import opened Resolver
  import opened CallUtils
  import opened MemberResolution
  import opened Callers
  import opened Callees
  import opened CallGraph

  const M: Text := [109]
  const GO_PATH: Text := [97]
  const C_PATH: Text := [98]

  function NodeAt(id: nat, parent: nat, nodeType: U16, text: Text, children: seq<nat>): Node {
    Node(id, parent, 0, 1, nodeType, nodeType, text, 0, 0, Point(0, 0), Point(0, 0), children)
  }

  function GoNodes(): seq<Node> {
    [NodeAt(0, INVALID_ID, SOURCE_FILE, [], [1]),
     NodeAt(1, 0, FUNCTION_DECLARATION, [], [2, 3]),
     NodeAt(2, 1, IDENTIFIER, M, []),
     NodeAt(3, 1, BLOCK, [], [4]),
     NodeAt(4, 3, CALL_EXPRESSION, [], [5]),
     NodeAt(5, 4, IDENTIFIER, M, [])]
  }

  function CNodes(): seq<Node> {
    [NodeAt(0, INVALID_ID, TRANSLATION_UNIT, [], [1]), NodeAt(1, 0, FUNCTION_DEFINITION, [], [])]
  }

  function Declared(): Symbol {
    Symbol(M, M, Function, UnknownAccess, false, false, false, 1, 1, 0)
  }

  function GoUnit(): TranslationUnit {
    UnitOf(GoNodes(), [Declared()], GO_PATH)
  }

  function CUnit(): TranslationUnit {
    UnitOf(CNodes(), [Declared()], C_PATH)
  }

  /** The workspace of two files that declare one symbol each. */
  function Pair(a: TranslationUnit, b: TranslationUnit): LoadedWorkspace
    requires |a.symbols| == 1 && |b.symbols| == 1
  {
    LoadedWorkspace([a, b], [Lift(a, 0), Lift(b, 0)], path => path)
  }

  function Both(): LoadedWorkspace {
    Pair(GoUnit(), CUnit())
  }

  lemma GoNodesWellFormed()
    ensures WellFormed(GoNodes())
  {
    var n := GoNodes();
    assert End(n, 5) == 6 && End(n, 4) == 6 && End(n, 3) == 6 && End(n, 2) == 3 && End(n, 1) == 6 && End(n, 0) == 6;
    forall i | 0 <= i < 6 ensures Linked(n, i) {
    }
    assert 1 in n[0].children && 2 in n[1].children && 3 in n[1].children && 4 in n[3].children && 5 in n[4].children;
  }

  lemma CNodesWellFormed()
    ensures WellFormed(CNodes())
  {
    var n := CNodes();
    assert End(n, 1) == 2 && End(n, 0) == 2;
    assert 1 in n[0].children;
  }

  lemma PairLoaded(a: TranslationUnit, b: TranslationUnit)
    requires UnitOk(a) && UnitOk(b) && |a.symbols| == 1 && |b.symbols| == 1 && a.path != b.path
    ensures Loaded(Pair(a, b))
  {
    var ws := Pair(a, b);
    assert ws.units[0] == a && ws.units[1] == b;
    forall s ensures s in ws.symbols <==> Declares(ws, s) {
      if s == Lift(a, 0) {
        assert s == Lift(ws.units[0], 0);
      }
      if s == Lift(b, 0) {
        assert s == Lift(ws.units[1], 0);
      }
    }
  }

  lemma BothLoaded()
    ensures UnitOk(GoUnit()) && UnitOk(CUnit()) && GoUnit().path != CUnit().path && Loaded(Both())
  {
    GoNodesWellFormed();
    CNodesWellFormed();
    AnalysedIsOk(GoUnit());
    AnalysedIsOk(CUnit());
    PairLoaded(GoUnit(), CUnit());
  }

  /** Three scopes: the file, the function, its block. The call stands in the last. */
  lemma GoScopes()
    ensures var n := GoNodes();
      && ScopeCount(n, 6) == 3 && ScopeOf(n, 0) == 0 && ScopeOf(n, 1) == 1 && Enclosing(n, 1) == 0
      && ScopeOf(n, 3) == 2 && Enclosing(n, 3) == 1 && ScopeOf(n, 4) == 2
  {
    var n := GoNodes();
    assert Introduces(n, 0) && Introduces(n, 1) && !Introduces(n, 2) && Introduces(n, 3) && !Introduces(n, 4) && !Introduces(n, 5);
    assert ScopeCount(n, 1) == 1;
    assert ScopeCount(n, 2) == 2;
    assert ScopeCount(n, 3) == 2;
    assert ScopeCount(n, 4) == 3;
    assert ScopeCount(n, 5) == 3;
  }

  /** A scope is opened by the node that its id counts up to. */
  lemma {:induction false} OpenedBy(u: TranslationUnit, s: nat, n: nat)
    requires UnitOk(u) && s < |u.scopes| && n < |u.nodes| && Introduces(u.nodes, n) && ScopeOf(u.nodes, n) == s
    ensures u.scopes[s].nodeIndex == n && u.scopes[s].kind == ClassifyNode(u.nodes[n].nodeType)
    ensures u.scopes[s].parent == Enclosing(u.nodes, n)
  {
    assert ScopeOpened(u, s);
    SameCountSameNode(u.nodes, u.scopes[s].nodeIndex, n);
  }

  /** The function's symbol is listed in the scope of the file and in no other. */
  lemma GoSymbols()
    ensures UnitOk(GoUnit()) && |GoUnit().scopes| == 3
    ensures GoUnit().scopes[0].symbols == [0] && GoUnit().scopes[1].symbols == [] && GoUnit().scopes[2].symbols == []
  {
    var n := GoNodes();
    GoNodesWellFormed();
    AnalysedIsOk(GoUnit());
    GoScopes();
    var scopes, nodeScope := ScopesUpTo(n, |n|), NodeScopesUpTo(n, |n|);
    BuiltConsistently(n);
    OwnerInTree(n, Declared());
    AssociateStep(scopes, nodeScope, [Declared()], 0);
    assert scopes[0].symbols == [] && scopes[1].symbols == [] && scopes[2].symbols == [];
    assert [] + [0] == [0];
  }

  /** A function with a call of its own name in its block: node 1 declares it, node 4 is the call, node 5 names it. */
  ghost predicate CallsItself(u: TranslationUnit) {
    && UnitOk(u) && |u.nodes| == 6 && |u.scopes| == 3 && u.symbols == [Declared()]
    && u.nodes[4].nodeType == CALL_EXPRESSION && u.nodes[4].children == [5] && ScopeOf(u.nodes, 4) == 2
    && u.nodes[5].nodeType == IDENTIFIER && u.nodes[5].text == M && u.nodes[5].parent == 4
    && u.scopes[0].symbols == [0] && u.scopes[1].symbols == [] && u.scopes[2].symbols == []
    && u.scopes[2].parent == 1 && u.scopes[1].parent == 0
    && u.scopes[2].kind.BlockScope? && u.scopes[1].kind.FunctionScope? && u.scopes[1].nodeIndex == 1
  }

  lemma GoCallsItself()
    ensures CallsItself(GoUnit())
  {
    GoScopes();
    GoSymbols();
    OpenedBy(GoUnit(), 1, 1);
    OpenedBy(GoUnit(), 2, 3);
  }

  lemma SingleMatch(list: seq<nat>, name: Text, symbols: seq<Symbol>)
    requires |list| == 1 && list[0] < |symbols| && symbols[list[0]].name == name
    ensures MatchesIn(list, name, symbols) == list
  {
    var rest := list[..0];
    assert rest == [] && MatchesIn(rest, name, symbols) == [];
    assert [] + [list[0]] == list;
  }

  lemma {:induction false} LookFurther(name: Text, s: nat, scopes: seq<Scope>, symbols: seq<Symbol>)
    requires Ordered(scopes) && s < |scopes| && scopes[s].symbols == []
    ensures IsScope(scopes, scopes[s].parent) && Lookup(name, s, scopes, symbols) == Lookup(name, scopes[s].parent, scopes, symbols)
  {
  }

  lemma ItselfFound(u: TranslationUnit)
    requires CallsItself(u)
    ensures Lookup(M, 2, u.scopes, u.symbols) == [0]
  {
    LookFurther(M, 2, u.scopes, u.symbols);
    LookFurther(M, 1, u.scopes, u.symbols);
    SingleMatch(u.scopes[0].symbols, M, u.symbols);
  }

  /** The call resolves to the function that contains it ... */
  lemma TargetIsItself(ws: LoadedWorkspace, u: TranslationUnit)
    requires Loaded(ws) && CallsItself(u)
    ensures CallTarget(ws, u, 4) == Some(Lift(u, 0))
  {
    ItselfFound(u);
    assert Lifted(u, [0]) == [Lift(u, 0)];
    assert CalleeIdentifier(u.nodes, 4) == 5;
    assert CalledAccess(u.nodes, 5) == INVALID_ID;
  }

  /** ... which is also its caller. */
  lemma CallerIsItself(ws: LoadedWorkspace, u: TranslationUnit)
    requires CallsItself(u) && ws.symbols != [] && ws.symbols[0] == Lift(u, 0)
    ensures EnclosingCaller(ws, u, 2) == Some(Lift(u, 0))
  {
    assert CallerScope(u.scopes, 2) == 1;
  }

  /** The search for a body passes over a declaration and ends at the definition of that name. */
  lemma SecondIsFound(a: TranslationUnit, b: TranslationUnit)
    requires |a.nodes| > 1 && |b.nodes| > 1 && a.symbols == [Declared()] && b.symbols == [Declared()]
    requires Loaded(Pair(a, b))
    requires a.nodes[1].nodeType != FUNCTION_DEFINITION && b.nodes[1].nodeType == FUNCTION_DEFINITION
    ensures BodyOf(Pair(a, b), Lift(a, 0)) == Some(Body(b, 1))
  {
    var ws := Pair(a, b);
    UnitFound(ws, 0);
    UnitFound(ws, 1);
    assert ws.symbols[0] == Lift(a, 0) && ws.symbols[1] == Lift(b, 0);
    assert DefinitionFrom(ws, M, 1) == Some(Body(b, 1));
    assert DefinitionFrom(ws, M, 0) == Some(Body(b, 1));
  }

  lemma MissedSite(a: TranslationUnit, b: TranslationUnit) returns (s: CallSite)
    requires CallsItself(a) && |b.symbols| == 1 && Loaded(Pair(a, b))
    ensures IsSiteIn(Pair(a, b), Lift(a, 0), s, 0) && s.caller == Some(Lift(a, 0)) && s.nodeIndex == 4
  {
    var ws := Pair(a, b);
    TargetIsItself(ws, a);
    CallerIsItself(ws, a);
    assert ws.units[0] == a;
    s := CallerSite(ws, a, 4, Lift(a, 0)).value;
  }

  /** Callers reports the call under the Go function, whose callees do not contain it. */
  lemma SomeCallerIsMissed()
    ensures Loaded(Both())
    ensures exists target, s ::
      s in CallersOf(Both(), target) && s.caller.Some? && !HasCallee(Both(), s.caller.value, s)
  {
    var a, b := GoUnit(), CUnit();
    BothLoaded();
    GoCallsItself();
    var s := MissedSite(a, b);
    SecondIsFound(a, b);
    MissedThere(a, b, s);
  }

  lemma MissedThere(a: TranslationUnit, b: TranslationUnit, s: CallSite)
    requires |a.symbols| == 1 && |b.symbols| == 1 && a.path != b.path && Loaded(Pair(a, b))
    requires IsSiteIn(Pair(a, b), Lift(a, 0), s, 0) && s.caller == Some(Lift(a, 0))
    requires BodyOf(Pair(a, b), Lift(a, 0)) == Some(Body(b, 1))
    ensures s in CallersOf(Pair(a, b), Lift(a, 0)) && !HasCallee(Pair(a, b), Lift(a, 0), s)
  {
    var ws := Pair(a, b);
    CallersExact(ws, Lift(a, 0), s);
    CallersAreCallees(ws, Lift(a, 0), s, 0);
    assert ws.units[0] == a;
  }
}
