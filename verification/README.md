# Verified model of ast-tool

ast-tool indexes source trees. It flattens Tree-sitter parse trees into arrays, builds lexical scopes over them, answers
symbol and call-graph queries, and caches ASTs in a binary format that a pool of threads fills. This project models that
core in Dafny and proves what its parts promise each other. Everything is proved for all inputs: all trees, all byte
strings, all workspaces, all interleavings of threads.

The modules, in the order in which they build on each other:

- **Flat trees.** `Ast` holds the node vector and the facts that everything else rests on: a subtree is one contiguous
  index interval, and intervals nest. `Traversal` walks a cursor over an arbitrary rose tree, backtracking included,
  remaps ids to positions, and lands on the recursive flat form. `TreeWalk` has the explicit-stack walks.
- **Scopes and symbols.** `ScopeTrees`, `ScopeBuilder`, `SymbolScope`, `Lookups` and `Visibility` build the scope tree,
  attach symbols, and answer lookups twice: by walking ancestors and by a precomputed table. The two agree.
  `ExtractorCommon` and `ExtractorPython` run the byte-range stack and show that it computes ancestors.
- **Relationship services.** `Units`, `Resolver`, `CallUtils`, `LocalTypes`, `MemberResolution`, `Callers`, `Callees` and
  `References` refine each service to a specification; `CallGraph` relates their answers to each other, and
  `SplitDefinitions` is a workspace in which they differ.
- **The cache format.** `Serial` proves the byte format exact and canonical; `SerialIo` is the reader and writer.
- **The cache and its pipeline.** `Queues` is the bounded queue with its condition variables. `Worlds` states what is
  assumed of the outside. `CacheWarm` is the work on one file and the writes. `WarmPipeline` is the transition system of
  scanner, workers, writer and main thread; `WarmProgress` shows that its runs end, `WarmStalls` when they get stuck.
  `Workspaces` is `get_translation_unit` with memory, database and parser; `WorkspaceUse` joins workspace, warming and
  services. `AnalyzePipeline` is the transition system of the eager analysis, `Analyze` what its runs leave once sorted.
  `Sequences`, `Sorting` and `Measures` hold what these share.
- **Semantic diff.** `SemanticDiff` compares two symbol tables.

Where the source works step by step, a method or a class does the same, and its contract ties it to a specification
function; the promises are lemmas about those functions, among them lemmas that say in other terms, from positions,
ancestors, counts or bytes, what such a function computes. `MAX_NODES` stands for the node count that fits into uint32, and
`INVALID_ID` for `size_t(-1)`.

**Assumptions about the outside** are the predicate `Worlds.Lawful`: Tree-sitter gives trees with distinct non-null node
ids, ranges inside the source and at most `MAX_NODES` nodes; sources are shorter than 2^63 bytes; the contents that one
path has over time do not collide under XXH64; and what LZ4 compressed it gives back. A file's content is a function of
path, size and modification time. `Worlds.UniformIsLawful` shows that the assumptions can be met. No other module assumes
anything; byte ranges that nest are a `requires` where they are needed, and `Traversal.FlatIsNested` derives them from
the parse tree.

Findings, each proved as stated:

- A valid AST of an empty source serialises to a non-empty string that never gives a valid AST back
  (src/ast-serial.cpp:203-211): `Serial.EmptySourceIsLost`. `Serial.RoundTrip` says exactly which ASTs come back.
- `declared_local_type` returns early on an ambiguity (src/ast-member-resolution.cpp:171-173). On declarations listed in
  another order that would be wrong (`LocalTypes.SettleDependsOnOrder`); it is exact because the walk meets
  declarations from the last to the first, which is from near to far (`LocalTypes.LaterIsNearer`, `LocalTypes.SitesDescend`).
- A site that Callers reports under a caller is missing from that caller's Callees when the search was led to another
  definition of the same name (src/ast-callees.cpp:60-71). `SplitDefinitions.SomeCallerIsMissed` shows it on a Go and a C
  file that both declare a function `m`; `CallGraph.CallersAreCallees` and `CallGraph.MissedByName` give the exact condition.
- Warming gets stuck exactly when a queue that nobody empties is too small: the file queue when no worker could open the
  database, the write queue when the writer could not (src/cache-warm.cpp:339-342, 372-375): `WarmStalls.StallsExactly`.
- A row can answer for a file that can be stat'ed but not opened, for which analysing gives nothing.
  `Workspaces.SomeFileDiffers` shows such a file, `Workspaces.MissIsAnalyzeOne` says exactly when a memory miss agrees with
  `analyze_one`, and `Workspaces.AnsweredUnopened` says from stamp, version and content when an unreadable file is answered.
- The test in `resolve_receiver_type` that drops a definition whose canonical name differs
  (src/ast-member-resolution.cpp:254-257) never fires, because all its candidates bear one name: `MemberResolution.PreferDefinition`.
- Leaving the declaration out of the references leaves out every reference on the declaration's line
  (src/ast-references.cpp:72-77): `CallGraph.DeclarationLineIsMissing`.

## Model

| member | source | states |
|---|---|---|
| `Ast.SubtreeIsInterval` | src/ast-tool.cpp:761-799 | in a well-formed node vector the nodes whose parent links lead to `a` are exactly the contiguous index interval from `a` to the end of its subtree |
| `Ast.SubtreesNest` | src/ast-tool.cpp:761-799 | the interval of a node inside a subtree ends inside that subtree |
| `Ast.ChildContaining` | src/ast-tool.cpp:655-658 | every proper descendant index falls into the interval of a child |
| `Ast.ParentInSubtree` | src/ast-tool.cpp:678-687 | a parent link leaves no subtree except from its root, and points to an earlier index |
| `Ast.AfterSubtree` | src/ast-tool.cpp:648-649 | with nested ranges, a node that follows the subtree of `a` starts at or after the last byte of `a` |
| `Ast.DescendantRange` | src/ast-tool.cpp:648-649 | with nested ranges, a descendant's byte range lies inside its ancestor's |
| `Ast.StartsMonotone` | src/ast-tool.cpp:648-649 | with nested ranges, start bytes never decrease along the vector |
| `Traversal.TreeCursor.GotoFirstChild` | src/ast-tool.cpp:772-774 | the zipper goes down exactly when the node has children |
| `Traversal.TreeCursor.GotoNextSibling` | src/ast-tool.cpp:777-779 | the zipper moves right exactly when a right sibling exists; else the node is a last child or the root |
| `Traversal.TreeCursor.GotoParent` | src/ast-tool.cpp:785-787 | the zipper goes up exactly when it is not at the root |
| `Traversal.Backtrack` | src/ast-tool.cpp:782-794 | climbing from a finished last child ends, and either stands before the next node of the pre-order or has listed the whole tree |
| `Traversal.AST.GetString` | src/ast-tool.cpp:699-707 | the text of a range is its slice of the source, empty when it starts at or past the end, wherever it then ends |
| `Traversal.AST.Add` | src/ast-tool.cpp:638-676 | one record with Tree-sitter ids is appended to nodes and ids, all fields as the node gives them |
| `Traversal.AST.Find` | src/ast-tool.cpp:709-717 | the first position of an id, or the invalid id |
| `Traversal.AST.RemapIds` | src/ast-tool.cpp:678-687 | every id, parent and child of every node is replaced by its position, and nothing else changes |
| `Traversal.AST.TraverseAllNodes` | src/ast-tool.cpp:761-799 | for every rose tree the cursor loop ends and appends exactly the recursive pre-order |
| `Traversal.Parse` | src/ast-tool.cpp:802-828 | parsing gives the flat form of the tree, which is well formed, and nested when the tree is |
| `Traversal.RemapGivesFlat` | src/ast-tool.cpp:678-687 | with distinct non-null ids, remapping the pre-order gives the independent recursive flat form: node i has id i, parents and children are positions |
| `Traversal.FlatIsWellFormed` | src/ast-tool.cpp:761-828 | the flat form of any tree has mutual parent and child links, children that follow each other, and subtrees that are intervals |
| `Traversal.FlatIsNested` | src/ast-tool.cpp:648-649 | nesting and order of byte ranges carry over from tree to vector |
| `Traversal.FlatTexts` | src/ast-tool.cpp:650 | every node's text is the slice that its byte range names |
| `Traversal.FlatIsTree` | src/ast-tool.cpp:638-676 | position i carries the types, hash, bytes, rows, columns and text of the i-th node in pre-order, one flag bit for each of its four properties, and its children are the positions of that node's children, in order |
| `TreeWalk.SearchSubtree` | src/ast-member-resolution.cpp:28-58 | the stack search finds a node exactly when some node of the subtree satisfies the test, whatever order it walks in |
| `TreeWalk.TilesStep` | src/ast-callees.cpp:25-37 | popping a node and pushing its children reversed keeps the stack a left-to-right tiling of the indices still to visit |
| `ScopeTrees.ScopeTree.Add` | src/ast-scope.cpp:27-43 | the new scope is last, has the next id, and is appended to its parent's child list |
| `ScopeTrees.ScopeTree.AddSymbol` | src/ast-scope.cpp:45-49 | one scope's symbol list grows by one entry, every other scope is unchanged |
| `ScopeTrees.ScopeTree.FindByNodeIndex` | src/ast-scope.cpp:68-76 | the first scope recorded for a node, or the invalid id |
| `ScopeTrees.ScopeTree.FindBySymbol` | src/ast-scope.cpp:78-88 | the first scope that lists a symbol, or the invalid id |
| `ScopeTrees.ScopeTree.ReserveSymbolMap` | src/ast-scope.cpp:90-93 | a map of the given size with every entry unset |
| `ScopeTrees.ScopeTree.SetScopeOfSymbol` | src/ast-scope.cpp:95-100 | sets the entry when it is in range and does nothing otherwise |
| `ScopeTrees.ScopeTree.ReserveNodeMap` | src/ast-scope.cpp:110-113 | a map of the given size with every entry unset |
| `ScopeTrees.ScopeTree.SetNodeScope` | src/ast-scope.cpp:115-120 | sets the entry when it is in range and does nothing otherwise |
| `ScopeBuilder.EnterNode` | src/ast-scope-builder.cpp:100-108 | one node's visit extends tree and node map by exactly that node |
| `ScopeBuilder.Dfs` | src/ast-scope-builder.cpp:98-115 | the recursive walk advances the built state from the node to the end of its subtree |
| `ScopeBuilder.BuildScopeTree` | src/ast-scope-builder.cpp:118-129 | scopes and node map of the whole tree, given by the nearest introducing ancestor |
| `ScopeBuilder.ScopesRecord` | src/ast-scope-builder.cpp:103-106 | every scope is recorded under a node that introduces it, with that node's range, kind and enclosing scope |
| `ScopeBuilder.ScopesFollowPreorder` | src/ast-scope-builder.cpp:98-115 | parents precede children and node indices strictly increase with scope ids |
| `ScopeBuilder.ChildListsInvertParents` | src/ast-scope.cpp:27-43 | a scope's child list holds, rising and once each, exactly the scopes whose parent it is |
| `ScopeBuilder.NodeScopeIsNearest` | src/ast-scope.cpp:122-128 | the scope of a node is that of its nearest introducing ancestor-or-self, and invalid exactly when there is none |
| `ScopeBuilder.FindByNodeIndexAgrees` | src/ast-scope.cpp:68-76 | the linear finder agrees with the node map on introducing nodes and finds nothing for the others |
| `SymbolScope.AssociateSymbols` | src/ast-symbol-scope.cpp:8-37 | every symbol is added to its owner's list and to the reverse map; the node map stays |
| `SymbolScope.SymbolListsExact` | src/ast-symbol-scope.cpp:8-37 | a symbol is in the list of its owner and in no other, and lists follow symbol order |
| `SymbolScope.ReverseMapAgrees` | src/ast-scope.cpp:78-108 | getScopeOfSymbol and findBySymbol agree for every index, in range or not |
| `SymbolScope.OwnerInTree` | src/ast-symbol-scope.cpp:8-37 | the owner is the nearest scope around the symbol's node, one level out when the node opens a scope that is not a root |
| `Lookups.LookupWalk` | src/ast-lookup.cpp:9-34 | the ancestor walk computes the matches of the first scope outward that has any |
| `Lookups.LookupIsInnermost` | src/ast-lookup.cpp:9-34 | a lookup is empty exactly when no enclosing scope has a match; else it is all matches of one enclosing scope, and every scope further in has none |
| `Visibility.ScopeVisibility.Compute` | src/ast-scope-visibility.cpp:11-45 | one entry per scope: the names of its parent overlaid by its own, and their values sorted |
| `Visibility.ScopeVisibility.ResolveIsLookup` | src/ast-scope-visibility.cpp:55-65 | the table resolves a name to the last element of the ancestor walk, and to nothing exactly when the walk finds nothing |
| `Visibility.ScopeVisibility.VisibleAreWinners` | src/ast-scope-visibility.cpp:47-53 | the visible list is strictly increasing and holds exactly the symbols that win their name |
| `ExtractorCommon.BuildFqn` | src/ast-extractor-common.cpp:27-40 | the non-empty frame names and the symbol's own name, joined by the separator |
| `ExtractorCommon.FqnFromOutside` | src/ast-extractor-common.cpp:27-40 | the qualified name read from outside: the outermost frame's name, the separator, and the name within; frames and names without a text leave nothing behind |
| `ExtractorCommon.InNamedClassScope` | src/ast-extractor-common.cpp:50-59 | true exactly when some frame is a named class, struct or union |
| `ExtractorCommon.InsideFunctionScope` | src/ast-extractor-common.cpp:61-71 | true exactly when some frame is a function, method, constructor or destructor |
| `ExtractorPython.GetDefName` | src/ast-extractor-python.cpp:16-25 | the first identifier child before the body, or nothing |
| `ExtractorPython.GetAssignmentName` | src/ast-extractor-python.cpp:29-39 | the name of a plain left side, or nothing |
| `ExtractorPython.PopClosed` | src/ast-extractor-python.cpp:60-62 | frames are popped from the top while they end by the given byte |
| `ExtractorPython.PoppedAtNode` | src/ast-extractor-python.cpp:60-62 | popping from the top removes every closed range, because open ranges nest |
| `ExtractorPython.StackIsAncestors` | src/ast-extractor-python.cpp:57-94 | after popping at a non-empty node the stack is its named class and function ancestors, outermost first, as found by parent links |
| `ExtractorPython.Emit` | src/ast-extractor-python.cpp:49-55 | a symbol is appended unless its fqn is empty or its (fqn, kind) was emitted before |
| `ExtractorPython.VisitDefinition` | src/ast-extractor-python.cpp:65-94 | a definition's symbol is the one its ancestors determine: dotted path, and method or constructor inside a class |
| `ExtractorPython.VisitAssignment` | src/ast-extractor-python.cpp:98-109 | an assignment declares a field or variable according to its ancestors, and nothing inside a function |
| `ExtractorPython.ExtractSymbolsPython` | src/ast-extractor-python.cpp:43-113 | the stack machine emits exactly what the reference form, stated by ancestors alone, declares |
| `ExtractorPython.DeclaredBySymbols` | src/ast-extractor-python.cpp:64-109 | every emitted symbol is the one that the node at its nodeIndex declares |
| `ExtractorPython.DeclaredInOrder` | src/ast-extractor-python.cpp:49-55 | emitted symbols have strictly increasing nodeIndex and pairwise different (fqn, kind) |
| `ExtractorPython.DeclaredCovers` | src/ast-extractor-python.cpp:49-55 | whatever a node declares has an emitted symbol of the same key, from that node or an earlier one |
| `ExtractorPython.FqnIsPath` | src/ast-extractor-python.cpp:64-109 | a declared name is that of the nearest named class or function definition around, a dot, and its own; it is its own where there is none |
| `ExtractorPython.KindByAncestors` | src/ast-extractor-python.cpp:64-109 | which nodes declare a class, function, method, constructor, field or variable, by their type, their name, and whether a named class or function is among their ancestors; where the symbol is placed |
| `ExtractorPython.DefNameIsFirst` | src/ast-extractor-python.cpp:16-25 | a definition's name is the text of its first child that is an identifier, and none when a body comes first or there is no such child |
| `ExtractorPython.AssignmentNameIsLeft` | src/ast-extractor-python.cpp:29-39 | an assignment's name is the text of the next node when that is its child and a plain identifier, and else none |
| `Units.AnalysedIsOk` | src/ast-workspace.cpp:187-216 | every analysed file meets all that the services rely on: ordered scopes, opened by nodes, with an agreeing reverse map |
| `Units.UnitFound` | src/ast-workspace.cpp:680-690 | a loaded unit is found under its own path |
| `Units.LiftKnowsItsScope` | src/ast-workspace.cpp:201-213 | a lifted symbol has the kind of the scope whose list holds it, and an unknown one when no list does |
| `Resolver.ToWorkspaceSymbol` | src/ast-resolver.cpp:49-64 | the symbol with its file and the kind of its owning scope, as the workspace's table lists it |
| `Resolver.ResolveGlobal` | src/ast-resolver.cpp:95-108 | none, one or several symbols of that name in the table give unresolved, resolved or ambiguous |
| `Resolver.ResolveName` | src/ast-resolver.cpp:75-93 | the innermost lexical matches if there are any, else the table's |
| `Resolver.ResolvedIsDeclared` | src/ast-resolver.cpp:66-93 | every candidate, resolved or ambiguous, is in the workspace's table under the name asked for |
| `Resolver.UnresolvedIsUndeclared` | src/ast-resolver.cpp:75-108 | a name stays unresolved exactly when no file of the workspace declares it |
| `Resolver.ResolvesInScope` | src/ast-resolver.cpp:66-93 | a name that enclosing scopes list is resolved exactly when one entry of the innermost such scope has it, and to that entry; several make it ambiguous, and are its candidates in list order |
| `Resolver.ResolvesInTable` | src/ast-resolver.cpp:75-108 | a name that no enclosing scope lists is resolved exactly when one position of the table has it, and to that symbol; several make it ambiguous, and are its candidates in table order |
| `Resolver.InnermostOrNowhere` | src/ast-lookup.cpp:9-34 | one of these two cases always holds |
| `CallUtils.FindCalleeIdentifier` | src/ast-call-utils.h:56-112 | the identifier naming the callee in the direct, member, qualified and template forms, or none |
| `CallUtils.CalleeInCallScope` | src/ast-call-utils.h:48-112 | a callee identifier is an identifier below the call and lies in the call's own scope, because no node in between opens one |
| `CallUtils.CalleeIsNamed` | src/ast-call-utils.h:56-112 | the identifier is the call's first child, the last identifier child of a member access or qualified name, or the first of a template or generic form, and there is none exactly when that child is of another kind, has no such child, or is missing; no other identifier is |
| `CallUtils.FindInWorkspace` | src/ast-call-utils.h:116-123 | the first table entry with the same declaration |
| `CallUtils.SameFound` | src/ast-call-utils.h:116-123 | the search succeeds exactly when the table has the declaration, and returns a table entry with it |
| `CallUtils.FirstSameIsFirst` | src/ast-call-utils.h:116-123 | no earlier table entry is for the declaration |
| `CallUtils.FindEnclosingCaller` | src/ast-call-utils.h:128-150 | the symbol of the innermost function, method or lambda scope around, if the table has it |
| `CallUtils.CallerContainsCall` | src/ast-call-utils.h:128-150 | the reported caller is in the table, in the call's file, and its node is an ancestor of the call |
| `CallUtils.CallerIsInnermost` | src/ast-call-utils.h:128-150 | the caller is the first table entry for the node of the innermost function, method or lambda scope that encloses the call; where none encloses there is no caller |
| `LocalTypes.FindEnclosingFunction` | src/ast-member-resolution.cpp:114-121 | the nearest function definition at or above the use |
| `LocalTypes.EnclosingFunctionIsNearest` | src/ast-member-resolution.cpp:114-121 | every function definition among the ancestors comes no later than the one found, and one is found when there is any |
| `LocalTypes.FindDeclaredTypeName` | src/ast-member-resolution.cpp:135-143 | the last type or qualified identifier among the declaration's children, or nothing |
| `LocalTypes.DeclaredTypeIsLast` | src/ast-member-resolution.cpp:135-143 | the text of the type child with none after it, and nothing when no child is one |
| `LocalTypes.MeasureDistance` | src/ast-member-resolution.cpp:160-167 | the number of scopes outward from use to declaration, none when the declaration's scope does not enclose the use |
| `LocalTypes.ReadClaim` | src/ast-member-resolution.cpp:132-168 | type and distance of a declaration that names the receiver visibly, else nothing |
| `LocalTypes.ClaimIsMade` | src/ast-member-resolution.cpp:132-168 | a declaration makes a claim exactly when it mentions the name and some number of steps outward leads from the use's scope to its own; the claim has the least such number and the declared type |
| `LocalTypes.DeclaredLocalType` | src/ast-member-resolution.cpp:109-183 | the stack walk with pruning and early return computes the fold over the earlier declarations |
| `LocalTypes.SitesExact` | src/ast-member-resolution.cpp:126-132 | the walk meets every reachable earlier declaration, so pruning at the use loses nothing |
| `LocalTypes.SitesDescend` | src/ast-member-resolution.cpp:126-181 | it meets them in strictly descending node order |
| `LocalTypes.LaterIsNearer` | src/ast-member-resolution.cpp:160-167 | of two visible declarations the later one is at least as near |
| `LocalTypes.SettleNearest` | src/ast-member-resolution.cpp:168-174 | on claims listed from near to far the early return is exact: the type all nearest claims agree on, else none |
| `LocalTypes.SettleDependsOnOrder` | src/ast-member-resolution.cpp:168-174 | three claims for which the early return gives different answers in different orders |
| `LocalTypes.LocalTypeIsNearest` | src/ast-member-resolution.cpp:109-183 | a receiver is found exactly when some earlier visible declaration names it; a type given is that of all nearest ones; none given means two nearest ones differ or one has no type |
| `MemberResolution.BuildExpectedNames` | src/ast-member-resolution.cpp:219-237 | a qualified type name alone; else the name under every enclosing qualifier of the caller, innermost first, then alone |
| `MemberResolution.QualifierIsLongest` | src/ast-member-resolution.cpp:219-237 | a name is cut at its last separator, and has no qualifier when it has no separator |
| `MemberResolution.InnermostFirst` | src/ast-member-resolution.cpp:223-236 | later names are strictly shorter, so the first that names a type has the longest qualifier |
| `MemberResolution.NamesUnderQualifiers` | src/ast-member-resolution.cpp:219-237 | the expected names are the bare one and the one under each qualifier met when the context is cut back at its last separator |
| `MemberResolution.ExpectedExactly` | src/ast-member-resolution.cpp:219-237 | a type name with a separator is expected alone; one without is expected alone and under every qualifier around the caller |
| `MemberResolution.PreferDefinition` | src/ast-member-resolution.cpp:249-265 | a sole candidate, or the sole candidate with a body, or none |
| `MemberResolution.ResolveReceiverType` | src/ast-member-resolution.cpp:214-266 | the loop over qualifiers computes the preferred type of the first name that names any |
| `MemberResolution.ReceiverTypeIsInnermost` | src/ast-member-resolution.cpp:214-266 | a receiver type bears the longest enclosing qualifier that names any type, and is the only such type or the only one with a body |
| `MemberResolution.ReceiverTypeExact` | src/ast-member-resolution.cpp:214-266 | a type is found exactly when the first expected name that names any has one table position, or several of which one has a body, and it is the type there |
| `MemberResolution.ResolveReceiverField` | src/ast-member-resolution.cpp:185-212 | the only field called receiver under the caller's own qualifier; nothing without a qualifier or with several |
| `MemberResolution.ReceiverFieldExact` | src/ast-member-resolution.cpp:185-212 | a field is found exactly when the caller's name has a qualifier and one table position holds a field of the receiver's name under it, and it is that field |
| `MemberResolution.DeclaredFieldType` | src/ast-member-resolution.cpp:87-101 | the type identifier that the field's declaration gives, or nothing |
| `MemberResolution.FieldTypeIsFirst` | src/ast-member-resolution.cpp:87-101 | the text of the type child with none before it, and nothing when no child is one |
| `MemberResolution.DeclaredMemberCount` | src/ast-member-resolution.cpp:60-85 | how many field declarations and function definitions of the type's body have a function declarator and mention the name |
| `MemberResolution.MemberCountExact` | src/ast-member-resolution.cpp:60-85 | the count is the number of nodes that stand in a member list of the type's node and declare the name |
| `MemberResolution.CollectSurvivors` | src/ast-member-resolution.cpp:324-341 | the callables called type::member, less plain functions when a proper callable bears the name |
| `MemberResolution.SurvivorsStand` | src/ast-member-resolution.cpp:324-341 | the survivors are, position by position, the callables of that name, a plain function only where no method, constructor or destructor bears it |
| `MemberResolution.SurvivorIsSole` | src/ast-member-resolution.cpp:324-343 | a single survivor is in the table, callable, called type::member, and no other proper callable is |
| `MemberResolution.ResolveFieldMemberCall` | src/ast-member-resolution.cpp:268-344 | the whole decision for one member call, failing closed at every step |
| `MemberResolution.ResolvedMemberCall` | src/ast-member-resolution.cpp:268-344 | a member call is never ambiguous; when it resolves there is a caller around, an identifier receiver beside the member whose declared type resolves from that caller, a body of that type declaring the member exactly once, and the target is the sole such callable |
| `MemberResolution.LocalsHideFields` | src/ast-member-resolution.cpp:288-306 | a local that declares the receiver gives its type, even none, and only without such a local does the caller's field give its own |
| `MemberResolution.MemberCallExact` | src/ast-member-resolution.cpp:268-344 | a member call resolves to a symbol exactly when it is an access under a call, the first other identifier beside the member is typed, the type declares the member once, and one table position stands for it and holds that symbol |
| `MemberResolution.ResolveRelationshipIdentifier` | src/ast-member-resolution.cpp:348-372 | member calls go by receiver type, all other uses by name |
| `MemberResolution.UseExact` | src/ast-member-resolution.cpp:348-372 | the member that a call names goes by its receiver's type, resolved or not; every other identifier with a text goes by its name, and one without is unresolved |
| `MemberResolution.ResolvedUseIsDeclared` | src/ast-member-resolution.cpp:348-372 | whatever a use resolves to is in the workspace's table |
| `Callers.ResolveCall` | src/ast-callers.cpp:26-38 | the declaration that a call's callee identifier resolves to in the call's scope, if any |
| `Callers.Find` | src/ast-callers.cpp:17-55 | the sites in unit order and then node order, one per call of the target |
| `Callers.CallersExact` | src/ast-callers.cpp:17-55 | a site is reported exactly when it is a call, in some unit, that resolves to the target's declaration |
| `Callers.CallersAreCalls` | src/ast-callers.cpp:17-55 | a site is reported exactly when it has the file, line and column of the identifier that names the callee of some call, that identifier resolves to a symbol of the target's name, kind, file and line, and its caller is the one around |
| `Callers.CallersInOrder` | src/ast-callers.cpp:17-55 | sites come unit by unit, and by rising node index within a unit, so none comes twice |
| `Callees.LocateBody` | src/ast-callees.cpp:48-73 | the caller's own node, or the first function definition of its fqn when that node is not one |
| `Callees.DefinitionIsNode` | src/ast-callees.cpp:61-70 | a symbol stands for a definition exactly when its node, in its own file's unit, is a function definition |
| `Callees.BodyIsOwn` | src/ast-callees.cpp:48-73 | a function definition is searched in place; any other caller at the definition of the first function of its name that has one, and in place when none has |
| `Callees.VisitCallExpressions` | src/ast-callees.cpp:17-38 | the stack walk visits exactly the subtree of its root, in increasing node order |
| `Callees.PushChildren` | src/ast-callees.cpp:31-36 | children are pushed so that the leftmost is on top |
| `Callees.Find` | src/ast-callees.cpp:43-126 | the resolvable calls below the located body, in node order |
| `Callees.CalleesExact` | src/ast-callees.cpp:43-126 | a site is reported exactly when it lies below the body's root and its call resolves to a listed declaration |
| `Callees.CalleesAreCalls` | src/ast-callees.cpp:75-126 | a site is reported exactly when it is placed at the identifier of some call below the root, that identifier resolves, and callee and caller are the first table entries for their declarations |
| `Callees.CalleesInOrder` | src/ast-callees.cpp:17-38 | sites come by rising node index, so none comes twice |
| `References.VisitNode` | src/ast-references.cpp:46-79 | an identifier that resolves to the target gives a result, unless it is on the declaration's line and that is left out |
| `References.Find` | src/ast-references.cpp:36-84 | the results in unit order and then node order |
| `References.ReferencesExact` | src/ast-references.cpp:36-84 | a result is reported exactly when its identifier, in some unit, resolves to the target's declaration and is not left out |
| `References.ReferencesAreUses` | src/ast-references.cpp:36-84 | a result is reported exactly when it has the place and owning scope of an identifier that resolves to a symbol of the target's name, kind, file and line, and that is not on the declaration's line when this is left out |
| `References.ReferencesInOrder` | src/ast-references.cpp:36-84 | results come unit by unit, and by rising node index within a unit, so none comes twice |
| `CallGraph.TargetIsListed` | src/ast-callees.cpp:106-111 | the declaration a call resolves to is found in the table again, so no resolved call is dropped |
| `CallGraph.CallersAreCallees` | src/ast-callers.cpp:21-52 | a site under a caller is among that caller's callees, with node, file, position and target, exactly when the searched subtree contains it; a caller that is a function definition always contains it |
| `CallGraph.MissedByName` | src/ast-callees.cpp:60-73 | a site is missed exactly when the caller is no function definition and the first definition of its name in the table does not contain the call |
| `CallGraph.InPlaceCovers` | src/ast-callees.cpp:60-73 | a caller searched at its own node is searched around every call reported under it |
| `CallGraph.CoveredIsCallee` | src/ast-callees.cpp:94-123 | the matching callee site names the same caller declaration too |
| `CallGraph.CalleesAreCallers` | src/ast-callees.cpp:94-123 | every callee site is among the callers of the function it calls |
| `CallGraph.CallersAreReferences` | src/ast-references.cpp:42-81 | every call of a target is a reference to it at the callee identifier, with the same file, line and column |
| `CallGraph.DeclarationLineIsMissing` | src/ast-references.cpp:72-77 | without the declaration exactly the references on its line are missing |
| `SplitDefinitions.BothLoaded` | src/ast-extractor-go.cpp:197-203 | a Go file whose function declaration calls itself and a C file that defines a function of that name are a loaded workspace |
| `SplitDefinitions.SecondIsFound` | src/ast-callees.cpp:60-71 | the search for a body passes over a declaration and ends at the definition of that name in the other file |
| `SplitDefinitions.SomeCallerIsMissed` | src/ast-callees.cpp:43-126 | in that workspace Callers reports the call under the Go function, and its callees do not contain it |
| `Serial.WordExact` | src/ast-serial.cpp:29-79 | the word read at a position is `v` exactly when the bytes there are those written for `v` |
| `Serial.DecodeEncoded` | src/ast-serial.cpp:104-115 | ids survive encoding, the invalid id included |
| `Serial.ReadNodeExact` | src/ast-serial.cpp:214-268 | a node is read at a position exactly when its own bytes stand there, and they end inside the data |
| `Serial.ReadNodesExact` | src/ast-serial.cpp:214-268 | a run of nodes is read exactly when all are storable and their bytes stand there in a row |
| `Serial.SerializedLength` | src/ast-serial.cpp:121-169 | the length is 32 + source + the sum of (48 + 4 * children) |
| `Serial.NodeLayout` | src/ast-serial.cpp:148-166 | at which offset of a node's record each of its fields stands, in how many bytes, low byte first; the invalid id is all ones |
| `Serial.Layout` | src/ast-serial.cpp:121-169 | the header's fields at their offsets, the source from byte 32 on, and the record of each node where the one before it ends |
| `Serial.DecodeExact` | src/ast-serial.cpp:173-288 | an AST with text comes out of a byte string exactly when the AST is storable and the string starts with its serialisation |
| `Serial.RoundTrip` | src/ast-serial.cpp:121-288 | an AST with text comes back from its bytes followed by any suffix, all fields, children and slices included, exactly when its source is non-empty, within the limits, and its spans fit |
| `Serial.EmptySourceIsLost` | src/ast-serial.cpp:203-211 | an empty source serialises to a non-empty string that gives no valid AST |
| `Serial.Canonical` | src/ast-serial.cpp:173-288 | serialising any accepted AST again gives exactly the bytes that were consumed, which lie inside the data |
| `Serial.PrefixRejected` | src/ast-serial.cpp:47-100 | every strict prefix of a serialised AST is rejected |
| `SerialIo.BinaryWriter.WriteU16` | src/ast-serial.cpp:24-27 | appends two bytes, low first |
| `SerialIo.BinaryWriter.WriteU32` | src/ast-serial.cpp:29-34 | appends four bytes, low first |
| `SerialIo.BinaryWriter.WriteU64` | src/ast-serial.cpp:36-39 | appends eight bytes, low word first |
| `SerialIo.BinaryWriter.WriteBytes` | src/ast-serial.cpp:41-44 | appends the bytes |
| `SerialIo.BinaryReader.ReadU16` | src/ast-serial.cpp:64-69 | succeeds exactly when two bytes are left, never passes the end, and records failure |
| `SerialIo.BinaryReader.ReadU32` | src/ast-serial.cpp:71-79 | succeeds exactly when four bytes are left, never passes the end, and records failure |
| `SerialIo.BinaryReader.ReadU64` | src/ast-serial.cpp:81-86 | succeeds exactly when eight bytes are left, never passes the end, and records failure |
| `SerialIo.BinaryReader.ReadBytes` | src/ast-serial.cpp:88-93 | succeeds exactly when so many bytes are left, never passes the end, and records failure |
| `SerialIo.WriteNode` | src/ast-serial.cpp:145-166 | appends the twelve fixed words and the children of a node |
| `SerialIo.Serialize` | src/ast-serial.cpp:121-169 | the writer produces the specified bytes, and none for an invalid AST |
| `SerialIo.ReadOneNode` | src/ast-serial.cpp:216-266 | reads one node field by field, or fails where the data end or the child count exceeds the node count |
| `SerialIo.ReadAllNodes` | src/ast-serial.cpp:214-268 | the loop reads the run of nodes that the specification reads |
| `SerialIo.Deserialize` | src/ast-serial.cpp:173-288 | the reader accepts, on every byte string, exactly what the specification accepts, with the same AST |
| `Queues.BlockingQueue.constructor` | include/ast-workspace.h:57-60 | an empty open queue with nobody waiting |
| `Queues.BlockingQueue.PushAttempt` | include/ast-workspace.h:62-72 | one critical section of push: sleep when full, drop when done, else append and wake one consumer |
| `Queues.BlockingQueue.PopAttempt` | include/ast-workspace.h:84-96 | one critical section of pop: sleep when empty, report closed, else take the front and wake one producer |
| `Queues.BlockingQueue.SetDone` | include/ast-workspace.h:76-79 | the done flag is set under the mutex, before anybody is woken |
| `Queues.BlockingQueue.NotifyAllNotEmpty` | include/ast-workspace.h:80 | every sleeping consumer is woken |
| `Queues.BlockingQueue.NotifyAllNotFull` | include/ast-workspace.h:81 | every sleeping producer is woken |
| `Queues.NextKeepsInv` | include/ast-workspace.h:46-97 | every event of any thread, spurious wakeups included, keeps capacity and the wakeup bound |
| `Queues.AlwaysInv` | include/ast-workspace.h:46-97 | so does every run, for any number of threads |
| `Queues.FreshFifo` | include/ast-workspace.h:46-97 | from a fresh queue, what was accepted is what was delivered followed by what is queued: first in first out, exactly once; and before done no wakeup is lost |
| `Queues.DeliveredIsTaken` | include/ast-workspace.h:84-96 | the deliveries of a run are what it took out, in order |
| `Queues.AcceptedIsHeld` | include/ast-workspace.h:62-72 | taken and queued items are those before the run followed by its acceptances |
| `Queues.SleepersAreServed` | include/ast-workspace.h:65-88 | while a consumer sleeps and an item waits, some woken consumer can run; likewise for producers and free slots |
| `Worlds.ParsedNodesStorable` | src/ast-serial.cpp:121-169 | every parsed AST has node ids, spans and child counts that the format can hold |
| `Worlds.ParsedRoundTrip` | src/ast-serial.cpp:121-288 | a parsed AST comes back from its bytes when non-empty and within the limits, and no valid AST does otherwise |
| `Worlds.EntryIsOk` | src/cache-warm.cpp:162-191 | the row made for a freshly parsed file is faithful and carries its stamp and the current version |
| `Worlds.EntryExact` | src/cache-warm.cpp:161-194 | the row has the content's hash, 0 for an empty source, its stamp, language, version and raw size, and the compressed bytes exactly when they are non-empty and fewer than the raw ones |
| `Worlds.FaithfulRow` | src/ast-workspace.cpp:714-732 | a faithful row unpacks to the parse of its content within the limits, and to no valid AST beyond them |
| `Worlds.BeyondLimits` | src/ast-serial.cpp:196-211 | bytes of an AST that the format cannot hold give no valid AST at all |
| `CacheWarm.PrepareEntry` | src/cache-warm.cpp:162-191 | a complete row with hash, stamp, version, and compression when it saves space; none when nothing was serialised |
| `CacheWarm.WarmOneFile` | src/cache-warm.cpp:212-271 | one file's request and counters are the decision on its old row: trust, refresh or renew |
| `CacheWarm.DecideFacts` | src/cache-warm.cpp:212-271 | each file counts once among valid, updated and failed, and a request is for the file itself |
| `CacheWarm.CountsExact` | src/cache-warm.cpp:217-271 | each counter from row and file: valid for a trusted row, updated and parsed for a readable file without one, failed for any other, missing where the row is absent or of another version, stale where it is current and not trusted |
| `CacheWarm.RequestExact` | src/cache-warm.cpp:217-271 | what is written, from row and file: nothing for a stamped row, the new stamp for one trusted by its hash, a complete new row for any other readable file |
| `CacheWarm.FlushBatch` | src/cache-warm.cpp:275-295 | the requests whose statements succeed are applied in order, and every request is counted as written or as failed |
| `CacheWarm.AllSucceed` | src/cache-warm.cpp:275-295 | where no statement fails the whole batch is applied |
| `CacheWarm.RemoveStale` | src/cache-warm.cpp:415-426 | exactly the rows whose path was not scanned are removed and counted, in whatever order paths are listed |
| `CacheWarm.AppliedElsewhere` | src/ast-cache-db.cpp:166-288 | requests touch no row but that of their own path |
| `WarmPipeline.FilesFollow` | src/cache-warm.cpp:369-405 | every step acts on the file queue only as an event of the queue's own transition system |
| `WarmPipeline.WritesFollow` | src/cache-warm.cpp:339-391 | likewise for the write queue |
| `WarmPipeline.GoodKept` | src/cache-warm.cpp:299-430 | every step of every thread keeps the pipeline's invariant |
| `WarmPipeline.RunsStayGood` | src/cache-warm.cpp:299-430 | so does every run |
| `WarmPipeline.FlowKept` | src/cache-warm.cpp:369-405 | every scanned path is with the scanner, queued, with exactly one worker, or settled, and never in two places |
| `WarmPipeline.RequestsKept` | src/cache-warm.cpp:339-363 | requests applied, batched and queued are, in order, those decided for the settled paths: none is dropped |
| `WarmPipeline.HeldRowIsOld` | src/cache-warm.cpp:212-271 | a worker decides on a row that no other thread has touched |
| `WarmPipeline.AllLeftSettlesAll` | src/cache-warm.cpp:407-411 | once all workers have left, one of them having worked, every scanned path is settled, even without the writer |
| `WarmPipeline.FinishedSettlesAll` | src/cache-warm.cpp:407-412 | at the end exactly the scanned paths are settled, once each, and all their requests applied |
| `WarmPipeline.FinishedIsWarmed` | src/cache-warm.cpp:212-428 | whatever the interleaving and the batches, the final row of a scanned path is a function of its old row and its file, and unscanned paths have none |
| `WarmPipeline.FinishedIsSequential` | src/cache-warm.cpp:212-428 | the final database is that of warming the files one after the other and then cleaning up |
| `WarmPipeline.FinishedCounts` | src/cache-warm.cpp:377-389 | every merged counter is the sum of the decisions on the scanned files |
| `WarmPipeline.EveryFileCountedOnce` | src/cache-warm.cpp:377-428 | valid + updated + failed is the number of files scanned |
| `WarmProgress.SomeStepIsPossible` | src/cache-warm.cpp:339-412 | with an open worker, and an open writer or nobody asleep on the write queue, every unfinished state that meets the invariant has a step that is not a spurious wakeup |
| `WarmProgress.ScannerIsServed` | src/cache-warm.cpp:395-405 | a scanner asleep on the full file queue has somebody to serve it |
| `WarmProgress.OffererIsServed` | src/cache-warm.cpp:238-268 | a worker asleep on the full write queue has somebody to serve it |
| `WarmProgress.ShutdownGoesOn` | src/cache-warm.cpp:407-426 | once the file queue is closed, workers, main thread, writer and cleanup go on to the end in that order |
| `WarmProgress.WorkFalls` | src/cache-warm.cpp:339-412 | the work left falls on every step that neither dozes off nor wakes spuriously |
| `WarmProgress.MeasureFalls` | src/cache-warm.cpp:339-412 | a natural measure falls on every step but spurious wakeups, each of which raises it by one |
| `WarmProgress.EveryRunEnds` | src/cache-warm.cpp:299-430 | a run is no longer than the start's measure and twice its spurious wakeups |
| `WarmProgress.EveryRunGoesOn` | src/cache-warm.cpp:299-430 | a run that has not finished can go on without a spurious wakeup |
| `WarmStalls.StallsExactly` | src/cache-warm.cpp:339-342 | some run gets stuck exactly when no worker opened the database and the files outnumber the places in their queue, or some did, the writer did not, and the requests outnumber the places in theirs |
| `WarmStalls.StalledNeverFinishes` | src/cache-warm.cpp:407-412 | and then no run finishes |
| `WarmStalls.OffersFit` | src/cache-warm.cpp:238-268 | without the writer, requests that all fit into the write queue always find a place there |
| `WarmStalls.QueuedAreAsked` | src/cache-warm.cpp:339-342 | without the writer, the write queue holds exactly the requests of the settled files, in order |
| `WarmStalls.NothingWarmed` | src/cache-warm.cpp:339-375 | without the writer, or without an open worker, a run that finishes has only removed the rows of unscanned paths |
| `WarmStalls.IdleGoesOn` | src/cache-warm.cpp:395-426 | without an open worker, files that fit into the queue let every thread go on to the end |
| `Workspaces.BuildUnit` | src/ast-workspace.cpp:194-196 | scope tree and symbol association of one file |
| `Workspaces.AnalyzeFromAst` | src/ast-workspace.cpp:187-216 | the unit and its lifted symbols, each with its file and owning scope |
| `Workspaces.UsableIsCurrent` | src/ast-workspace.cpp:690-713 | a usable faithful row holds the file's present content, and stays faithful when its stamp is refreshed |
| `Workspaces.AnswerIsParse` | src/ast-workspace.cpp:688-746 | a database answer is the parse of the present content; rows stay faithful through hit, refresh and eviction |
| `Workspaces.AnswersExactly` | src/ast-workspace.cpp:688-746 | the database answers exactly when the row is usable and the content is non-empty and within the format's limits |
| `Workspaces.UsableIsTrusted` | src/ast-workspace.cpp:690-713 | loading uses the rows that warming trusts, although the two are written apart |
| `Workspaces.AskedDatabase` | src/ast-workspace.cpp:688-747 | asking leaves every other row, restamps the row when the database answers, and removes it otherwise |
| `Workspaces.StoredIsOk` | src/ast-workspace.cpp:642-668 | storing a fresh parse keeps rows faithful |
| `Workspaces.DatabaseAfterMiss` | src/ast-workspace.cpp:680-764 | after a miss the path's row is restamped, or complete and made from the file as it is, or gone when the file cannot be read, and no other row has changed |
| `Workspaces.MissGivesParse` | src/ast-workspace.cpp:680-764 | on a memory miss the unit is the one that analysing the present content gives, whichever way it was obtained, and there is one exactly when the file opens or the database answers |
| `Workspaces.MissIsAnalyzeOne` | src/ast-workspace.cpp:680-764 | on a memory miss the unit is that of analyze_one exactly when the file opens or the database does not answer |
| `Workspaces.AnsweredUnopened` | src/ast-workspace.cpp:688-732 | the database answers for a file that does not open exactly when its row is present, of the current version and stamped like the file, and its content is non-empty and within the limits |
| `Workspaces.UnreadableIsAnswered` | src/ast-workspace.cpp:688-732 | every cached file within the limits that becomes unreadable is still loaded, where analysing it gives nothing |
| `Workspaces.SomeFileDiffers` | src/ast-workspace.cpp:688-764 | there are a workspace in its invariant and a file for which get_translation_unit and analyze_one differ |
| `Workspaces.FetchKeepsValid` | src/ast-workspace.cpp:680-764 | a call keeps the workspace invariant: symbols are the units' symbols in a row, the index is exact, the counters add up, rows are faithful |
| `Workspaces.FetchKeepsUnits` | src/ast-workspace.cpp:683-687 | a loaded unit keeps its content and its position |
| `Workspaces.FetchCounts` | src/ast-workspace.cpp:680-764 | parsed == units, misses == parsed + failed, and with a database open misses == persistent hits + persistent misses |
| `Workspaces.CountersMove` | src/ast-workspace.cpp:680-764 | each counter grows by one exactly in its own case: hits and misses by memory, persistent hits and misses by whether the database holds the file's content, parsed and failed by whether a unit comes of it |
| `Workspaces.EveryRunKeepsValid` | src/ast-workspace.cpp:680-764 | the invariant holds after any sequence of calls, while files come, go and change |
| `Workspaces.IndexFinds` | src/ast-workspace.cpp:670-671 | the index finds every unit under its path's key |
| `Workspaces.IndexHoldsOnly` | src/ast-workspace.cpp:670-671 | whatever the index holds is the position of the unit with that key |
| `Workspaces.DepsInStep` | src/ast-workspace.cpp:187-216 | each unit's dependencies stand at its position, with its path and the includes of its AST |
| `Workspaces.Workspace.constructor` | src/ast-workspace.cpp:604-634 | a freshly opened workspace: nothing loaded, all counters zero |
| `Workspaces.OpenedIsValid` | src/ast-workspace.cpp:604-634 | it meets the invariant when its database's rows are faithful |
| `Workspaces.Workspace.AskPersistentCache` | src/ast-workspace.cpp:689-747 | the nested cases evict, refresh or unpack a row as the specification says, with the same answer |
| `Workspaces.Workspace.CommitResult` | src/ast-workspace.cpp:638-678 | stores the row when a database is open, and appends unit, symbols, dependencies and index entry |
| `Workspaces.Workspace.GetTranslationUnit` | src/ast-workspace.cpp:680-764 | the whole new state is that of the specification, the invariant is kept, and the result is the unit now under the path |
| `Workspaces.Workspace.LoadMissing` | src/ast-workspace.cpp:686-764 | the same for a path that memory does not hold |
| `Workspaces.Workspace.AnalyzeOne` | src/ast-workspace.cpp:756-763 | parse and commit, or count a failure and change nothing else |
| `Workspaces.Workspace.MergeResultInto` | src/ast-workspace.cpp:265-279 | a result is appended with its symbols, dependencies and index entry, or counted as a failure |
| `Workspaces.Workspace.EnsureAllLoaded` | src/ast-workspace.cpp:766-771 | every scanned file is asked for once, in order |
| `WorkspaceUse.MemoryServesQueries` | src/ast-workspace.cpp:680-764 | a workspace in its invariant meets everything that the relationship services assume |
| `WorkspaceUse.EveryRunServesQueries` | src/ast-workspace.cpp:604-764 | from opening on, whatever is asked for and however files change, those assumptions hold |
| `WorkspaceUse.FoundIsInMemory` | src/ast-workspace.cpp:680-687 | the services find a file's unit exactly when the workspace has it in memory |
| `WorkspaceUse.ListedFilesAreInMemory` | src/ast-callees.cpp:61-65 | the file of every listed symbol is in memory, so asking for it while walking the table loads nothing and changes no table |
| `WorkspaceUse.HitKeepsAnswers` | src/ast-workspace.cpp:683-687 | asking for a file in memory changes no answer of the services |
| `WorkspaceUse.FindCallees` | src/ast-callees.cpp:43-126 | on a lazily loaded workspace the caller's file is loaded first, and the callees are those of the workspace then in memory |
| `WorkspaceUse.WarmConfigIsSound` | src/cache-warm.cpp:328-391 | warming real files meets the pipeline's assumptions |
| `WorkspaceUse.WarmedRowCases` | src/cache-warm.cpp:228-270 | warming keeps a row exactly when the workspace would use it, restamped; else it renews it, or leaves it when the file cannot be opened |
| `WorkspaceUse.WarmedRowIsFresh` | src/cache-warm.cpp:212-271 | warming keeps rows faithful and leaves a current stamp for every file that can be read |
| `WorkspaceUse.WarmingWarms` | src/cache-warm.cpp:299-430 | every finished run of warm_cache leaves the warmed database, each file counted once |
| `WorkspaceUse.WarmingCounts` | src/cache-warm.cpp:377-428 | the merged counters of a finished run are the numbers of scanned files that are kept, renewed, unreadable, without a current row, or with a stale one |
| `WorkspaceUse.WarmedDatabaseAnswers` | src/ast-workspace.cpp:688-746 | after warming, every readable non-empty file within the limits is a persistent hit with its own parse, and the database does not change |
| `AnalyzePipeline.FilesFollow` | src/ast-workspace.cpp:506-538 | every step acts on the queue only as an event of the queue's own transition system |
| `AnalyzePipeline.FlowKept` | src/ast-workspace.cpp:506-538 | every scanned path is with the scanner, queued, with exactly one worker, or merged |
| `AnalyzePipeline.ResultsKept` | src/ast-workspace.cpp:527-532 | what is merged is the analysis of its path, and the workspace is the results merged so far, in order |
| `AnalyzePipeline.GoodKept` | src/ast-workspace.cpp:485-602 | every step of every thread keeps the pipeline's invariant |
| `AnalyzePipeline.RunsStayGood` | src/ast-workspace.cpp:485-602 | so does every run |
| `AnalyzePipeline.FinishedMergesAll` | src/ast-workspace.cpp:540-541 | a finished run has merged every scanned path exactly as often as it was scanned, and nothing else |
| `AnalyzePipeline.ScannerIsServed` | src/ast-workspace.cpp:509-512 | a scanner asleep on the full queue has a worker to serve it |
| `AnalyzePipeline.SomeStepIsPossible` | src/ast-workspace.cpp:506-541 | every unfinished state that meets the invariant has a step that is not a spurious wakeup |
| `AnalyzePipeline.MeasureFalls` | src/ast-workspace.cpp:506-541 | a measure falls on every step but spurious wakeups, each of which raises it by one |
| `AnalyzePipeline.EveryRunEnds` | src/ast-workspace.cpp:485-602 | a run is no longer than the start's measure and twice its spurious wakeups |
| `AnalyzePipeline.EveryRunGoesOn` | src/ast-workspace.cpp:485-602 | a run that has not finished can go on without a spurious wakeup |
| `Analyze.MergedFields` | src/ast-workspace.cpp:265-279 | merging collects units, symbols and dependencies file by file, counts every file as parsed or failed, and touches no other field |
| `Analyze.MergedInStep` | src/ast-workspace.cpp:265-279 | the merged symbols and dependencies are those of the merged units, one unit after the other |
| `Analyze.SortWorkspace` | src/ast-workspace.cpp:310-337 | units, dependencies and symbols are sorted permutations of what they were, the index is rebuilt for them, and nothing else changes |
| `Analyze.SortedByPlace` | src/ast-workspace.cpp:310-329 | after sorting, units and dependencies come by path, and symbols by file, then line, then column |
| `Analyze.RebuildIndex` | src/ast-workspace.cpp:331-336 | the rebuilt index is the one that loading the sorted units would have built |
| `Analyze.OrderDoesNotMatter` | src/ast-workspace.cpp:265-337 | two orders of merging the same paths, repetitions included, give once sorted the same units, dependencies, index and counters, and the same symbols as a multiset |
| `Analyze.ScheduleDoesNotMatter` | src/ast-workspace.cpp:485-602 | every finished run, sorted, leaves the workspace that merging in scan order leaves, sorted, up to the order of symbols; parsed + failed is the number of files |
| `Analyze.RunsAgree` | src/ast-workspace.cpp:485-602 | any two finished runs over the same paths agree in this way, even with different numbers of workers and places |
| `Sorting.Sort` | src/ast-workspace.cpp:310-329 | a permutation in which nothing comes before a smaller item, for any strict order |
| `Sorting.SortedIsUnique` | src/ast-workspace.cpp:310-320 | two sortings of the same items are equal when the order tells all of them apart |
| `SemanticDiff.BuildIndex` | src/ast-semantic-diff.cpp:47-54 | every key maps to its symbols in table order, and there are no other keys |
| `SemanticDiff.DiffGroup` | src/ast-semantic-diff.cpp:85-105 | positional pairs that differ in a property, then what is left over on either side |
| `SemanticDiff.GroupDiffExact` | src/ast-semantic-diff.cpp:85-105 | an entry is in a group's list exactly when it is a change of that key, stated for single symbols by their rank |
| `SemanticDiff.Compare` | src/ast-semantic-diff.cpp:112-142 | for any order of map iteration the result holds every change exactly once and nothing else |
| `SemanticDiff.ReportedByCount` | src/ast-semantic-diff.cpp:56-142 | which entries are reported, by counting symbols of the same name and kind before one: left over on its side, or paired with an equally placed one that differs in access, static, constexpr or inline |
| `SemanticDiff.DiffIsAntisymmetric` | src/ast-semantic-diff.cpp:112-142 | comparing the other way round gives the swapped entries, as multisets, for any two iteration orders |
| `SemanticDiff.OneEntryPerSymbol` | src/ast-semantic-diff.cpp:85-142 | a symbol is in at most one entry of each side |
| `SemanticDiff.EmptyMeansSame` | src/ast-semantic-diff.cpp:71-142 | the result is empty exactly when every key has the same sequence of properties on both sides |
| `SemanticDiff.DiffConserves` | src/ast-semantic-diff.cpp:85-142 | per key, old count less removed plus added is the new count |

## Left out

- Tree-sitter, SQLite, LZ4, XXH64, XXH32, libgit2 and RE2: foreign code. The cursor is a zipper over a rose tree, the database a map from path to row, and the rest are functions of `Worlds.World` under the assumptions named above.
- Database errors in the pipeline: the statements of `WarmPipeline` succeed. `CacheWarm.FlushBatch` takes any of them to fail; what a failed write leaves stale is not followed further.
- File I/O, stat calls, directory scanning, ignore rules and lock files: the state of the files is a `Worlds.Disk`, scanned paths are given, and the file is stable during one call.
- Exceptions inside worker loops (src/cache-warm.cpp:383-385) and timing fields.
- Integer width of counters (uint32 in the source) is not modelled: no wrap-around after 2^32 files.
- Traversal.AST.Add: takes the node's hash as a field of the parse tree, because `AST::setHash` and its collision counter depend on XXH32.
- The deduplication key is the pair (fqn, kind) that its comment intends; the text key is not NUL-terminated (include/ast-tool.h:69-79).
- The extractors of the other languages, and `findChild`, `childHasText` and `topAccess`, which the Python extractor does not use.
- The table of node type names: types are ordinals.
- The id vector of a deserialised AST, which nothing reads after remapping.
- Analyze.ScheduleDoesNotMatter: speaks of symbols as a multiset, because the order of symbols with equal file, line and column after std::sort is unspecified; the order on paths must tell the scanned ones apart.
- Analyze.RunsAgree: as above.
- Paths are compared as texts. std::filesystem::path also equates spellings with doubled separators; spellings of one file have the same normal form, so loaded units never differ in that way alone.
- `std::sort` in place: any sorted permutation is allowed, and `Sorting.Sort`, an insertion sort, stands for it.
- Callees.LocateBody: answers from the workspace in memory, as do Callers and References; the command line loads every file first (src/cli-semantic.cpp:177-178).
- Callees.Find: likewise; `WorkspaceUse.FindCallees` loads the caller's file first, as the source does.
- `allFiles` of `analyze_workspace`, which is the scanned paths, sorted.
- The overload of `merge_result` with a match function (src/ast-workspace.cpp:281-303), and moving a workspace.
- Workspaces.Workspace.constructor: states the opened state only; `Workspaces.OpenedIsValid` shows that it meets the invariant.
- Mutexes, and the atomicity of one critical section, are taken as given; a notification and the section that follows are separate steps.
- The command line, JSON output, find and search filters, help and error rendering.
