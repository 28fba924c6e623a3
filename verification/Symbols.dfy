/** Declarations extracted from a file (include/ast-extractor.h) and lexical scopes (include/ast-scope.h). */
module Symbols {
  import opened Ast

  datatype SymbolKind =
    | Namespace | Class | Struct | Union | Enum | Function | Method | Constructor
    | Destructor | Variable | Field | EnumValue | Macro | Typedef | UsingAlias

  datatype Access = UnknownAccess | Public | Protected | Private

  datatype Symbol = Symbol(
    name: Text,
    fqn: Text,
    kind: SymbolKind,
    access: Access,
    isStatic: bool,
    isConstexpr: bool,
    isInline: bool,
    nodeIndex: nat,
    line: U32,
    column: U32)

  datatype ScopeKind =
    | GlobalScope | NamespaceScope | ModuleScope | ClassScope | StructScope | EnumScope | FunctionScope
    | MethodScope | LambdaScope | BlockScope | ConditionalScope | LoopScope | SwitchScope | UnknownScope

  datatype Scope = Scope(
    id: nat,
    kind: ScopeKind,
    nodeIndex: nat,
    startByte: U32,
    endByte: U32,
    parent: nat,
    children: seq<nat>,
    symbols: seq<nat>)
}
