/** Helpers shared by the extractors (src/ast-extractor-common.cpp). */
module ExtractorCommon {
  import opened Ast
  import opened Symbols

  datatype ScopeFrame = ScopeFrame(name: Text, kind: SymbolKind, endByte: U32, currentAccess: Access, isAccessAware: bool)

  /** `left` and `right` with a separator between them when both are non-empty. */
  function Joined(left: Text, sep: Text, right: Text): Text {
    if left == [] then right else if right == [] then left else left + sep + right
  }

  /** The non-empty names of the frames, outermost first, joined by `sep`. */
  function JoinNames(stack: seq<ScopeFrame>, sep: Text): Text {
    if stack == [] then []
    else Joined(JoinNames(stack[..|stack| - 1], sep), sep, stack[|stack| - 1].name)
  }

  /** The names of the frames and the symbol's own, joined by `sep`. */
  function Fqn(stack: seq<ScopeFrame>, sep: Text, symName: Text): Text {
    Joined(JoinNames(stack, sep), sep, symName)
  }

  /** Seen from outside: the outermost non-empty name stands first, the separator next, the rest after it. */
  lemma {:induction false} FqnFromOutside(f: ScopeFrame, stack: seq<ScopeFrame>, sep: Text, symName: Text)
    ensures Fqn([], sep, symName) == symName
    ensures Fqn([f] + stack, sep, symName)
         == if f.name == [] then Fqn(stack, sep, symName)
            else if Fqn(stack, sep, symName) == [] then f.name
            else f.name + sep + Fqn(stack, sep, symName)
  {
    NamesFromOutside(f, stack, sep);
    if f.name != [] && symName != [] && JoinNames(stack, sep) != [] {
      Regrouped(f.name, sep, JoinNames(stack, sep), sep, symName);
    }
  }

  lemma {:induction false} NamesFromOutside(f: ScopeFrame, stack: seq<ScopeFrame>, sep: Text)
    ensures JoinNames([f] + stack, sep)
         == if f.name == [] then JoinNames(stack, sep)
            else if JoinNames(stack, sep) == [] then f.name
            else f.name + sep + JoinNames(stack, sep)
    decreases |stack|
  {
    if stack == [] {
      assert [f] + stack == [f] && [f][..0] == [];
    } else {
      var rest, last := stack[..|stack| - 1], stack[|stack| - 1];
      assert ([f] + stack)[..|stack|] == [f] + rest;
      NamesFromOutside(f, rest, sep);
      if f.name != [] && last.name != [] && JoinNames(rest, sep) != [] {
        Regrouped(f.name, sep, JoinNames(rest, sep), sep, last.name);
      }
    }
  }

  lemma Regrouped(a: Text, b: Text, c: Text, d: Text, e: Text)
    ensures (a + b + c) + d + e == a + b + (c + d + e)
  {
  }

  predicate IsClassFrame(f: ScopeFrame) {
    (f.kind.Class? || f.kind.Struct? || f.kind.Union?) && f.name != []
  }

  predicate IsFunctionFrame(f: ScopeFrame) {
    f.kind.Function? || f.kind.Method? || f.kind.Constructor? || f.kind.Destructor?
  }

  /** Some enclosing frame is a named class, struct or union. */
  predicate HasClassFrame(stack: seq<ScopeFrame>) {
    exists f :: f in stack && IsClassFrame(f)
  }

  /** Some enclosing frame is a function or method. */
  predicate HasFunctionFrame(stack: seq<ScopeFrame>) {
    exists f :: f in stack && IsFunctionFrame(f)
  }

  method BuildFqn(stack: seq<ScopeFrame>, symName: Text, sep: Text) returns (fqn: Text)
    ensures fqn == Fqn(stack, sep, symName)
  {
    fqn := [];
    for k := 0 to |stack|
      invariant fqn == JoinNames(stack[..k], sep)
    {
      assert stack[..k + 1][..k] == stack[..k];
      if stack[k].name == [] {
        continue;
      }
      if fqn != [] {
        fqn := fqn + sep;
      }
      fqn := fqn + stack[k].name;
    }
    assert stack[..|stack|] == stack;
    if symName != [] {
      if fqn != [] {
        fqn := fqn + sep;
      }
      fqn := fqn + symName;
    }
  }

  method InNamedClassScope(stack: seq<ScopeFrame>) returns (inside: bool)
    ensures inside == HasClassFrame(stack)
  {
    for k := 0 to |stack|
      invariant forall f :: f in stack[..k] ==> !IsClassFrame(f)
    {
      if (stack[k].kind.Class? || stack[k].kind.Struct? || stack[k].kind.Union?) && stack[k].name != [] {
        assert stack[k] in stack && IsClassFrame(stack[k]);
        return true;
      }
    }
    inside := false;
  }

  method InsideFunctionScope(stack: seq<ScopeFrame>) returns (inside: bool)
    ensures inside == HasFunctionFrame(stack)
  {
    for k := 0 to |stack|
      invariant forall f :: f in stack[..k] ==> !IsFunctionFrame(f)
    {
      if stack[k].kind.Function? || stack[k].kind.Method? || stack[k].kind.Constructor? || stack[k].kind.Destructor? {
        assert stack[k] in stack && IsFunctionFrame(stack[k]);
        return true;
      }
    }
    inside := false;
  }

  /** The 0-based row becomes a 1-based line in 32 bits. */
  function MakeSymbol(name: Text, fqn: Text, kind: SymbolKind, access: Access, idx: nat, row: U32, col: U32): Symbol {
    Symbol(name, fqn, kind, access, false, false, false, idx, (row + 1) % 0x1_0000_0000, col)
  }
}
