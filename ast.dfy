/** The slice of the Jac abstract syntax tree that the symbol-table, def/use
    and link passes inspect.  Every node has an identity, the symbol name it
    declares (or the empty string), an optional parent link and a kind; the
    kind carries exactly the sub-nodes the passes' handlers look at. */
module Ast {
  import opened Common

  type NodeId = nat

  /** The `arch_type` token of an architype declaration. */
  datatype ArchType = Obj | Node | Edge | Walker | Class

  /** A symbol node as referenced from another node: its identity, its
      symbol name and the node that holds its name spec. */
  datatype SymRef = SymRef(node: NodeId, name: string, nameSpec: NodeId)

  /** What an assignment-like target is: an attribute chain (`AtomTrailer`,
      with its `as_attr_list`), some other symbol node, or another expression. */
  datatype TargetShape = AttrChain(attrs: seq<SymRef>) | SymbolNode | OtherExpr

  datatype Target = Target(ref: SymRef, shape: TargetShape)

  /** An item of an import statement: a module path or a module item. */
  datatype ImportItem = ImportItem(ref: SymRef, isModulePath: bool, subModule: Option<NodeId>)

  /** A segment of a module path: a `Name` or some other token. */
  datatype PathElem = NameElem(ref: SymRef) | OtherElem

  datatype Kind =
    | Module
    | Test
    | ModuleCode
    | GlobalVars
    | Import(isAbsorb: bool, isJac: bool, items: seq<ImportItem>, fromLoc: Option<string>)
    | ModulePath(pathAlias: Option<SymRef>, path: seq<PathElem>)
    | Architype(archType: ArchType)
    | ArchDef
    | Ability(isMethod: bool, ownerMethod: Option<NodeId>, body: Option<Tree>)
    | AbilityDef
    | Enum
    | EnumDef
      /** A statement or expression that opens a scope named `scopeName`
          (if/else/try/except/finally/while/with/iter-for/lambda/dict
          comprehension/match case/typed context block). */
    | Block(scopeName: string)
    | InForStmt(target: Target)
    | InnerCompr(target: Target)
    | Assignment(targets: seq<Target>)
    | ExprAsItem(asTarget: Option<Target>)
      /** `del` with its operand, and the operand's items when the operand
          is a tuple that has them. */
    | DeleteStmt(delTarget: Target, tupleValues: Option<seq<Target>>)
    | ParamVar
    | ArchHas
    | SubNodeList
    | HasVar
    | ArchRef
    | ArchRefChain(archs: seq<NodeId>)
    | AtomTrailer(chain: seq<NodeId>)
    | SpecialVarRef
      /** A float, int, string, bool or builtin-type token. */
    | Literal
    | Name
      /** A visit, ignore or disengage statement, or an edge-op reference. */
    | WalkerOnly
      /** Any other node the scope pass attaches to the current scope. */
    | Plain
      /** A node neither pass has a handler for. */
    | Unhandled

  datatype Tree = Tree(id: NodeId, name: string, parent: Option<NodeId>, kind: Kind, kids: seq<Tree>)

  /** The node kinds whose enter handler opens a new scope. */
  predicate Opens(k: Kind) {
    k.Module? || k.Test? || k.Architype? || k.ArchDef? || k.Ability? || k.AbilityDef?
    || k.Enum? || k.EnumDef? || k.Block? || k.InForStmt? || k.InnerCompr?
  }

  /** Every proper descendant of `t`, in pre-order. */
  function Descendants(t: Tree): (r: seq<Tree>)
    ensures forall i :: 0 <= i < |t.kids| ==> t.kids[i] in r
    decreases t, 1
  {
    DescendantsOf(t.kids)
  }

  function DescendantsOf(ts: seq<Tree>): (r: seq<Tree>)
    ensures forall i :: 0 <= i < |ts| ==> ts[i] in r
    decreases ts, 0
  {
    if ts == [] then []
    else [ts[0]] + Descendants(ts[0]) + DescendantsOf(ts[1..])
  }
}
