/** The symbol-table build pass: an explicit stack of open scopes, pushed by
    every scope-introducing node on entry and popped on exit, with each node
    attached to the innermost open scope and declarations inserted for
    globals, imports, architypes, abilities, enums and test helpers. */
module SymTabBuild {
  import opened Common
  import opened Ast
  import opened SymTable

  /** The `assert*` method names of a unittest test case, which a test
      block sees as declared names. */
  const AssertNames: seq<string> := [
    "assertAlmostEqual", "assertCountEqual", "assertDictEqual", "assertEqual",
    "assertFalse", "assertGreater", "assertGreaterEqual", "assertIn", "assertIs",
    "assertIsInstance", "assertIsNone", "assertIsNot", "assertIsNotNone",
    "assertLess", "assertLessEqual", "assertListEqual", "assertLogs",
    "assertMultiLineEqual", "assertNoLogs", "assertNotAlmostEqual",
    "assertNotEqual", "assertNotIn", "assertNotIsInstance", "assertNotRegex",
    "assertRaises", "assertRaisesRegex", "assertRegex", "assertSequenceEqual",
    "assertSetEqual", "assertTrue", "assertTupleEqual", "assertWarns",
    "assertWarnsRegex"]

  const GlobalVarIce := "Expected name type for globabl vars"

  /** The scopes a map from nodes to scopes points at all exist. */
  ghost predicate InRange(ns: map<NodeId, nat>, ts: seq<Table>) {
    forall n :: n in ns ==> ns[n] < |ts|
  }

  /** Insert one declaration for `ref` into the scope `ref` is attached to;
      `None` when it is attached to none (the source fails there). */
  function InsertAt(ts: seq<Table>, ns: map<NodeId, nat>, ref: SymRef,
                    access: Option<NodeId>, single: Option<string>): (r: Option<seq<Table>>)
    requires InRange(ns, ts)
    ensures r.Some? <==> ref.node in ns
    ensures r.Some? ==> SameShape(ts, r.value) && InRange(ns, r.value)
    ensures r.Some? ==> Declarations(r.value, ns[ref.node], ref.name)
                        == Declarations(ts, ns[ref.node], ref.name) + [Decl(ref.node, access, single)]
    ensures r.Some? && WellLinked(ts) ==> WellLinked(r.value)
  {
    if ref.node in ns then Some(DefInsert(ts, ns[ref.node], ref.name, Decl(ref.node, access, single)))
    else None
  }

  /** Insert a declaration for every reference, left to right. */
  function InsertAll(ts: seq<Table>, ns: map<NodeId, nat>, refs: seq<SymRef>,
                     access: Option<NodeId>, single: Option<string>): (r: Option<seq<Table>>)
    requires InRange(ns, ts)
    ensures r.Some? ==> SameShape(ts, r.value) && InRange(ns, r.value)
    ensures r.Some? && WellLinked(ts) ==> WellLinked(r.value)
    decreases |refs|
  {
    if refs == [] then Some(ts)
    else
      match InsertAt(ts, ns, refs[0], access, single)
      case None => None
      case Some(ts1) => InsertAll(ts1, ns, refs[1..], access, single)
  }

  /** The insertions succeed exactly when every reference is attached to
      some scope. */
  lemma {:induction false} InsertAllDefined(ts: seq<Table>, ns: map<NodeId, nat>, refs: seq<SymRef>,
                                            access: Option<NodeId>, single: Option<string>)
    requires InRange(ns, ts)
    ensures InsertAll(ts, ns, refs, access, single).Some? <==> forall i :: 0 <= i < |refs| ==> refs[i].node in ns
    decreases |refs|
  {
    if refs != [] && refs[0].node in ns {
      var ts1 := InsertAt(ts, ns, refs[0], access, single).value;
      InsertAllDefined(ts1, ns, refs[1..], access, single);
      assert forall i :: 1 <= i < |refs| ==> refs[i] == refs[1..][i - 1];
    }
  }

  lemma InsertAllCons(ts: seq<Table>, ns: map<NodeId, nat>, ref: SymRef, rest: seq<SymRef>,
                      access: Option<NodeId>, single: Option<string>)
    requires InRange(ns, ts)
    ensures InsertAll(ts, ns, [ref] + rest, access, single)
            == if ref.node in ns
               then InsertAll(DefInsert(ts, ns[ref.node], ref.name, Decl(ref.node, access, single)), ns, rest, access, single)
               else None
  {
    assert ([ref] + rest)[0] == ref && ([ref] + rest)[1..] == rest;
  }

  /** Inserting never removes a declaration: every scope's list under every
      name only grows at its end. */
  lemma {:induction false} InsertAllGrows(ts: seq<Table>, ns: map<NodeId, nat>, refs: seq<SymRef>,
                                          access: Option<NodeId>, single: Option<string>,
                                          s: nat, name: string)
    requires InRange(ns, ts) && s < |ts|
    requires InsertAll(ts, ns, refs, access, single).Some?
    ensures Declarations(ts, s, name) <= Declarations(InsertAll(ts, ns, refs, access, single).value, s, name)
    decreases |refs|
  {
    if refs != [] {
      var ts1 := InsertAt(ts, ns, refs[0], access, single).value;
      InsertAllGrows(ts1, ns, refs[1..], access, single, s, name);
      assert Declarations(ts, s, name) <= Declarations(ts1, s, name) by {
        if s != ns[refs[0].node] {
          assert ts1[s] == ts[s];
        } else if name != refs[0].name {
        }
      }
    }
  }

  /** After inserting, every reference is declared in its own scope under
      its own name, with the given access spec and label. */
  lemma {:induction false} InsertAllDeclares(ts: seq<Table>, ns: map<NodeId, nat>, refs: seq<SymRef>,
                                             access: Option<NodeId>, single: Option<string>, i: nat)
    requires InRange(ns, ts) && i < |refs| && refs[i].node in ns
    requires InsertAll(ts, ns, refs, access, single).Some?
    ensures Decl(refs[i].node, access, single)
            in Declarations(InsertAll(ts, ns, refs, access, single).value, ns[refs[i].node], refs[i].name)
    decreases |refs|
  {
    var ts1 := InsertAt(ts, ns, refs[0], access, single).value;
    if i == 0 {
      InsertAllGrows(ts1, ns, refs[1..], access, single, ns[refs[0].node], refs[0].name);
      var d := Decl(refs[0].node, access, single);
      assert d in Declarations(ts1, ns[refs[0].node], refs[0].name);
    } else {
      InsertAllDeclares(ts1, ns, refs[1..], access, single, i - 1);
    }
  }

  /** A generated stub for every name, each under that name, in scope `s`. */
  function InsertStubs(ts: seq<Table>, s: nat, names: seq<string>, origin: NodeId): (r: seq<Table>)
    requires s < |ts|
    ensures SameShape(ts, r)
    ensures WellLinked(ts) ==> WellLinked(r)
    ensures forall i :: 0 <= i < |ts| && i != s ==> r[i] == ts[i]
    decreases |names|
  {
    if names == [] then ts
    else InsertStubs(DefInsert(ts, s, names[0], Stub(origin, Some(origin))), s, names[1..], origin)
  }

  /** Inserting stubs for `names` adds, under each name, one stub per
      occurrence of that name, and nothing under any other name. */
  lemma {:induction false} InsertStubsExact(ts: seq<Table>, s: nat, names: seq<string>, origin: NodeId, name: string)
    requires s < |ts|
    ensures Declarations(InsertStubs(ts, s, names, origin), s, name)
            == Declarations(ts, s, name) + Repeat(Stub(origin, Some(origin)), Count(names, name))
    decreases |names|
  {
    if names != [] {
      var ts1 := DefInsert(ts, s, names[0], Stub(origin, Some(origin)));
      InsertStubsExact(ts1, s, names[1..], origin, name);
      var d := Stub(origin, Some(origin));
      if name == names[0] {
        assert Repeat(d, Count(names, name)) == [d] + Repeat(d, Count(names[1..], name));
      }
    }
  }

  /** The scope stack is in range and each entry is a child of the one
      below it; every attachment points at an existing scope. */
  ghost predicate ValidState(ts: seq<Table>, ns: map<NodeId, nat>, st: seq<nat>) {
    WellLinked(ts)
    && InRange(ns, ts)
    && (forall i :: 0 <= i < |st| ==> st[i] < |ts|)
    && (forall i, j :: 0 <= i < j < |st| && j == i + 1 ==> ParentOf(ts, st[j]) == Some(st[i]))
  }

  /** Changing what the scopes hold keeps the state valid. */
  lemma ValidKept(ts: seq<Table>, r: seq<Table>, ns: map<NodeId, nat>, st: seq<nat>)
    requires ValidState(ts, ns, st) && SameShape(ts, r)
    ensures ValidState(r, ns, st)
  {
    SameLinks(ts, r);
    forall i, j | 0 <= i < j < |st| && j == i + 1 ensures ParentOf(r, st[j]) == Some(st[i]) {
      assert ParentOf(r, st[j]) == ParentOf(ts, st[j]);
    }
  }

  /** Opening a new child of the innermost scope, and attaching a node to
      it, keeps the state valid. */
  lemma ValidGrow(ts: seq<Table>, r: seq<Table>, ns: map<NodeId, nat>, st: seq<nat>, node: NodeId)
    requires ValidState(ts, ns, st) && st != []
    requires WellLinked(r) && |r| == |ts| + 1 && r[|ts|].parent == Some(st[|st| - 1])
    requires forall i :: 0 <= i < |ts| ==> r[i].parent == ts[i].parent
    ensures ValidState(r, ns[node := |ts|], st + [|ts|])
  {
    var st1 := st + [|ts|];
    forall i, j | 0 <= i < j < |st1| && j == i + 1 ensures ParentOf(r, st1[j]) == Some(st1[i]) {
      if j < |st| {
        assert ParentOf(r, st[j]) == ParentOf(ts, st[j]);
      }
    }
  }

  function ItemRefs(items: seq<ImportItem>): (r: seq<SymRef>)
    ensures |r| == |items| && forall i :: 0 <= i < |items| ==> r[i] == items[i].ref
  {
    if items == [] then [] else [items[0].ref] + ItemRefs(items[1..])
  }

  /** The declaration each kind of declaring node inserts for itself: its
      access spec (the node itself or none) and its single-decl label. */
  function DeclFor(t: Tree): Decl {
    match t.kind
    case Architype(_) => Decl(t.id, Some(t.id), Some("architype"))
    case ArchDef => Decl(t.id, None, Some("arch def"))
    case Ability(_, _, _) => Decl(t.id, Some(t.id), Some("ability"))
    case AbilityDef => Decl(t.id, None, Some("ability def"))
    case Enum => Decl(t.id, Some(t.id), Some("enum"))
    case _ => Decl(t.id, None, Some("enum def"))
  }

  function SelfSuper(ts: seq<Table>, n: nat, origin: NodeId, owner: Option<NodeId>): (r: seq<Table>)
    requires n < |ts|
    ensures SameShape(ts, r)
  {
    DefInsert(DefInsert(ts, n, "self", Stub(origin, None)), n, "super", Stub(origin, owner))
  }

  /** The scopes after a declaring node is entered with `outer` innermost:
      the node declared in `outer`, a new child scope of `outer` for the
      node, and in a method's scope the `self` and `super` stubs. */
  function DeclTables(ts: seq<Table>, outer: nat, t: Tree): seq<Table>
    requires WellLinked(ts) && outer < |ts|
  {
    var pushed := PushKid(DefInsert(ts, outer, t.name, DeclFor(t)), outer, t.name, t.id);
    if t.kind.Ability? && t.kind.isMethod then SelfSuper(pushed, |ts|, t.id, t.kind.ownerMethod)
    else pushed
  }

  /** What entering a declaring node promises: the node is declared in the
      enclosing scope and nothing else changes there; its own scope is a
      fresh child of the enclosing one, owned by the node and named after
      it, and holds exactly `self` and `super` when the node is a method
      and nothing otherwise. */
  lemma DeclTablesSpec(ts: seq<Table>, outer: nat, t: Tree)
    requires WellLinked(ts) && outer < |ts|
    ensures var r, n := DeclTables(ts, outer, t), |ts|;
      |r| == n + 1 && WellLinked(r)
      && r[n].parent == Some(outer) && r[n].owner == t.id && r[n].name == t.name
      && n in r[outer].kids && (forall i :: 0 <= i < n ==> r[i].parent == ts[i].parent)
      && Declarations(r, outer, t.name) == Declarations(ts, outer, t.name) + [DeclFor(t)]
      && (forall name :: name != t.name ==> Declarations(r, outer, name) == Declarations(ts, outer, name))
      && (forall name :: Declarations(r, n, name) ==
            if t.kind.Ability? && t.kind.isMethod && name == "self" then [Stub(t.id, None)]
            else if t.kind.Ability? && t.kind.isMethod && name == "super" then [Stub(t.id, t.kind.ownerMethod)]
            else [])
  {
    var inserted := DefInsert(ts, outer, t.name, DeclFor(t));
    var pushed := PushKid(inserted, outer, t.name, t.id);
    var n := |ts|;
    assert pushed[outer].symbols == inserted[outer].symbols;
    assert forall name :: Declarations(pushed, outer, name) == Declarations(inserted, outer, name);
    assert pushed[n].symbols == map[];
    if t.kind.Ability? && t.kind.isMethod {
      var withSelf := DefInsert(pushed, n, "self", Stub(t.id, None));
      assert withSelf[outer] == pushed[outer];
      SameLinks(pushed, withSelf);
      SameLinks(withSelf, SelfSuper(pushed, n, t.id, t.kind.ownerMethod));
    }
  }

  predicate IsDeclaring(k: Kind) {
    k.Architype? || k.ArchDef? || k.Ability? || k.AbilityDef? || k.Enum? || k.EnumDef?
  }

  /** The name of the scope a node opens. */
  function ScopeName(t: Tree): string {
    match t.kind
    case Block(n) => n
    case InForStmt(_) => "InForStmt"
    case InnerCompr(_) => "InnerCompr"
    case _ => t.name
  }

  /** The references a global-variable block declares: the symbol-node
      targets of every assignment under it, in order. */
  function GlobalTargets(ts: seq<Tree>): seq<Target> {
    if ts == [] then []
    else
      (if ts[0].kind.Assignment? then ts[0].kind.targets else []) + GlobalTargets(ts[1..])
  }

  function SymbolRefs(targets: seq<Target>): (r: seq<SymRef>)
    ensures |r| <= |targets|
  {
    if targets == [] then []
    else (if targets[0].shape.SymbolNode? then [targets[0].ref] else []) + SymbolRefs(targets[1..])
  }

  function NonSymbolCount(targets: seq<Target>): (n: nat)
    ensures n + |SymbolRefs(targets)| == |targets|
  {
    if targets == [] then 0
    else (if targets[0].shape.SymbolNode? then 0 else 1) + NonSymbolCount(targets[1..])
  }

  /** Declare every reference in turn, stopping at the first that is
      attached to no scope. */
  method DeclareEach(ts: seq<Table>, ns: map<NodeId, nat>, refs: seq<SymRef>,
                     access: Option<NodeId>, single: Option<string>) returns (r: Option<seq<Table>>)
    requires InRange(ns, ts)
    ensures r == InsertAll(ts, ns, refs, access, single)
  {
    var cur, rest := ts, refs;
    while rest != []
      invariant InRange(ns, cur)
      invariant InsertAll(cur, ns, rest, access, single) == InsertAll(ts, ns, refs, access, single)
      decreases |rest|
    {
      var ref := rest[0];
      if ref.node !in ns {
        return None;
      }
      cur := DefInsert(cur, ns[ref.node], ref.name, Decl(ref.node, access, single));
      rest := rest[1..];
    }
    r := Some(cur);
  }

  /** `exit_global_vars`' loop: declare each symbol-node target with `gv`
      as access spec and collect an internal error for every other target. */
  method DeclareGlobals(ts: seq<Table>, ns: map<NodeId, nat>, targets: seq<Target>, gv: NodeId)
    returns (r: Option<seq<Table>>, found: seq<string>)
    requires InRange(ns, ts)
    ensures r == InsertAll(ts, ns, SymbolRefs(targets), Some(gv), Some("global var"))
    ensures r.Some? ==> found == Repeat(GlobalVarIce, NonSymbolCount(targets))
  {
    var cur, rest := ts, targets;
    found := [];
    while rest != []
      invariant InRange(ns, cur)
      invariant InsertAll(cur, ns, SymbolRefs(rest), Some(gv), Some("global var"))
                == InsertAll(ts, ns, SymbolRefs(targets), Some(gv), Some("global var"))
      invariant |found| + NonSymbolCount(rest) == NonSymbolCount(targets)
      invariant found == Repeat(GlobalVarIce, |found|)
      decreases |rest|
    {
      var ref := rest[0].ref;
      if rest[0].shape.SymbolNode? {
        assert SymbolRefs(rest) == [ref] + SymbolRefs(rest[1..]);
        InsertAllCons(cur, ns, ref, SymbolRefs(rest[1..]), Some(gv), Some("global var"));
        if ref.node !in ns {
          return None, found;
        }
        cur := DefInsert(cur, ns[ref.node], ref.name, Decl(ref.node, Some(gv), Some("global var")));
      } else {
        assert SymbolRefs(rest) == [] + SymbolRefs(rest[1..]) == SymbolRefs(rest[1..]);
        RepeatSnoc(GlobalVarIce, |found|);
        found := found + [GlobalVarIce];
      }
      rest := rest[1..];
    }
    r := Some(cur);
  }

  /** The error an absorbing Jac import records when it has no module to
      take every name from. */
  function AbsorbError(fromLoc: Option<string>): string {
    "Module " + (if fromLoc.Some? then fromLoc.value else "from location")
    + " not found to include *, or ICE occurred!"
  }

  class SymTabBuilder {
    var tables: seq<Table>
    var nodeScope: map<NodeId, nat>
    var stack: seq<nat>
    var errors: seq<string>
    var ices: seq<string>
    /** The Python-inspection variant, which never reuses a parent's scope. */
    const pyInspect: bool
    /** The helper names a test block declares. */
    const assertNames: seq<string>

    ghost predicate Valid()
      reads this
    {
      ValidState(tables, nodeScope, stack)
    }

    /** The scopes a module run starts from when the stack is empty: the
        parent's scope, unless there is none or this is the inspection
        variant. */
    function Base(t: Tree): seq<nat>
      reads this
    {
      if !pyInspect && t.parent.Some? && t.parent.value in nodeScope then [nodeScope[t.parent.value]]
      else []
    }

    /** A pass over an existing arena of scopes and node attachments, with
        no scope open. */
    constructor (tables0: seq<Table>, nodeScope0: map<NodeId, nat>, pyInspect: bool)
      requires WellLinked(tables0) && InRange(nodeScope0, tables0)
      ensures Valid()
      ensures tables == tables0 && nodeScope == nodeScope0 && this.pyInspect == pyInspect
      ensures stack == [] && errors == [] && ices == [] && assertNames == AssertNames
    {
      assertNames := AssertNames;
      tables := tables0;
      nodeScope := nodeScope0;
      stack := [];
      errors := [];
      ices := [];
      this.pyInspect := pyInspect;
    }

    /** The innermost open scope, if any. */
    function CurScope(): (s: Option<nat>)
      reads this
      ensures s.Some? <==> stack != []
      ensures s.Some? ==> s == Some(stack[|stack| - 1]) && (Valid() ==> s.value < |tables|)
    {
      if stack == [] then None else Some(stack[|stack| - 1])
    }

    /** Open a scope for `key`.  With no scope open it starts a fresh root,
        or (outside the inspection variant) reopens the scope of the key's
        parent and opens a child of it; otherwise it opens a child of the
        innermost scope.  Fails when the parent has no scope. */
    method PushScope(name: string, key: NodeId, keyParent: Option<NodeId>) returns (ok: bool)
      requires Valid()
      modifies this
      ensures Valid()
      ensures nodeScope == old(nodeScope) && errors == old(errors) && ices == old(ices)
      ensures old(stack) == [] && (pyInspect || keyParent.None?) ==>
                ok && tables == NewRoot(old(tables), name, key) && stack == [|old(tables)|]
      ensures old(stack) == [] && !pyInspect && keyParent.Some? ==>
                ok == (keyParent.value in old(nodeScope))
      ensures ok && old(stack) == [] && !pyInspect && keyParent.Some? ==>
                var p := old(nodeScope)[keyParent.value];
                tables == PushKid(old(tables), p, name, key) && stack == [p, |old(tables)|]
      ensures old(stack) != [] ==>
                ok && tables == PushKid(old(tables), old(stack)[|old(stack)| - 1], name, key)
                && stack == old(stack) + [|old(tables)|]
    {
      var n := |tables|;
      if stack == [] && (pyInspect || keyParent.None?) {
        tables := NewRoot(tables, name, key);
        stack := [n];
        ok := true;
      } else if stack == [] {
        if keyParent.value !in nodeScope {
          ok := false;
          return;
        }
        var p := nodeScope[keyParent.value];
        tables := PushKid(tables, p, name, key);
        stack := [p, n];
        ok := true;
      } else {
        tables := PushKid(tables, stack[|stack| - 1], name, key);
        stack := stack + [n];
        ok := true;
      }
    }

    /** Close the innermost scope and return it; fails on an empty stack. */
    method PopScope() returns (ok: bool, top: nat)
      requires Valid()
      modifies this`stack
      ensures Valid()
      ensures ok == (old(stack) != [])
      ensures ok ==> top == old(stack)[|old(stack)| - 1] && stack == old(stack)[..|old(stack)| - 1]
      ensures !ok ==> stack == old(stack)
    {
      if stack == [] {
        return false, 0;
      }
      ok, top := true, stack[|stack| - 1];
      stack := stack[..|stack| - 1];
    }

    /** Attach `node` to the innermost open scope; nothing else changes.
        Fails on an empty stack. */
    method SyncNodeToScope(node: NodeId) returns (ok: bool)
      requires Valid()
      modifies this`nodeScope
      ensures Valid()
      ensures ok == (stack != [])
      ensures nodeScope == if ok then old(nodeScope)[node := stack[|stack| - 1]] else old(nodeScope)
    {
      if stack == [] {
        return false;
      }
      nodeScope := nodeScope[node := stack[|stack| - 1]];
      ok := true;
    }

    /** Declare `ref` in the scope it is attached to. */
    method DefInsertAt(ref: SymRef, access: Option<NodeId>, single: Option<string>) returns (ok: bool)
      requires Valid()
      modifies this`tables
      ensures Valid()
      ensures ok == (ref.node in nodeScope)
      ensures ok ==> Some(tables) == InsertAt(old(tables), nodeScope, ref, access, single)
      ensures !ok ==> tables == old(tables)
    {
      if ref.node !in nodeScope {
        return false;
      }
      var next := DefInsert(tables, nodeScope[ref.node], ref.name, Decl(ref.node, access, single));
      ValidKept(tables, next, nodeScope, stack);
      tables := next;
      ok := true;
    }

    /** `enter_module`, `enter_test` and the scope-opening statements and
        expressions: open a scope named after the node and attach the node
        to it. */
    method OpenScope(t: Tree) returns (ok: bool)
      requires Valid()
      modifies this
      ensures Valid()
      ensures errors == old(errors) && ices == old(ices)
      ensures ok && old(stack) != [] ==> stack == old(stack) + [|old(tables)|]
      ensures ok && old(stack) == [] ==> stack == old(Base(t)) + [|old(tables)|]
      ensures ok ==> |tables| == |old(tables)| + 1 && nodeScope == old(nodeScope)[t.id := |old(tables)|]
      ensures ok ==> tables[|old(tables)|] == Fresh(ScopeName(t), t.id, tables[|old(tables)|].parent)
    {
      ok := PushScope(ScopeName(t), t.id, t.parent);
      if ok {
        ok := SyncNodeToScope(t.id);
      }
    }

    /** Declare a stub made from `origin` under each of `names` in scope `s`. */
    method DeclareStubs(s: nat, names: seq<string>, origin: NodeId)
      requires Valid() && s < |tables|
      modifies this`tables
      ensures Valid()
      ensures tables == InsertStubs(old(tables), s, names, origin)
    {
      var rest := names;
      while rest != []
        invariant Valid() && |tables| == |old(tables)|
        invariant InsertStubs(tables, s, rest, origin) == InsertStubs(old(tables), s, names, origin)
        decreases |rest|
      {
        var next := DefInsert(tables, s, rest[0], Stub(origin, Some(origin)));
        ValidKept(tables, next, nodeScope, stack);
        tables := next;
        rest := rest[1..];
      }
    }

    /** `enter_test`: open the test's scope, attach the test to it and
        declare a stub for every unittest assertion name in it. */
    method EnterTest(t: Tree) returns (ok: bool)
      requires Valid() && t.kind.Test?
      modifies this
      ensures Valid()
      ensures errors == old(errors) && ices == old(ices)
      ensures ok && old(stack) != [] ==> stack == old(stack) + [|old(tables)|]
      ensures ok && old(stack) == [] ==> stack == old(Base(t)) + [|old(tables)|]
      ensures ok ==> |tables| == |old(tables)| + 1 && nodeScope == old(nodeScope)[t.id := |old(tables)|]
      ensures ok ==> forall name :: Declarations(tables, |old(tables)|, name)
                                    == Repeat(Stub(t.id, Some(t.id)), Count(assertNames, name))
    {
      ok := OpenScope(t);
      if !ok {
        return;
      }
      var s := stack[|stack| - 1];
      ghost var start := tables;
      DeclareStubs(s, assertNames, t.id);
      forall name ensures Declarations(tables, s, name) == Repeat(Stub(t.id, Some(t.id)), Count(assertNames, name)) {
        InsertStubsExact(start, s, assertNames, t.id, name);
      }
    }

    /** `enter_architype`, `enter_arch_def`, `enter_ability`,
        `enter_ability_def`, `enter_enum`, `enter_enum_def`: attach the node
        to the enclosing scope, declare it there, open its own scope and
        attach it to that; a method's scope also declares `self` and
        `super`.  Fails on an empty stack. */
    method EnterDecl(t: Tree) returns (ok: bool)
      requires Valid() && IsDeclaring(t.kind)
      modifies this
      ensures Valid()
      ensures errors == old(errors) && ices == old(ices)
      ensures ok == (old(stack) != [])
      ensures ok ==> stack == old(stack) + [|old(tables)|]
      ensures ok ==> nodeScope == old(nodeScope)[t.id := |old(tables)|]
      ensures ok ==> tables == DeclTables(old(tables), old(stack)[|old(stack)| - 1], t)
    {
      if stack == [] {
        return false;
      }
      var outer, n := stack[|stack| - 1], |tables|;
      var next := DeclTables(tables, outer, t);
      DeclTablesSpec(tables, outer, t);
      ValidGrow(tables, next, nodeScope, stack, t.id);
      tables, stack, nodeScope := next, stack + [n], nodeScope[t.id := n];
      ok := true;
    }

    /** `exit_global_vars`: declare every symbol-node target of the
        assignments below, with the block as access spec; any other target
        records an internal error. */
    method ExitGlobalVars(t: Tree) returns (ok: bool)
      requires Valid() && t.kind.GlobalVars?
      modifies this
      ensures Valid()
      ensures stack == old(stack) && nodeScope == old(nodeScope) && errors == old(errors)
      ensures var targets := GlobalTargets(Descendants(t));
              var r := InsertAll(old(tables), nodeScope, SymbolRefs(targets), Some(t.id), Some("global var"));
              ok == r.Some?
              && (ok ==> Some(tables) == r && ices == old(ices) + Repeat(GlobalVarIce, NonSymbolCount(targets)))
    {
      var r, found := DeclareGlobals(tables, nodeScope, GlobalTargets(Descendants(t)), t.id);
      ok := r.Some?;
      if ok {
        ValidKept(tables, r.value, nodeScope, stack);
        tables, ices := r.value, ices + found;
      }
    }

    /** `exit_import`: a plain import declares each item in its own scope;
        an absorbing Jac import takes every name of the module its first
        item resolves to, or records an error when there is none. */
    method ExitImport(t: Tree) returns (ok: bool)
      requires Valid() && t.kind.Import?
      modifies this
      ensures Valid()
      ensures stack == old(stack) && nodeScope == old(nodeScope) && ices == old(ices)
      ensures !t.kind.isAbsorb ==>
                var refs := ItemRefs(t.kind.items);
                var r := InsertAll(old(tables), nodeScope, refs, None, Some("import item"));
                ok == r.Some? && (ok ==> Some(tables) == r) && errors == old(errors)
      ensures t.kind.isAbsorb && !t.kind.isJac ==> ok && tables == old(tables) && errors == old(errors)
      ensures t.kind.isAbsorb && t.kind.isJac && t.kind.items == [] ==> !ok
      ensures t.kind.isAbsorb && t.kind.isJac && t.kind.items != [] ==>
                var src := t.kind.items[0];
                if !src.isModulePath || src.subModule.None? then
                  ok && tables == old(tables) && errors == old(errors) + [AbsorbError(t.kind.fromLoc)]
                else
                  ok == (t.id in nodeScope) && errors == old(errors)
                  && (ok ==> tables == Inherit(old(tables), nodeScope[t.id], src.subModule.value))
    {
      var k := t.kind;
      if !k.isAbsorb {
        var refs := ItemRefs(k.items);
        var r := DeclareEach(tables, nodeScope, refs, None, Some("import item"));
        ok := r.Some?;
        if ok {
          ValidKept(tables, r.value, nodeScope, stack);
          tables := r.value;
        }
      } else if k.isJac {
        if k.items == [] {
          return false;
        }
        var src := k.items[0];
        if !src.isModulePath || src.subModule.None? {
          errors := errors + [AbsorbError(k.fromLoc)];
          ok := true;
        } else if t.id !in nodeScope {
          ok := false;
        } else {
          var next := Inherit(tables, nodeScope[t.id], src.subModule.value);
          ValidKept(tables, next, nodeScope, stack);
          tables := next;
          ok := true;
        }
      } else {
        ok := true;
      }
    }

    /** `exit_module_path`: declare the alias if there is one, otherwise
        the first path segment when it is a name, otherwise nothing. */
    method ExitModulePath(t: Tree) returns (ok: bool)
      requires Valid() && t.kind.ModulePath?
      modifies this
      ensures Valid()
      ensures stack == old(stack) && nodeScope == old(nodeScope) && errors == old(errors) && ices == old(ices)
      ensures t.kind.pathAlias.Some? ==>
                var r := InsertAt(old(tables), nodeScope, t.kind.pathAlias.value, None, Some("import"));
                ok == r.Some? && (ok ==> Some(tables) == r)
      ensures t.kind.pathAlias.None? && t.kind.path != [] && t.kind.path[0].NameElem? ==>
                var r := InsertAt(old(tables), nodeScope, t.kind.path[0].ref, None, None);
                ok == r.Some? && (ok ==> Some(tables) == r)
      ensures t.kind.pathAlias.None? && (t.kind.path == [] || t.kind.path[0].OtherElem?) ==>
                ok && tables == old(tables)
    {
      var k := t.kind;
      if k.pathAlias.Some? {
        ok := DefInsertAt(k.pathAlias.value, None, Some("import"));
      } else if k.path != [] && k.path[0].NameElem? {
        ok := DefInsertAt(k.path[0].ref, None, None);
      } else {
        ok := true;
      }
    }

    /** The enter handler for any node. */
    method Enter(t: Tree) returns (ok: bool)
      requires Valid()
      modifies this
      ensures Valid()
      ensures ok && !Opens(t.kind) ==> stack == old(stack)
      ensures ok && Opens(t.kind) && old(stack) != [] ==> stack == old(stack) + [|old(tables)|]
      ensures ok && Opens(t.kind) && old(stack) == [] ==> stack == old(Base(t)) + [|old(tables)|]
      ensures !Opens(t.kind) && !t.kind.Unhandled? ==>
                ok == (old(stack) != []) && nodeScope == if ok then old(nodeScope)[t.id := stack[|stack| - 1]] else old(nodeScope)
    {
      if IsDeclaring(t.kind) {
        ok := EnterDecl(t);
      } else if t.kind.Test? {
        ok := EnterTest(t);
      } else if Opens(t.kind) {
        ok := OpenScope(t);
      } else if t.kind.Unhandled? {
        ok := true;
      } else {
        ok := SyncNodeToScope(t.id);
      }
    }

    /** The exit handler for any node: scope-opening nodes close their
        scope; globals, imports and module paths declare their names. */
    method Exit(t: Tree) returns (ok: bool)
      requires Valid()
      modifies this
      ensures Valid()
      ensures ok && Opens(t.kind) ==> old(stack) != [] && stack == old(stack)[..|old(stack)| - 1]
      ensures ok && !Opens(t.kind) ==> stack == old(stack)
    {
      if Opens(t.kind) {
        var top;
        ok, top := PopScope();
      } else if t.kind.GlobalVars? {
        ok := ExitGlobalVars(t);
      } else if t.kind.Import? {
        ok := ExitImport(t);
      } else if t.kind.ModulePath? {
        ok := ExitModulePath(t);
      } else {
        ok := true;
      }
    }

    /** Run the pass over `t`: enter it, walk its children in order, exit
        it.  A run that starts inside an open scope leaves the stack as it
        found it; a run from an empty stack over a scope-opening node (a
        module) leaves only the scope it started from, which is the parent's
        scope when the module has one, and nothing otherwise. */
    method Walk(t: Tree) returns (ok: bool)
      requires Valid()
      modifies this
      ensures Valid()
      ensures ok && old(stack) != [] ==> stack == old(stack)
      ensures ok && old(stack) == [] && Opens(t.kind) ==> stack == old(Base(t))
      decreases t
    {
      ghost var base := Base(t);
      ok := Enter(t);
      if !ok {
        return;
      }
      ghost var mid := stack;
      var i := 0;
      while i < |t.kids|
        invariant 0 <= i <= |t.kids| && Valid()
        invariant old(stack) != [] || Opens(t.kind) ==> stack == mid && mid != []
      {
        ok := Walk(t.kids[i]);
        if !ok {
          return;
        }
        i := i + 1;
      }
      ok := Exit(t);
    }
  }
}
