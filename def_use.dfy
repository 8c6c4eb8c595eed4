/** The def/use pass: every node already sits in a scope; this pass
    declares assignment-like targets, parameters and has-vars, resolves
    uses, marks the names `del` removes, and tags the walker-only
    statements of walkers.  The lookups themselves are abstract and are
    recorded as events. */
module DefUse {
  import opened Common
  import opened Ast
  import opened SymTable
  import opened SymTabBuild

  /** A request made of a scope that this model does not interpret. */
  datatype Event =
    | UseLookup(scope: nat, node: NodeId)
    | ChainUseLookup(scope: nat, chain: seq<NodeId>)
    | ChainDefInsert(scope: nat, attrs: seq<SymRef>)
    | InheritBases(scope: nat, node: NodeId)

  const AssignmentError := "Assignment target not valid"
  const NamedTargetError := "Named target not valid"
  const ForTargetError := "For loop assignment target not valid"
  const AsTargetError := "For expr as target not valid"
  const DeleteError := "Delete target not valid"
  const HasVarIce := "Inconsistency in AST, has var should be under arch has"

  /** What defining targets changes: the scopes, the event log, the errors. */
  datatype Effects = Effects(tables: seq<Table>, events: seq<Event>, errors: seq<string>)

  /** Every scope keeps its place and every declaration list only grows
      at its end. */
  ghost predicate Grown(ts: seq<Table>, r: seq<Table>) {
    |r| == |ts| && forall s, name :: 0 <= s < |ts| ==> Declarations(ts, s, name) <= Declarations(r, s, name)
  }

  lemma GrownTrans(a: seq<Table>, b: seq<Table>, c: seq<Table>)
    requires Grown(a, b) && Grown(b, c)
    ensures Grown(a, c)
  {
    forall s, name | 0 <= s < |a| ensures Declarations(a, s, name) <= Declarations(c, s, name) {
      assert Declarations(a, s, name) <= Declarations(b, s, name);
      assert Declarations(b, s, name) <= Declarations(c, s, name);
    }
  }

  lemma GrownRefl(ts: seq<Table>)
    ensures Grown(ts, ts)
  {
  }

  lemma DefInsertGrown(ts: seq<Table>, t: nat, name: string, d: Decl)
    requires t < |ts|
    ensures Grown(ts, DefInsert(ts, t, name, d))
  {
    var r := DefInsert(ts, t, name, d);
    forall s, n | 0 <= s < |ts| ensures Declarations(ts, s, n) <= Declarations(r, s, n) {
      if s != t {
        assert r[s] == ts[s];
      }
    }
  }

  /** One target of an assignment, comprehension, for-in or with-alias:
      an attribute chain is chain-defined in its own scope, a symbol node
      is declared (with no access spec and no label), anything else
      records `msg`.  `None` when the target has no scope. */
  function DefineEffect(ns: map<NodeId, nat>, e: Effects, tg: Target, msg: string): (r: Option<Effects>)
    requires InRange(ns, e.tables)
    ensures tg.shape.OtherExpr? ==> r == Some(e.(errors := e.errors + [msg]))
    ensures !tg.shape.OtherExpr? ==> (r.Some? <==> tg.ref.node in ns)
    ensures r.Some? && tg.shape.AttrChain? ==>
              r.value == e.(events := e.events + [ChainDefInsert(ns[tg.ref.node], tg.shape.attrs)])
    ensures r.Some? ==> SameShape(e.tables, r.value.tables) && Grown(e.tables, r.value.tables)
    ensures r.Some? && tg.shape.SymbolNode? ==>
              r.value.events == e.events && r.value.errors == e.errors
              && Declarations(r.value.tables, ns[tg.ref.node], tg.ref.name)
                 == Declarations(e.tables, ns[tg.ref.node], tg.ref.name) + [Decl(tg.ref.node, None, None)]
  {
    match tg.shape
    case OtherExpr => Some(e.(errors := e.errors + [msg]))
    case AttrChain(attrs) =>
      if tg.ref.node in ns then Some(e.(events := e.events + [ChainDefInsert(ns[tg.ref.node], attrs)]))
      else None
    case SymbolNode =>
      if tg.ref.node in ns then
        DefInsertGrown(e.tables, ns[tg.ref.node], tg.ref.name, Decl(tg.ref.node, None, None));
        Some(e.(tables := DefInsert(e.tables, ns[tg.ref.node], tg.ref.name, Decl(tg.ref.node, None, None))))
      else None
  }

  /** Define every target in turn, stopping at the first without a scope. */
  function DefineAll(ns: map<NodeId, nat>, e: Effects, tgs: seq<Target>, msg: string): (r: Option<Effects>)
    requires InRange(ns, e.tables)
    ensures r.Some? ==> SameShape(e.tables, r.value.tables) && Grown(e.tables, r.value.tables)
    ensures r.Some? ==> e.events <= r.value.events && e.errors <= r.value.errors
    decreases |tgs|
  {
    if tgs == [] then GrownRefl(e.tables); Some(e)
    else
      match DefineEffect(ns, e, tgs[0], msg)
      case None => None
      case Some(e1) =>
        var r := DefineAll(ns, e1, tgs[1..], msg);
        if r.Some? then GrownTrans(e.tables, e1.tables, r.value.tables); r else r
  }

  /** Number of targets that are neither attribute chains nor symbol nodes. */
  function InvalidCount(tgs: seq<Target>): (n: nat)
    ensures n <= |tgs|
  {
    if tgs == [] then 0 else (if tgs[0].shape.OtherExpr? then 1 else 0) + InvalidCount(tgs[1..])
  }

  /** Defining a list of targets succeeds exactly when every chain and
      symbol target has a scope, and then records one error per invalid
      target, in order. */
  lemma {:induction false} DefineAllOutcome(ns: map<NodeId, nat>, e: Effects, tgs: seq<Target>, msg: string)
    requires InRange(ns, e.tables)
    ensures DefineAll(ns, e, tgs, msg).Some?
            <==> forall i :: 0 <= i < |tgs| && !tgs[i].shape.OtherExpr? ==> tgs[i].ref.node in ns
    ensures DefineAll(ns, e, tgs, msg).Some? ==>
              DefineAll(ns, e, tgs, msg).value.errors == e.errors + Repeat(msg, InvalidCount(tgs))
    decreases |tgs|
  {
    if tgs != [] {
      var e1 := DefineEffect(ns, e, tgs[0], msg);
      if e1.Some? {
        DefineAllOutcome(ns, e1.value, tgs[1..], msg);
        assert forall i :: 1 <= i < |tgs| ==> tgs[i] == tgs[1..][i - 1];
        if tgs[0].shape.OtherExpr? {
          assert Repeat(msg, InvalidCount(tgs)) == [msg] + Repeat(msg, InvalidCount(tgs[1..]));
        }
      }
    }
  }

  /** The node ids of the walker-only statements among `ds`. */
  function WalkerOnlyIds(ds: seq<Tree>): set<NodeId> {
    if ds == [] then {}
    else (if ds[0].kind.WalkerOnly? then {ds[0].id} else {}) + WalkerOnlyIds(ds[1..])
  }

  /** An id is collected exactly when some walker-only node of `ds` has it. */
  lemma {:induction false} WalkerOnlyIdsSpec(ds: seq<Tree>, n: NodeId)
    ensures n in WalkerOnlyIds(ds) <==> exists i :: 0 <= i < |ds| && ds[i].kind.WalkerOnly? && ds[i].id == n
  {
    if ds != [] {
      WalkerOnlyIdsSpec(ds[1..], n);
      if n in WalkerOnlyIds(ds[1..]) {
        var i :| 0 <= i < |ds[1..]| && ds[1..][i].kind.WalkerOnly? && ds[1..][i].id == n;
        assert ds[i + 1] == ds[1..][i];
      }
      if exists i :: 0 <= i < |ds| && ds[i].kind.WalkerOnly? && ds[i].id == n {
        var i :| 0 <= i < |ds| && ds[i].kind.WalkerOnly? && ds[i].id == n;
        if i > 0 {
          assert ds[1..][i - 1] == ds[i];
        }
      }
    }
  }

  /** Whether `t` is an ability whose body is an ability definition. */
  predicate HasDefBody(t: Tree) {
    t.kind.Ability? && t.kind.body.Some? && t.kind.body.value.kind.AbilityDef?
  }

  /** The walker-only statements inside the definition bodies of the
      abilities among `ds`. */
  function DefBodyTags(ds: seq<Tree>): set<NodeId> {
    if ds == [] then {}
    else (if HasDefBody(ds[0]) then WalkerOnlyIds(Descendants(ds[0].kind.body.value)) else {})
         + DefBodyTags(ds[1..])
  }

  /** What a walker tags: its own walker-only descendants and those of the
      definition bodies of its abilities. */
  function WalkerTags(t: Tree): set<NodeId> {
    WalkerOnlyIds(Descendants(t)) + DefBodyTags(Descendants(t))
  }

  /** Only walker-only statements are ever tagged. */
  lemma WalkerTagsOnly(t: Tree, n: NodeId)
    requires n in WalkerTags(t)
    ensures (exists i :: 0 <= i < |Descendants(t)| && Descendants(t)[i].kind.WalkerOnly? && Descendants(t)[i].id == n)
            || exists a :: a in Descendants(t) && HasDefBody(a) && n in WalkerOnlyIds(Descendants(a.kind.body.value))
  {
    var ds := Descendants(t);
    WalkerOnlyIdsSpec(ds, n);
    if n in WalkerOnlyIds(ds) {
      var i :| 0 <= i < |ds| && ds[i].kind.WalkerOnly? && ds[i].id == n;
      assert 0 <= i < |Descendants(t)| && Descendants(t)[i].kind.WalkerOnly? && Descendants(t)[i].id == n;
    } else {
      assert n in DefBodyTags(ds);
      DefBodyTagsFrom(ds, n);
    }
  }

  lemma {:induction false} DefBodyTagsFrom(ds: seq<Tree>, n: NodeId)
    requires n in DefBodyTags(ds)
    ensures exists a :: a in ds && HasDefBody(a) && n in WalkerOnlyIds(Descendants(a.kind.body.value))
  {
    if !(HasDefBody(ds[0]) && n in WalkerOnlyIds(Descendants(ds[0].kind.body.value))) {
      DefBodyTagsFrom(ds[1..], n);
      var a :| a in ds[1..] && HasDefBody(a) && n in WalkerOnlyIds(Descendants(a.kind.body.value));
      assert a in ds;
    }
  }

  /** The names `del` gives the delete context: the last segment of an
      attribute chain, or a symbol node's own name; nothing for any other
      operand. */
  function DelName(tg: Target): Option<NodeId> {
    match tg.shape
    case AttrChain(attrs) => if attrs == [] then None else Some(attrs[|attrs| - 1].nameSpec)
    case SymbolNode => Some(tg.ref.nameSpec)
    case OtherExpr => None
  }

  /** The operands `del` works on: a tuple's items when it has them, the
      operand itself otherwise. */
  function DelItems(k: Kind): (r: seq<Target>)
    requires k.DeleteStmt?
    ensures k.tupleValues.None? ==> r == [k.delTarget]
    ensures k.tupleValues.Some? ==> r == k.tupleValues.value
  {
    if k.tupleValues.Some? then k.tupleValues.value else [k.delTarget]
  }

  /** `enter_delete_stmt`'s loop: collect the names to mark and one error
      per invalid operand.  Fails on an attribute chain with no segment. */
  method DeleteMarks(items: seq<Target>) returns (ok: bool, marks: set<NodeId>, errs: seq<string>)
    ensures ok == forall i :: 0 <= i < |items| && items[i].shape.AttrChain? ==> items[i].shape.attrs != []
    ensures ok ==> forall n :: n in marks <==> exists i :: 0 <= i < |items| && DelName(items[i]) == Some(n)
    ensures ok ==> errs == Repeat(DeleteError, InvalidCount(items))
  {
    marks, errs := {}, [];
    var i := 0;
    while i < |items|
      invariant 0 <= i <= |items|
      invariant forall j :: 0 <= j < i && items[j].shape.AttrChain? ==> items[j].shape.attrs != []
      invariant forall n :: n in marks <==> exists j :: 0 <= j < i && DelName(items[j]) == Some(n)
      invariant errs == Repeat(DeleteError, |errs|) && |errs| + InvalidCount(items[i..]) == InvalidCount(items)
    {
      var tg := items[i];
      assert items[i..] == [tg] + items[i + 1..];
      match tg.shape {
        case AttrChain(attrs) =>
          if attrs == [] {
            return false, marks, errs;
          }
          marks := marks + {attrs[|attrs| - 1].nameSpec};
        case SymbolNode =>
          marks := marks + {tg.ref.nameSpec};
        case OtherExpr =>
          RepeatSnoc(DeleteError, |errs|);
          errs := errs + [DeleteError];
      }
      i := i + 1;
    }
    ok := true;
  }

  /** Whether a has-var sits where the grammar puts it: under a sub-node
      list under an `ArchHas`; `up` holds the ancestors, nearest last. */
  predicate HasVarPlaced(up: seq<Tree>) {
    |up| >= 2 && up[|up| - 1].kind.SubNodeList? && up[|up| - 2].kind.ArchHas?
  }

  /** The node kinds the pass has an enter handler with an effect for. */
  predicate HasEnterHandler(k: Kind) {
    k.Architype? || k.Enum? || k.ArchRef? || k.SpecialVarRef? || k.Literal? || k.ArchRefChain?
    || k.AtomTrailer? || k.ParamVar? || k.HasVar? || k.Assignment? || k.InnerCompr? || k.InForStmt?
    || k.ExprAsItem? || k.DeleteStmt? || k.Name?
  }

  class DefUser {
    var tables: seq<Table>
    const nodeScope: map<NodeId, nat>
    var events: seq<Event>
    var errors: seq<string>
    var ices: seq<string>
    /** The nodes whose `from_walker` flag is set. */
    var fromWalker: set<NodeId>
    /** The name-spec nodes whose Python context is `Del`. */
    var delCtx: set<NodeId>

    ghost predicate Valid()
      reads this
    {
      WellLinked(tables) && InRange(nodeScope, tables)
    }

    /** A pass over the scopes and attachments the scope-building pass left. */
    constructor (tables0: seq<Table>, nodeScope0: map<NodeId, nat>)
      requires WellLinked(tables0) && InRange(nodeScope0, tables0)
      ensures Valid()
      ensures tables == tables0 && nodeScope == nodeScope0
      ensures events == [] && errors == [] && ices == [] && fromWalker == {} && delCtx == {}
    {
      tables, nodeScope := tables0, nodeScope0;
      events, errors, ices := [], [], [];
      fromWalker, delCtx := {}, {};
    }

    function State(): Effects
      reads this
    {
      Effects(tables, events, errors)
    }

    /** Record `ev(scope of node)`; fails when the node has no scope. */
    method Record(node: NodeId, ev: nat -> Event) returns (ok: bool)
      modifies this`events
      ensures ok == (node in nodeScope)
      ensures events == if ok then old(events) + [ev(nodeScope[node])] else old(events)
    {
      if node !in nodeScope {
        return false;
      }
      events := events + [ev(nodeScope[node])];
      ok := true;
    }

    /** `def_insert` of `ref` into its own scope. */
    method Define(ref: SymRef, access: Option<NodeId>, single: Option<string>) returns (ok: bool)
      requires Valid()
      modifies this`tables
      ensures Valid() && Grown(old(tables), tables)
      ensures ok == (ref.node in nodeScope)
      ensures ok ==> Some(tables) == InsertAt(old(tables), nodeScope, ref, access, single)
      ensures !ok ==> tables == old(tables)
    {
      if ref.node !in nodeScope {
        GrownRefl(tables);
        return false;
      }
      DefInsertGrown(tables, nodeScope[ref.node], ref.name, Decl(ref.node, access, single));
      tables := DefInsert(tables, nodeScope[ref.node], ref.name, Decl(ref.node, access, single));
      ok := true;
    }

    /** Define one assignment-like target, recording `msg` when it is
        neither an attribute chain nor a symbol node. */
    method DefineTarget(tg: Target, msg: string) returns (ok: bool)
      requires Valid()
      modifies this`tables, this`events, this`errors
      ensures Valid() && Grown(old(tables), tables) && old(events) <= events && old(errors) <= errors
      ensures var r := DefineEffect(nodeScope, old(State()), tg, msg);
              ok == r.Some? && (ok ==> State() == r.value)
    {
      match tg.shape {
        case AttrChain(attrs) =>
          ok := Record(tg.ref.node, (s: nat) => ChainDefInsert(s, attrs));
        case SymbolNode =>
          ok := Define(tg.ref, None, None);
        case OtherExpr =>
          errors := errors + [msg];
          ok := true;
      }
    }

    /** Define each target in turn (`enter_assignment`'s loop). */
    method DefineTargets(tgs: seq<Target>, msg: string) returns (ok: bool)
      requires Valid()
      modifies this`tables, this`events, this`errors
      ensures Valid() && Grown(old(tables), tables) && old(events) <= events && old(errors) <= errors
      ensures var r := DefineAll(nodeScope, old(State()), tgs, msg);
              ok == r.Some? && (ok ==> State() == r.value)
    {
      GrownRefl(tables);
      var rest := tgs;
      while rest != []
        invariant Valid() && Grown(old(tables), tables) && old(events) <= events && old(errors) <= errors
        invariant DefineAll(nodeScope, State(), rest, msg) == DefineAll(nodeScope, old(State()), tgs, msg)
        decreases |rest|
      {
        ghost var before := tables;
        ok := DefineTarget(rest[0], msg);
        GrownTrans(old(tables), before, tables);
        if !ok {
          return;
        }
        rest := rest[1..];
      }
      ok := true;
    }

    /** Set the walker flag on every walker-only node among `ds`. */
    method TagWalkerOnly(ds: seq<Tree>)
      modifies this`fromWalker
      ensures fromWalker == old(fromWalker) + WalkerOnlyIds(ds)
    {
      var rest := ds;
      while rest != []
        invariant fromWalker + WalkerOnlyIds(rest) == old(fromWalker) + WalkerOnlyIds(ds)
        decreases |rest|
      {
        if rest[0].kind.WalkerOnly? {
          fromWalker := fromWalker + {rest[0].id};
        }
        rest := rest[1..];
      }
    }

    /** `enter_architype`: ask the scope to take in the base classes' names;
        a walker tags its walker-only statements, including those in the
        definition bodies of its abilities. */
    method EnterArchitype(t: Tree) returns (ok: bool)
      requires t.kind.Architype?
      modifies this`events, this`fromWalker
      ensures ok == (t.id in nodeScope)
      ensures events == if ok then old(events) + [InheritBases(nodeScope[t.id], t.id)] else old(events)
      ensures ok && t.kind.archType == Walker ==> fromWalker == old(fromWalker) + WalkerTags(t)
      ensures t.kind.archType != Walker || !ok ==> fromWalker == old(fromWalker)
    {
      ok := Record(t.id, (s: nat) => InheritBases(s, t.id));
      if !ok || t.kind.archType != Walker {
        return;
      }
      var ds := Descendants(t);
      TagWalkerOnly(ds);
      ghost var logged := events;
      var rest := ds;
      while rest != []
        invariant events == logged
        invariant fromWalker + DefBodyTags(rest) == old(fromWalker) + WalkerTags(t)
        decreases |rest|
      {
        if HasDefBody(rest[0]) {
          TagWalkerOnly(Descendants(rest[0].kind.body.value));
        }
        rest := rest[1..];
      }
    }

    /** `enter_has_var`: a has-var under a sub-node list under an `ArchHas`
        is declared with that `ArchHas` as access spec; anywhere else it is
        an internal error. */
    method EnterHasVar(t: Tree, up: seq<Tree>) returns (ok: bool)
      requires Valid()
      modifies this`tables, this`ices
      ensures Valid() && Grown(old(tables), tables)
      ensures HasVarPlaced(up) ==>
                ices == old(ices)
                && var r := InsertAt(old(tables), nodeScope, SymRef(t.id, t.name, t.id), Some(up[|up| - 2].id), Some("has var"));
                   ok == r.Some? && (ok ==> Some(tables) == r)
      ensures !HasVarPlaced(up) ==> ok && tables == old(tables) && ices == old(ices) + [HasVarIce]
    {
      GrownRefl(tables);
      if HasVarPlaced(up) {
        ok := Define(SymRef(t.id, t.name, t.id), Some(up[|up| - 2].id), Some("has var"));
      } else {
        ices := ices + [HasVarIce];
        ok := true;
      }
    }

    /** `enter_delete_stmt`: give the delete context to each operand's name,
        recording an error for each operand that has none; no declaration
        is removed. */
    method EnterDelete(t: Tree) returns (ok: bool)
      requires t.kind.DeleteStmt?
      modifies this`delCtx, this`errors
      ensures var items := DelItems(t.kind);
              ok == (forall i :: 0 <= i < |items| && items[i].shape.AttrChain? ==> items[i].shape.attrs != [])
              && (ok ==> (forall n :: n in delCtx <==> n in old(delCtx) || exists i :: 0 <= i < |items| && DelName(items[i]) == Some(n))
                         && errors == old(errors) + Repeat(DeleteError, InvalidCount(items)))
      ensures !ok ==> delCtx == old(delCtx) && errors == old(errors)
    {
      var marks, errs;
      ok, marks, errs := DeleteMarks(DelItems(t.kind));
      if ok {
        delCtx, errors := delCtx + marks, errors + errs;
      }
    }

    /** The enter handler for any node; `up` holds its ancestors, nearest
        last.  Each kind's handler has the effect its own method states;
        only declarations are added: no scope loses any. */
    method Enter(t: Tree, up: seq<Tree>) returns (ok: bool)
      requires Valid()
      modifies this
      ensures Valid() && Grown(old(tables), tables)
      ensures old(events) <= events && old(errors) <= errors && old(ices) <= ices
      ensures old(fromWalker) <= fromWalker && old(delCtx) <= delCtx
      ensures !t.kind.Architype? ==> fromWalker == old(fromWalker)
      ensures !t.kind.DeleteStmt? ==> delCtx == old(delCtx)
      ensures !t.kind.HasVar? ==> ices == old(ices)
      // enter_architype and enter_enum: the scope takes in the base classes
      ensures t.kind.Architype? || t.kind.Enum? ==>
                ok == (t.id in nodeScope) && tables == old(tables) && errors == old(errors)
                && events == if ok then old(events) + [InheritBases(nodeScope[t.id], t.id)] else old(events)
      ensures ok && t.kind.Architype? && t.kind.archType == Walker ==> fromWalker == old(fromWalker) + WalkerTags(t)
      // the use lookups of references, special variables and literals
      ensures t.kind.ArchRef? || t.kind.SpecialVarRef? || t.kind.Literal? ==>
                ok == (t.id in nodeScope) && tables == old(tables) && errors == old(errors)
                && events == if ok then old(events) + [UseLookup(nodeScope[t.id], t.id)] else old(events)
      ensures t.kind.ArchRefChain? ==>
                ok == (t.id in nodeScope) && tables == old(tables) && errors == old(errors)
                && events == if ok then old(events) + [ChainUseLookup(nodeScope[t.id], t.kind.archs)] else old(events)
      ensures t.kind.AtomTrailer? ==>
                ok == (t.id in nodeScope) && tables == old(tables) && errors == old(errors)
                && events == if ok then old(events) + [ChainUseLookup(nodeScope[t.id], t.kind.chain)] else old(events)
      // enter_param_var: a plain `def_insert`
      ensures t.kind.ParamVar? ==>
                ok == (t.id in nodeScope) && events == old(events) && errors == old(errors)
                && (ok ==> Some(tables) == InsertAt(old(tables), nodeScope, SymRef(t.id, t.name, t.id), None, None))
                && (!ok ==> tables == old(tables))
      // enter_has_var
      ensures t.kind.HasVar? && HasVarPlaced(up) ==>
                ices == old(ices) && events == old(events) && errors == old(errors)
                && var r := InsertAt(old(tables), nodeScope, SymRef(t.id, t.name, t.id), Some(up[|up| - 2].id), Some("has var"));
                   ok == r.Some? && (ok ==> Some(tables) == r)
      ensures t.kind.HasVar? && !HasVarPlaced(up) ==>
                ok && State() == old(State()) && ices == old(ices) + [HasVarIce]
      // the assignment-like targets, each construct with its own error text
      ensures t.kind.Assignment? ==>
                var r := DefineAll(nodeScope, old(State()), t.kind.targets, AssignmentError);
                ok == r.Some? && (ok ==> State() == r.value)
      ensures t.kind.InnerCompr? ==>
                var r := DefineEffect(nodeScope, old(State()), t.kind.target, NamedTargetError);
                ok == r.Some? && (ok ==> State() == r.value)
      ensures t.kind.InForStmt? ==>
                var r := DefineEffect(nodeScope, old(State()), t.kind.target, ForTargetError);
                ok == r.Some? && (ok ==> State() == r.value)
      ensures t.kind.ExprAsItem? && t.kind.asTarget.Some? ==>
                var r := DefineEffect(nodeScope, old(State()), t.kind.asTarget.value, AsTargetError);
                ok == r.Some? && (ok ==> State() == r.value)
      ensures t.kind.ExprAsItem? && t.kind.asTarget.None? ==> ok && State() == old(State())
      // enter_delete_stmt
      ensures t.kind.DeleteStmt? ==>
                tables == old(tables) && events == old(events)
                && var items := DelItems(t.kind);
                   ok == (forall i :: 0 <= i < |items| && items[i].shape.AttrChain? ==> items[i].shape.attrs != [])
                   && (ok ==> (forall n :: n in delCtx <==> n in old(delCtx) || exists i :: 0 <= i < |items| && DelName(items[i]) == Some(n))
                              && errors == old(errors) + Repeat(DeleteError, InvalidCount(items)))
                   && (!ok ==> delCtx == old(delCtx) && errors == old(errors))
      // enter_name: a use lookup unless the name sits in an attribute chain
      ensures t.kind.Name? ==>
                tables == old(tables) && errors == old(errors)
                && ok == ((t.id in nodeScope) || (up != [] && up[|up| - 1].kind.AtomTrailer?))
      ensures ok && t.kind.Name? && up != [] && up[|up| - 1].kind.AtomTrailer? ==> events == old(events)
      ensures ok && t.kind.Name? && !(up != [] && up[|up| - 1].kind.AtomTrailer?) ==>
                events == old(events) + [UseLookup(nodeScope[t.id], t.id)]
      // every other node: no handler has an effect
      ensures !HasEnterHandler(t.kind) ==> ok && State() == old(State())
    {
      GrownRefl(tables);
      var k := t.kind;
      if k.Architype? {
        ok := EnterArchitype(t);
      } else if k.Enum? {
        ok := Record(t.id, (s: nat) => InheritBases(s, t.id));
      } else if k.ArchRef? || k.SpecialVarRef? || k.Literal? {
        ok := Record(t.id, (s: nat) => UseLookup(s, t.id));
      } else if k.ArchRefChain? {
        ok := Record(t.id, (s: nat) => ChainUseLookup(s, k.archs));
      } else if k.AtomTrailer? {
        ok := Record(t.id, (s: nat) => ChainUseLookup(s, k.chain));
      } else if k.ParamVar? {
        ok := Define(SymRef(t.id, t.name, t.id), None, None);
      } else if k.HasVar? {
        ok := EnterHasVar(t, up);
      } else if k.Assignment? {
        ok := DefineTargets(k.targets, AssignmentError);
      } else if k.InnerCompr? {
        ok := DefineTarget(k.target, NamedTargetError);
      } else if k.InForStmt? {
        ok := DefineTarget(k.target, ForTargetError);
      } else if k.ExprAsItem? {
        ok := true;
        if k.asTarget.Some? {
          ok := DefineTarget(k.asTarget.value, AsTargetError);
        }
      } else if k.DeleteStmt? {
        ok := EnterDelete(t);
      } else if k.Name? {
        ok := true;
        if !(up != [] && up[|up| - 1].kind.AtomTrailer?) {
          ok := Record(t.id, (s: nat) => UseLookup(s, t.id));
        }
      } else {
        ok := true;
      }
    }

    /** Run the pass over `t` and its descendants in pre-order; the pass
        only ever adds declarations, events, errors and flags. */
    method Walk(t: Tree, up: seq<Tree>) returns (ok: bool)
      requires Valid()
      modifies this
      ensures Valid() && Grown(old(tables), tables)
      ensures old(events) <= events && old(errors) <= errors && old(ices) <= ices
      ensures old(fromWalker) <= fromWalker && old(delCtx) <= delCtx
      decreases t
    {
      ok := Enter(t, up);
      var i := 0;
      while ok && i < |t.kids|
        invariant 0 <= i <= |t.kids| && Valid() && Grown(old(tables), tables)
        invariant old(events) <= events && old(errors) <= errors && old(ices) <= ices
        invariant old(fromWalker) <= fromWalker && old(delCtx) <= delCtx
      {
        ghost var before := tables;
        ok := Walk(t.kids[i], up + [t]);
        GrownTrans(old(tables), before, tables);
        i := i + 1;
      }
    }
  }
}
