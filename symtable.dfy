/** The symbol-table structure, modelled abstractly: a scope has a name, the
    node that owns it, a parent, its child scopes, and a map from a symbol
    name to the declarations inserted under it.  Scopes live in an arena (a
    sequence indexed by position), so parent and child links are indices. */
module SymTable {
  import opened Common
  import opened Ast

  /** A declaration: a declaring node with its access spec and single-decl
      label, or a generated `Name` stub made from `origin`. */
  datatype Decl =
    | Decl(node: NodeId, access: Option<NodeId>, single: Option<string>)
    | Stub(origin: NodeId, nameOf: Option<NodeId>)

  datatype Table = Table(
    name: string,
    owner: NodeId,
    parent: Option<nat>,
    kids: seq<nat>,
    symbols: map<string, seq<Decl>>,
    inherits: seq<NodeId>)

  /** The parent link of scope `i`. */
  function ParentOf(ts: seq<Table>, i: nat): Option<nat>
    requires i < |ts|
  {
    ts[i].parent
  }

  /** Parent and child links agree, every link is in range, and a parent is
      always created before its children (so the links form a forest). */
  ghost predicate WellLinked(ts: seq<Table>) {
    (forall i :: 0 <= i < |ts| && ParentOf(ts, i).Some? ==>
       ParentOf(ts, i).value < i && i in ts[ParentOf(ts, i).value].kids)
    && (forall i, j :: 0 <= i < |ts| && 0 <= j < |ts[i].kids| ==>
          KidLinked(ts, i, ts[i].kids[j]))
  }

  ghost predicate KidLinked(ts: seq<Table>, i: int, k: int) {
    0 <= i < k < |ts| && ts[k].parent == Some(i)
  }

  /** Two arenas with the same scopes, linked the same way. */
  ghost predicate SameShape(ts: seq<Table>, r: seq<Table>) {
    |r| == |ts| && forall i :: 0 <= i < |ts| ==> r[i].parent == ts[i].parent && r[i].kids == ts[i].kids
  }

  /** The declarations under `name` in scope `t`, empty when there are none. */
  function Declarations(ts: seq<Table>, t: nat, name: string): seq<Decl>
    requires t < |ts|
  {
    if name in ts[t].symbols then ts[t].symbols[name] else []
  }

  function Fresh(name: string, owner: NodeId, parent: Option<nat>): Table {
    Table(name, owner, parent, [], map[], [])
  }

  /** `SymbolTable(name, owner)`: a new root scope. */
  function NewRoot(ts: seq<Table>, name: string, owner: NodeId): (r: seq<Table>)
    requires WellLinked(ts)
    ensures WellLinked(r)
    ensures |r| == |ts| + 1 && r[..|ts|] == ts
    ensures r[|ts|].parent.None? && r[|ts|].symbols == map[] && r[|ts|].kids == []
  {
    var r := ts + [Fresh(name, owner, None)];
    forall i | 0 <= i < |r| && ParentOf(r, i).Some?
      ensures ParentOf(r, i).value < i && i in r[ParentOf(r, i).value].kids
    {
      assert ParentOf(r, i) == ParentOf(ts, i);
    }
    forall i, j | 0 <= i < |r| && 0 <= j < |r[i].kids|
      ensures KidLinked(r, i, r[i].kids[j])
    {
      assert KidLinked(ts, i, ts[i].kids[j]);
    }
    r
  }

  /** `push_kid_scope`: a new empty scope whose parent is `p`, recorded
      among `p`'s children; no other scope changes. */
  function PushKid(ts: seq<Table>, p: nat, name: string, owner: NodeId): (r: seq<Table>)
    requires WellLinked(ts) && p < |ts|
    ensures WellLinked(r)
    ensures |r| == |ts| + 1
    ensures r[|ts|] == Fresh(name, owner, Some(p))
    ensures r[p].kids == ts[p].kids + [|ts|]
    ensures r[p].symbols == ts[p].symbols && r[p].parent == ts[p].parent
    ensures forall i :: 0 <= i < |ts| && i != p ==> r[i] == ts[i]
  {
    var r := ts[p := ts[p].(kids := ts[p].kids + [|ts|])] + [Fresh(name, owner, Some(p))];
    PushKidLinked(ts, p, r);
    r
  }

  lemma PushKidLinked(ts: seq<Table>, p: nat, r: seq<Table>)
    requires WellLinked(ts) && p < |ts|
    requires |r| == |ts| + 1 && r[|ts|].parent == Some(p) && r[|ts|].kids == []
    requires r[p].kids == ts[p].kids + [|ts|] && r[p].parent == ts[p].parent
    requires forall i :: 0 <= i < |ts| && i != p ==> r[i] == ts[i]
    ensures WellLinked(r)
  {
    forall i | 0 <= i < |r| && ParentOf(r, i).Some?
      ensures ParentOf(r, i).value < i && i in r[ParentOf(r, i).value].kids
    {
      if i < |ts| {
        assert ParentOf(ts, i) == ParentOf(r, i);
        var q := ts[i].parent.value;
        assert i in ts[q].kids;
        assert ts[q].kids <= r[q].kids;
      }
    }
    forall i, j | 0 <= i < |r| && 0 <= j < |r[i].kids|
      ensures KidLinked(r, i, r[i].kids[j])
    {
      if i == p && j == |ts[p].kids| {
      } else {
        assert i < |ts|;
        assert r[i].kids[j] == ts[i].kids[j];
        var k := ts[i].kids[j];
        assert KidLinked(ts, i, k);
        if k != p {
          assert r[k] == ts[k];
        }
      }
    }
  }

  /** `def_insert`: append `d` to the declarations of `name` in scope `t`;
      nothing else in any scope changes. */
  function DefInsert(ts: seq<Table>, t: nat, name: string, d: Decl): (r: seq<Table>)
    requires t < |ts|
    ensures |r| == |ts|
    ensures Declarations(r, t, name) == Declarations(ts, t, name) + [d]
    ensures forall n :: n != name ==> Declarations(r, t, n) == Declarations(ts, t, n)
    ensures forall i :: 0 <= i < |ts| && i != t ==> r[i] == ts[i]
    ensures r[t].name == ts[t].name && r[t].owner == ts[t].owner
    ensures SameShape(ts, r)
    ensures WellLinked(ts) ==> WellLinked(r)
  {
    var r := ts[t := ts[t].(symbols := ts[t].symbols[name := Declarations(ts, t, name) + [d]])];
    SameLinks(ts, r);
    r
  }

  /** `inherit_sym_tab`: scope `t` now also sees the scope of module `src`. */
  function Inherit(ts: seq<Table>, t: nat, src: NodeId): (r: seq<Table>)
    requires t < |ts|
    ensures |r| == |ts|
    ensures r[t].inherits == ts[t].inherits + [src]
    ensures r[t].symbols == ts[t].symbols
    ensures forall i :: 0 <= i < |ts| && i != t ==> r[i] == ts[i]
    ensures SameShape(ts, r)
    ensures WellLinked(ts) ==> WellLinked(r)
  {
    var r := ts[t := ts[t].(inherits := ts[t].inherits + [src])];
    SameLinks(ts, r);
    r
  }

  /** Changing what scopes hold, but not how they are linked, keeps the
      arena well linked. */
  lemma SameLinks(ts: seq<Table>, r: seq<Table>)
    requires SameShape(ts, r)
    ensures WellLinked(ts) ==> WellLinked(r)
  {
    if WellLinked(ts) {
      forall i | 0 <= i < |r| && ParentOf(r, i).Some?
        ensures ParentOf(r, i).value < i && i in r[ParentOf(r, i).value].kids
      {
        assert ParentOf(ts, i) == ParentOf(r, i);
      }
      forall i, j | 0 <= i < |r| && 0 <= j < |r[i].kids|
        ensures KidLinked(r, i, r[i].kids[j])
      {
        assert r[i].kids == ts[i].kids;
        assert KidLinked(ts, i, ts[i].kids[j]);
      }
    }
  }

  /** The chain of scopes from `t` up to its root, `t` first. */
  function Ancestry(ts: seq<Table>, t: nat): (r: seq<nat>)
    requires WellLinked(ts) && t < |ts|
    ensures |r| >= 1 && r[0] == t
    ensures forall i :: 0 <= i < |r| ==> r[i] < |ts|
    ensures ts[r[|r| - 1]].parent.None?
    ensures forall i :: 0 <= i < |r| - 1 ==> ts[r[i]].parent == Some(r[i + 1])
    decreases t
  {
    match ParentOf(ts, t)
    case None => [t]
    case Some(p) => [t] + Ancestry(ts, p)
  }
}
