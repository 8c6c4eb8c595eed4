/** Access levels, permissions and anchors of the runtime: the anchor's
    identity (class and id), its stub, and the state it serialises. */
module Architype {
  import opened Common
  import Jid

  type Uuid = Jid.Uuid

  /** `AccessLevel`, an integer enumeration. */
  datatype AccessLevel = NoAccess | Read | Connect | Write

  function Value(l: AccessLevel): int {
    match l
    case NoAccess => -1
    case Read => 0
    case Connect => 1
    case Write => 2
  }

  function Name(l: AccessLevel): string {
    match l
    case NoAccess => "NO_ACCESS"
    case Read => "READ"
    case Connect => "CONNECT"
    case Write => "WRITE"
  }

  /** The levels are ordered by their values, from no access to write;
      distinct levels have distinct values. */
  lemma LevelOrder()
    ensures Value(NoAccess) < Value(Read) < Value(Connect) < Value(Write)
    ensures forall a: AccessLevel, b: AccessLevel :: Value(a) == Value(b) ==> a == b
  {
  }

  /** `AccessLevel(val)`: the level with that value; any other value is
      refused. */
  function OfValue(v: int): (r: Result<AccessLevel>)
    ensures r.Ok? <==> -1 <= v <= 2
    ensures r.Ok? ==> Value(r.value) == v
  {
    if v == -1 then Ok(NoAccess)
    else if v == 0 then Ok(Read)
    else if v == 1 then Ok(Connect)
    else if v == 2 then Ok(Write)
    else Err("is not a valid AccessLevel")
  }

  /** `AccessLevel[val]`: the level with that member name; any other name
      is refused. */
  function OfName(s: string): (r: Result<AccessLevel>)
    ensures r.Ok? ==> Name(r.value) == s
  {
    if s == "NO_ACCESS" then Ok(NoAccess)
    else if s == "READ" then Ok(Read)
    else if s == "CONNECT" then Ok(Connect)
    else if s == "WRITE" then Ok(Write)
    else Err(s)
  }

  /** The argument of `cast`: an integer, a string or a level. */
  datatype CastArg = IntArg(i: int) | StrArg(s: string) | LevelArg(l: AccessLevel)

  /** `AccessLevel.cast`. */
  function Cast(v: CastArg): Result<AccessLevel> {
    match v
    case IntArg(i) => OfValue(i)
    case StrArg(s) => OfName(s)
    case LevelArg(l) => Ok(l)
  }

  /** Casting a level, its value or its name gives back the level, and a
      name is accepted only when it is a member's name. */
  lemma CastRoundTrip(l: AccessLevel, s: string)
    ensures Cast(LevelArg(l)) == Ok(l)
    ensures Cast(IntArg(Value(l))) == Ok(l)
    ensures Cast(StrArg(Name(l))) == Ok(l)
    ensures Cast(StrArg(s)).Ok? <==> s in {"NO_ACCESS", "READ", "CONNECT", "WRITE"}
  {
  }

  /** `Access`: the level granted to each anchor key. */
  datatype Access = Access(anchors: map<string, AccessLevel>)

  /** `Access.check`: the stored level, or none for an absent key. */
  function Check(a: Access, key: string): (r: Option<AccessLevel>)
    ensures r.Some? <==> key in a.anchors
    ensures r.Some? ==> r.value == a.anchors[key]
  {
    if key in a.anchors then Some(a.anchors[key]) else None
  }

  /** Granting a level and checking it back. */
  lemma CheckGrant(a: Access, key: string, l: AccessLevel, other: string)
    requires other != key
    ensures Check(Access(a.anchors[key := l]), key) == Some(l)
    ensures Check(Access(a.anchors[key := l]), other) == Check(a, other)
  {
  }

  datatype Permission = Permission(all: AccessLevel, roots: Access)

  /** A default `Permission`: no access, and no root granted anything. */
  function DefaultPermission(): (p: Permission)
    ensures p.all == NoAccess && forall key :: Check(p.roots, key).None?
  {
    Permission(NoAccess, Access(map[]))
  }

  /** The class of an anchor. */
  datatype AnchorClass = NodeClass | EdgeClass | WalkerClass | ObjectClass | BaseClass

  /** An architype object's own attributes (the anchor's back-link is the
      `__jac__` attribute). */
  datatype Arch = Arch(className: string, attrs: map<string, string>)

  const JacAttr := "__jac__"

  /** An anchor: its class and id, and its fields when it is populated.
      An unpopulated anchor is a reference to be loaded on demand. */
  datatype Anchor = Anchor(cls: AnchorClass, id: Uuid, fields: Option<Fields>)

  datatype Fields = Fields(architype: Arch, root: Option<Uuid>, access: Permission,
                           persistent: bool, hash: int, extra: Extra)

  /** The fields of the anchor's subclass: a node's edges, an edge's ends
      and direction, or none. */
  datatype Extra =
    | NodeExtra(edges: seq<Anchor>)
    | EdgeExtra(source: Anchor, target: Anchor, isUndirected: bool)
    | NoExtra

  predicate IsPopulated(a: Anchor) {
    a.fields.Some?
  }

  /** An object compared with an anchor: another anchor, or anything else. */
  datatype Obj = AnchorObj(anchor: Anchor) | OtherObj

  /** `Anchor.__eq__`: same class and same id; never equal to a
      non-anchor. */
  predicate Eq(a: Anchor, o: Obj) {
    o.AnchorObj? && a.cls == o.anchor.cls && a.id == o.anchor.id
  }

  /** `Anchor.__hash__`: a function of the id alone. */
  function Hash(a: Anchor): Uuid {
    a.id
  }

  /** Equality is an equivalence, and equal anchors hash alike. */
  lemma EqIsEquivalence(a: Anchor, b: Anchor, c: Anchor)
    ensures Eq(a, AnchorObj(a))
    ensures Eq(a, AnchorObj(b)) ==> Eq(b, AnchorObj(a))
    ensures Eq(a, AnchorObj(b)) && Eq(b, AnchorObj(c)) ==> Eq(a, AnchorObj(c))
    ensures Eq(a, AnchorObj(b)) ==> Hash(a) == Hash(b)
    ensures !Eq(a, OtherObj)
  {
  }

  /** `make_stub`: a populated anchor gives a new unpopulated one of the
      same class and id; an unpopulated one gives itself. */
  function MakeStub(a: Anchor): (r: Anchor)
    ensures !IsPopulated(r) && Eq(r, AnchorObj(a))
  {
    if IsPopulated(a) then Anchor(a.cls, a.id, None) else a
  }

  /** Either way the stub is the bare reference to the anchor, so making
      a stub twice changes nothing. */
  lemma StubIsReference(a: Anchor)
    ensures MakeStub(a) == Anchor(a.cls, a.id, None)
    ensures MakeStub(MakeStub(a)) == MakeStub(a)
  {
  }

  /** The values of a serialised state. */
  datatype StateVal =
    | SId(id: Uuid)
    | SArch(arch: Arch)
    | SRoot(root: Option<Uuid>)
    | SAccess(access: Permission)
    | SBool(b: bool)
    | SAnchors(anchors: seq<Anchor>)
    | SAnchor(anchor: Anchor)

  /** The architype without its back-link to the anchor. */
  function Unlinked(x: Arch): (r: Arch)
    ensures r.className == x.className && JacAttr !in r.attrs
    ensures forall k :: k in x.attrs && k != JacAttr ==> k in r.attrs && r.attrs[k] == x.attrs[k]
    ensures r.attrs.Keys <= x.attrs.Keys
  {
    Arch(x.className, x.attrs - {JacAttr})
  }

  function Stubs(xs: seq<Anchor>): (r: seq<Anchor>)
    ensures |r| == |xs| && forall i :: 0 <= i < |xs| ==> r[i] == MakeStub(xs[i])
  {
    seq(|xs|, i requires 0 <= i < |xs| => MakeStub(xs[i]))
  }

  /** `__getstate__` of `Anchor`, `NodeAnchor` and `EdgeAnchor`: just the
      id when unpopulated; otherwise the id, the unlinked architype, root,
      access and persistence, plus the stubbed edges of a node or the
      stubbed ends and direction of an edge. */
  function GetState(a: Anchor): map<string, StateVal> {
    if !IsPopulated(a) then map["id" := SId(a.id)]
    else
      var f := a.fields.value;
      var base := map["id" := SId(a.id), "architype" := SArch(Unlinked(f.architype)), "root" := SRoot(f.root),
                      "access" := SAccess(f.access), "persistent" := SBool(f.persistent)];
      match a.cls
      case NodeClass => if f.extra.NodeExtra? then base["edges" := SAnchors(Stubs(f.extra.edges))] else base
      case EdgeClass =>
        if f.extra.EdgeExtra?
        then base["source" := SAnchor(MakeStub(f.extra.source))]["target" := SAnchor(MakeStub(f.extra.target))]
                 ["is_undirected" := SBool(f.extra.isUndirected)]
        else base
      case _ => base
  }

  /** The keys a state holds, by class and population. */
  function StateKeys(cls: AnchorClass, populated: bool): set<string> {
    if !populated then {"id"}
    else
      var base := {"id", "architype", "root", "access", "persistent"};
      match cls
      case NodeClass => base + {"edges"}
      case EdgeClass => base + {"source", "target", "is_undirected"}
      case _ => base
  }

  /** A node anchor holds edges and an edge anchor its ends and direction. */
  predicate WellFormed(a: Anchor) {
    a.fields.Some? ==>
      (a.cls == NodeClass ==> a.fields.value.extra.NodeExtra?)
      && (a.cls == EdgeClass ==> a.fields.value.extra.EdgeExtra?)
  }

  /** The state holds exactly the keys of its class and population; it
      keeps the anchor's id; the architype in it has no back-link; and
      every anchor it refers to is an unpopulated stub equal to the one
      referred to. */
  lemma GetStateShape(a: Anchor)
    requires WellFormed(a)
    ensures GetState(a).Keys == StateKeys(a.cls, IsPopulated(a))
    ensures GetState(a)["id"] == SId(a.id)
    ensures IsPopulated(a) ==> GetState(a)["architype"].SArch? && JacAttr !in GetState(a)["architype"].arch.attrs
    ensures a.cls == NodeClass && IsPopulated(a) ==>
              var es := GetState(a)["edges"].anchors;
              var edges := a.fields.value.extra.edges;
              |es| == |edges| && forall i :: 0 <= i < |es| ==> !IsPopulated(es[i]) && Eq(es[i], AnchorObj(edges[i]))
    ensures a.cls == EdgeClass && IsPopulated(a) ==>
              !IsPopulated(GetState(a)["source"].anchor) && Eq(GetState(a)["source"].anchor, AnchorObj(a.fields.value.extra.source))
              && !IsPopulated(GetState(a)["target"].anchor) && Eq(GetState(a)["target"].anchor, AnchorObj(a.fields.value.extra.target))
  {
  }
}
