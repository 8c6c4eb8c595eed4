/** The Jac-to-Python link pass: every Jac node gets the list of Python
    nodes generated for it (`gen.py_ast`), and every Python node whose
    `jac_link` is a list learns, at its end, each Jac node linked to it. */
module PyJacLink {
  import opened Common
  import opened Ast

  /** A generated Python node. */
  type PyId = nat

  /** The links as a value: each Jac node's Python nodes, and the
      `jac_link` list of each Python node that has a list there (a Python
      node without one is absent). */
  datatype Links = Links(pyAst: map<NodeId, seq<PyId>>, jacLink: map<PyId, seq<NodeId>>)

  /** `node.gen.py_ast`: a node nothing was generated for has the empty
      list. */
  function PyAstOf(s: Links, n: NodeId): seq<PyId> {
    if n in s.pyAst then s.pyAst[n] else []
  }

  /** Append `jac` to the `jac_link` list of `p`, when `p` has one. */
  function LinkOne(links: map<PyId, seq<NodeId>>, p: PyId, jac: NodeId): map<PyId, seq<NodeId>> {
    if p in links then links[p := links[p] + [jac]] else links
  }

  /** Append `jac` to the list of every Python node of `pys`, in order. */
  function LinkEach(links: map<PyId, seq<NodeId>>, pys: seq<PyId>, jac: NodeId): (r: map<PyId, seq<NodeId>>)
    ensures r.Keys == links.Keys
    decreases |pys|
  {
    if pys == [] then links
    else LinkOne(LinkEach(links, pys[..|pys| - 1], jac), pys[|pys| - 1], jac)
  }

  /** Each list gets `jac` appended once per occurrence of its node
      among `pys`, and nothing else. */
  lemma {:induction false} LinkEachAppends(links: map<PyId, seq<NodeId>>, pys: seq<PyId>, jac: NodeId)
    ensures forall p :: p in links ==> LinkEach(links, pys, jac)[p] == links[p] + Repeat(jac, Count(pys, p))
    decreases |pys|
  {
    if pys != [] {
      var init, last := pys[..|pys| - 1], pys[|pys| - 1];
      LinkEachAppends(links, init, jac);
      assert init + [last] == pys;
      forall p | p in links
        ensures LinkEach(links, pys, jac)[p] == links[p] + Repeat(jac, Count(pys, p))
      {
        CountSnoc(init, last, p);
        RepeatSnoc(jac, Count(init, p));
      }
    }
  }

  /** `link_jac_py_nodes`: the Jac node's Python nodes become exactly
      `pys`, and `jac` is appended to each of their lists. */
  function Link(s: Links, jac: NodeId, pys: seq<PyId>): Links {
    Links(s.pyAst[jac := pys], LinkEach(s.jacLink, pys, jac))
  }

  /** After linking, the Jac node leads to exactly `pys`, every other Jac
      node keeps its Python nodes, and each Python node of `pys` that has
      a list ends with `jac`. */
  lemma LinkSpec(s: Links, jac: NodeId, pys: seq<PyId>)
    ensures PyAstOf(Link(s, jac, pys), jac) == pys
    ensures forall n :: n != jac ==> PyAstOf(Link(s, jac, pys), n) == PyAstOf(s, n)
    ensures forall p :: p in pys && p in s.jacLink ==>
              var l := Link(s, jac, pys).jacLink[p]; l != [] && l[|l| - 1] == jac
    ensures forall p :: p !in pys && p in s.jacLink ==> Link(s, jac, pys).jacLink[p] == s.jacLink[p]
  {
    LinkEachAppends(s.jacLink, pys, jac);
    forall p | p in pys
      ensures Count(pys, p) > 0
    {
      CountPositive(pys, p);
    }
    forall p | p !in pys
      ensures Count(pys, p) == 0
    {
      CountPositive(pys, p);
    }
  }

  /** The linking of one Jac node only ever extends `jac_link` lists. */
  predicate Extends(s: Links, t: Links) {
    s.jacLink.Keys == t.jacLink.Keys
    && forall p :: p in s.jacLink ==> s.jacLink[p] <= t.jacLink[p]
  }

  lemma LinkExtends(s: Links, jac: NodeId, pys: seq<PyId>)
    ensures Extends(s, Link(s, jac, pys))
  {
    LinkEachAppends(s.jacLink, pys, jac);
  }

  /** An architype reference of a definition's target: the reference, its
      name spec, and the declaration of the symbol it names, when it names
      one. */
  datatype ArchRefInfo = ArchRefInfo(node: NodeId, nameSpec: NodeId, decl: Option<NodeId>)

  /** The target loop of `exit_arch_def`, `exit_enum_def` and
      `exit_ability_def`: a reference naming a symbol, and its name spec,
      get the Python nodes of the symbol's declaration. */
  function ArchLinks(s: Links, archs: seq<ArchRefInfo>): Links
    decreases |archs|
  {
    if archs == [] then s
    else
      var s1 := ArchLinks(s, archs[..|archs| - 1]);
      var a := archs[|archs| - 1];
      if a.decl.Some? then
        var pys := PyAstOf(s1, a.decl.value);
        Link(Link(s1, a.node, pys), a.nameSpec, PyAstOf(Link(s1, a.node, pys), a.decl.value))
      else s1
  }

  /** A reference whose name has no symbol is left unlinked. */
  lemma {:induction false} ArchLinksSkips(s: Links, archs: seq<ArchRefInfo>)
    requires forall i :: 0 <= i < |archs| ==> archs[i].decl.None?
    ensures ArchLinks(s, archs) == s
    decreases |archs|
  {
    if archs != [] {
      ArchLinksSkips(s, archs[..|archs| - 1]);
    }
  }

  /** A parameter of a signature: the parameter node, its name node and
      its symbol name. */
  datatype Param = Param(node: NodeId, nameNode: NodeId, name: string)

  /** A signature: a function signature with its parameters (empty when
      it has none) and return type, or an event signature. */
  datatype Sig = FuncSig(params: seq<Param>, returnType: Option<NodeId>) | EventSig

  /** What an ability definition's `decl_link` is: an ability with its
      signature (when it has one), or something else. */
  datatype DeclLink = AbilityDecl(sig: Option<Sig>) | OtherDecl

  /** The declaration parameters that `a` matches by name, in order. */
  function Matches(a: Param, trg: seq<Param>): (r: seq<(Param, Param)>)
    decreases |trg|
  {
    if trg == [] then []
    else Matches(a, trg[..|trg| - 1]) + (if a.name == trg[|trg| - 1].name then [(a, trg[|trg| - 1])] else [])
  }

  /** The (definition, declaration) parameter pairs the nested parameter
      loop links, in the loop's order. */
  function ParamPairs(src: seq<Param>, trg: seq<Param>): seq<(Param, Param)>
    decreases |src|
  {
    if src == [] then [] else ParamPairs(src[..|src| - 1], trg) + Matches(src[|src| - 1], trg)
  }

  lemma {:induction false} MatchesIff(a: Param, trg: seq<Param>, pr: (Param, Param))
    ensures pr in Matches(a, trg) <==> pr.0 == a && pr.1 in trg && a.name == pr.1.name
    decreases |trg|
  {
    if trg != [] {
      MatchesIff(a, trg[..|trg| - 1], pr);
      assert trg == trg[..|trg| - 1] + [trg[|trg| - 1]];
    }
  }

  /** A definition parameter is paired with every declaration parameter
      of the same name, and only with those. */
  lemma {:induction false} ParamPairsIff(src: seq<Param>, trg: seq<Param>, pr: (Param, Param))
    ensures pr in ParamPairs(src, trg) <==> pr.0 in src && pr.1 in trg && pr.0.name == pr.1.name
    decreases |src|
  {
    if src != [] {
      ParamPairsIff(src[..|src| - 1], trg, pr);
      MatchesIff(src[|src| - 1], trg, pr);
      assert src == src[..|src| - 1] + [src[|src| - 1]];
    }
  }

  /** Link one matching pair: the definition parameter gets the
      declaration parameter's Python nodes, and so does its name. */
  function PairLink(s: Links, pr: (Param, Param)): Links {
    var s1 := Link(s, pr.0.node, PyAstOf(s, pr.1.node));
    Link(s1, pr.0.nameNode, PyAstOf(s1, pr.1.nameNode))
  }

  function PairLinks(s: Links, prs: seq<(Param, Param)>): Links
    decreases |prs|
  {
    if prs == [] then s else PairLink(PairLinks(s, prs[..|prs| - 1]), prs[|prs| - 1])
  }

  lemma {:induction false} PairLinksAppend(s: Links, xs: seq<(Param, Param)>, ys: seq<(Param, Param)>)
    ensures PairLinks(s, xs + ys) == PairLinks(PairLinks(s, xs), ys)
    decreases |ys|
  {
    if ys != [] {
      PairLinksAppend(s, xs, ys[..|ys| - 1]);
      assert (xs + ys)[..|xs + ys| - 1] == xs + ys[..|ys| - 1];
    } else {
      assert xs + ys == xs;
    }
  }

  /** `exit_ability_def`: the target's references first; then, when the
      declaration is an ability with a signature, the matching parameters
      (when both sides are function signatures with parameters) and the
      return types (when both sides have one). */
  function AbilityDefLinks(s: Links, archs: seq<ArchRefInfo>, sig: Option<Sig>, decl: DeclLink): Links {
    var s1 := ArchLinks(s, archs);
    if decl.AbilityDecl? && decl.sig.Some? then
      var dsig := decl.sig.value;
      var s2 :=
        if sig.Some? && sig.value.FuncSig? && dsig.FuncSig?
        then PairLinks(s1, ParamPairs(sig.value.params, dsig.params))
        else s1;
      if sig.Some? && sig.value.FuncSig? && sig.value.returnType.Some?
         && dsig.FuncSig? && dsig.returnType.Some?
      then Link(s2, sig.value.returnType.value, PyAstOf(s2, dsig.returnType.value))
      else s2
    else s1
  }

  /** Return types are linked only when both signatures have one: when
      either lacks it, the definition's links are those of the references
      and parameters alone. */
  lemma ReturnTypeNeedsBoth(s: Links, archs: seq<ArchRefInfo>, sig: Option<Sig>, decl: DeclLink)
    requires decl.AbilityDecl? && decl.sig.Some? && sig.Some? && sig.value.FuncSig? && decl.sig.value.FuncSig?
    requires sig.value.returnType.None? || decl.sig.value.returnType.None?
    ensures AbilityDefLinks(s, archs, sig, decl)
            == PairLinks(ArchLinks(s, archs), ParamPairs(sig.value.params, decl.sig.value.params))
  {
  }

  /** A definition whose declaration is not an ability with a signature
      links only its target's references. */
  lemma NoDeclNoParams(s: Links, archs: seq<ArchRefInfo>, sig: Option<Sig>, decl: DeclLink)
    requires !(decl.AbilityDecl? && decl.sig.Some?)
    ensures AbilityDefLinks(s, archs, sig, decl) == ArchLinks(s, archs)
  {
  }

  /** The uses `exit_ability_def` records: the name of each reference of
      the target that names a symbol, when the declaration is an ability
      and the target a reference chain. */
  function ArchUses(archs: seq<ArchRefInfo>): (r: seq<NodeId>)
    ensures |r| <= |archs|
    decreases |archs|
  {
    if archs == [] then []
    else ArchUses(archs[..|archs| - 1]) + (if archs[|archs| - 1].decl.Some? then [archs[|archs| - 1].nameSpec] else [])
  }

  /** A name is recorded exactly when it belongs to a reference naming a
      symbol. */
  lemma {:induction false} ArchUsesIff(archs: seq<ArchRefInfo>, n: NodeId)
    ensures n in ArchUses(archs) <==> exists i :: 0 <= i < |archs| && archs[i].decl.Some? && archs[i].nameSpec == n
    decreases |archs|
  {
    if archs != [] {
      var init := archs[..|archs| - 1];
      ArchUsesIff(init, n);
      if n in ArchUses(init) {
        var i :| 0 <= i < |init| && init[i].decl.Some? && init[i].nameSpec == n;
        assert archs[i] == init[i];
      }
      if exists i :: 0 <= i < |archs| && archs[i].decl.Some? && archs[i].nameSpec == n {
        var i :| 0 <= i < |archs| && archs[i].decl.Some? && archs[i].nameSpec == n;
        if i < |archs| - 1 {
          assert init[i] == archs[i];
        }
      }
    }
  }

  /** `exit_global_stmt` and `exit_non_local_stmt`: the i-th target gets
      the singleton list of the statement's i-th Python node, for as many
      targets as there are Python nodes. */
  function TargetLinks(s: Links, targets: seq<NodeId>, pys: seq<PyId>): Links
    requires |targets| <= |pys|
    decreases |targets|
  {
    if targets == [] then s
    else Link(TargetLinks(s, targets[..|targets| - 1], pys), targets[|targets| - 1], [pys[|targets| - 1]])
  }

  /** With distinct targets, each target ends up linked to exactly the
      Python node at its own position. */
  lemma {:induction false} TargetLinksSpec(s: Links, targets: seq<NodeId>, pys: seq<PyId>)
    requires |targets| <= |pys| && NoDup(targets)
    ensures forall i :: 0 <= i < |targets| ==> PyAstOf(TargetLinks(s, targets, pys), targets[i]) == [pys[i]]
    ensures forall n :: n !in targets ==> PyAstOf(TargetLinks(s, targets, pys), n) == PyAstOf(s, n)
    decreases |targets|
  {
    if targets != [] {
      var k := |targets| - 1;
      var init := targets[..k];
      assert NoDup(init) by {
        forall i, j | 0 <= i < j < |init| ensures init[i] != init[j] {
          assert init[i] == targets[i] && init[j] == targets[j];
        }
      }
      TargetLinksSpec(s, init, pys);
      var s1 := TargetLinks(s, init, pys);
      LinkSpec(s1, targets[k], [pys[k]]);
      forall i | 0 <= i < k
        ensures PyAstOf(TargetLinks(s, targets, pys), targets[i]) == [pys[i]]
      {
        assert targets[i] == init[i] && targets[i] != targets[k];
      }
      forall n | n !in targets
        ensures PyAstOf(TargetLinks(s, targets, pys), n) == PyAstOf(s, n)
      {
        assert n !in init && n != targets[k];
      }
    }
  }

  /** The pass's state: the links, and the name nodes whose symbols have
      had a use recorded, in order. */
  class Linker {
    var pyAst: map<NodeId, seq<PyId>>
    var jacLink: map<PyId, seq<NodeId>>
    var uses: seq<NodeId>

    function State(): Links
      reads this
    {
      Links(pyAst, jacLink)
    }

    constructor(pyAst0: map<NodeId, seq<PyId>>, jacLink0: map<PyId, seq<NodeId>>)
      ensures State() == Links(pyAst0, jacLink0) && uses == []
    {
      pyAst := pyAst0;
      jacLink := jacLink0;
      uses := [];
    }

    /** `link_jac_py_nodes`. */
    method LinkNodes(jac: NodeId, pys: seq<PyId>)
      modifies this
      ensures State() == Link(old(State()), jac, pys) && uses == old(uses)
    {
      pyAst := pyAst[jac := pys];
      var i := 0;
      while i < |pys|
        invariant 0 <= i <= |pys|
        invariant pyAst == old(pyAst)[jac := pys] && uses == old(uses)
        invariant jacLink == LinkEach(old(jacLink), pys[..i], jac)
      {
        assert pys[..i + 1][..i] == pys[..i];
        if pys[i] in jacLink {
          jacLink := jacLink[pys[i] := jacLink[pys[i]] + [jac]];
        }
        i := i + 1;
      }
      assert pys[..|pys|] == pys;
    }

    /** `node.gen.py_ast`. */
    function PyAst(n: NodeId): seq<PyId>
      reads this
    {
      PyAstOf(State(), n)
    }

    /** `exit_module_path`, `exit_except` and `exit_k_w_pair`: the alias,
        the exception name or the key, when there is one, gets the node's
        Python nodes. */
    method ExitOptional(node: NodeId, sub: Option<NodeId>)
      modifies this
      ensures State() == (if sub.Some? then Link(old(State()), sub.value, PyAstOf(old(State()), node)) else old(State()))
      ensures uses == old(uses)
    {
      if sub.Some? {
        LinkNodes(sub.value, PyAst(node));
      }
    }

    /** `exit_param_var`: the parameter's name gets the parameter's Python
        nodes. */
    method ExitParamVar(node: NodeId, name: NodeId)
      modifies this
      ensures State() == Link(old(State()), name, PyAstOf(old(State()), node)) && uses == old(uses)
    {
      LinkNodes(name, PyAst(node));
    }

    /** `exit_architype`, `exit_ability`, `exit_expr_as_item`: the name
        (or expression) gets the node's Python nodes, and so does the
        second node when there is one (a body that is a definition, an
        alias). */
    method ExitNamed(node: NodeId, name: NodeId, second: Option<NodeId>)
      modifies this
      ensures var s1 := Link(old(State()), name, PyAstOf(old(State()), node));
              State() == (if second.Some? then Link(s1, second.value, PyAstOf(s1, node)) else s1)
      ensures uses == old(uses)
    {
      LinkNodes(name, PyAst(node));
      if second.Some? {
        LinkNodes(second.value, PyAst(node));
      }
    }

    /** `exit_enum`: a body that is a definition gets the enum's Python
        nodes. */
    method ExitEnum(node: NodeId, body: Option<NodeId>)
      modifies this
      ensures State() == (if body.Some? then Link(old(State()), body.value, PyAstOf(old(State()), node)) else old(State()))
      ensures uses == old(uses)
    {
      ExitOptional(node, body);
    }

    /** `exit_atom_trailer`: an attribute access whose right side is a
        symbol node links that node's name spec. */
    method ExitAtomTrailer(node: NodeId, isAttr: bool, rightNameSpec: Option<NodeId>)
      modifies this
      ensures State() == (if isAttr && rightNameSpec.Some?
                          then Link(old(State()), rightNameSpec.value, PyAstOf(old(State()), node))
                          else old(State()))
      ensures uses == old(uses)
    {
      if isAttr && rightNameSpec.Some? {
        LinkNodes(rightNameSpec.value, PyAst(node));
      }
    }

    /** The target loop shared by the definition handlers. */
    method LinkArchs(archs: seq<ArchRefInfo>)
      modifies this
      ensures State() == ArchLinks(old(State()), archs) && uses == old(uses)
    {
      var i := 0;
      while i < |archs|
        invariant 0 <= i <= |archs| && uses == old(uses)
        invariant State() == ArchLinks(old(State()), archs[..i])
      {
        assert archs[..i + 1][..i] == archs[..i];
        var a := archs[i];
        if a.decl.Some? {
          LinkNodes(a.node, PyAst(a.decl.value));
          LinkNodes(a.nameSpec, PyAst(a.decl.value));
        }
        i := i + 1;
      }
      assert archs[..|archs|] == archs;
    }

    /** `exit_arch_def` and `exit_enum_def`. */
    method ExitArchDef(archs: seq<ArchRefInfo>)
      modifies this
      ensures State() == ArchLinks(old(State()), archs) && uses == old(uses)
    {
      LinkArchs(archs);
    }

    /** The nested parameter loop of `exit_ability_def`. */
    method LinkParams(src: seq<Param>, trg: seq<Param>)
      modifies this
      ensures State() == PairLinks(old(State()), ParamPairs(src, trg)) && uses == old(uses)
    {
      var i := 0;
      while i < |src|
        invariant 0 <= i <= |src| && uses == old(uses)
        invariant State() == PairLinks(old(State()), ParamPairs(src[..i], trg))
      {
        assert src[..i + 1][..i] == src[..i];
        ghost var before := State();
        var j := 0;
        while j < |trg|
          invariant 0 <= j <= |trg| && uses == old(uses)
          invariant State() == PairLinks(before, Matches(src[i], trg[..j]))
        {
          assert trg[..j + 1][..j] == trg[..j];
          ghost var prs := Matches(src[i], trg[..j]);
          if src[i].name == trg[j].name {
            assert (prs + [(src[i], trg[j])])[..|prs|] == prs;
            LinkNodes(src[i].node, PyAst(trg[j].node));
            LinkNodes(src[i].nameNode, PyAst(trg[j].nameNode));
          } else {
            assert prs + [] == prs;
          }
          j := j + 1;
        }
        assert trg[..|trg|] == trg;
        PairLinksAppend(old(State()), ParamPairs(src[..i], trg), Matches(src[i], trg));
        i := i + 1;
      }
      assert src[..|src|] == src;
    }

    /** `exit_ability_def`. */
    method ExitAbilityDef(archs: seq<ArchRefInfo>, sig: Option<Sig>, decl: DeclLink, targetIsChain: bool)
      modifies this
      ensures State() == AbilityDefLinks(old(State()), archs, sig, decl)
      ensures uses == old(uses) + (if decl.AbilityDecl? && targetIsChain then ArchUses(archs) else [])
    {
      LinkArchs(archs);
      if decl.AbilityDecl? && decl.sig.Some? {
        var dsig := decl.sig.value;
        if sig.Some? && sig.value.FuncSig? && dsig.FuncSig? {
          LinkParams(sig.value.params, dsig.params);
        }
        if sig.Some? && sig.value.FuncSig? && sig.value.returnType.Some?
           && dsig.FuncSig? && dsig.returnType.Some? {
          LinkNodes(sig.value.returnType.value, PyAst(dsig.returnType.value));
        }
      }
      if decl.AbilityDecl? && targetIsChain {
        RecordUses(archs);
      }
    }

    /** The use loop of `exit_ability_def`: each reference naming a symbol
        records a use of its name. */
    method RecordUses(archs: seq<ArchRefInfo>)
      modifies this`uses
      ensures uses == old(uses) + ArchUses(archs)
    {
      var i := 0;
      while i < |archs|
        invariant 0 <= i <= |archs| && uses == old(uses) + ArchUses(archs[..i])
      {
        assert archs[..i + 1][..i] == archs[..i];
        if archs[i].decl.Some? {
          uses := uses + [archs[i].nameSpec];
        }
        i := i + 1;
      }
      assert archs[..|archs|] == archs;
    }

    /** `exit_global_stmt` and `exit_non_local_stmt`: fails (Python's
        index error) when there are fewer Python nodes than targets, after
        linking the targets that have one. */
    method ExitGlobalStmt(node: NodeId, targets: seq<NodeId>) returns (ok: bool)
      modifies this
      ensures ok <==> |targets| <= |PyAstOf(old(State()), node)|
      ensures var pys := PyAstOf(old(State()), node);
              var n := if |targets| <= |pys| then |targets| else |pys|;
              State() == TargetLinks(old(State()), targets[..n], pys)
      ensures uses == old(uses)
    {
      var pys := PyAst(node);
      var i := 0;
      while i < |targets|
        invariant 0 <= i <= |targets| && i <= |pys| && uses == old(uses)
        invariant State() == TargetLinks(old(State()), targets[..i], pys)
      {
        if i >= |pys| {
          return false;
        }
        assert targets[..i + 1][..i] == targets[..i];
        LinkNodes(targets[i], [pys[i]]);
        i := i + 1;
      }
      assert targets[..|targets|] == targets;
      return true;
    }
  }
}
