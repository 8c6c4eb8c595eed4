/** The actions optimizer's planning: which local/remote configurations of
    the active actions fit in the node's memory, the order in which the
    evaluation policy tries them, the change set that moves the current
    action modes to a configuration, and the policy state it keeps. */
module ActionsOptimizer {
  import opened Common

  const Policies: seq<string> := ["Default", "Evaluation", "Auto"]

  /** Defaults of the `node_mem` and `jaseci_runtime_mem` parameters. */
  const DefaultNodeMem := 999 * 1024
  const DefaultRuntimeMem := 300

  // ---------------------------------------------------------------------
  // Configurations

  /** Where an action runs in a configuration. */
  datatype Mode = Local | Remote

  /** A configuration: the local memory it needs and the mode of each
      active action, in the order of the active actions. */
  datatype Config = Config(localMem: int, modes: seq<Mode>)

  /** `local_mem < node_mem * NODE_MEM_THRESHOLD` with the threshold 0.8
      written as the ratio 4/5. */
  predicate Fits(localMem: int, nodeMem: int) {
    5 * localMem < 4 * nodeMem
  }

  /** The extensions of one configuration by the next action: local first,
      kept only when it fits, then remote. */
  function Options(c: Config, req: int, nodeMem: int): (r: seq<Config>)
    ensures 1 <= |r| <= 2 && r[|r| - 1] == Config(c.localMem, c.modes + [Remote])
  {
    var local := Config(c.localMem + req, c.modes + [Local]);
    var remote := Config(c.localMem, c.modes + [Remote]);
    if Fits(local.localMem, nodeMem) then [local, remote] else [remote]
  }

  /** One round of the enumeration: every configuration extended, in order. */
  function Expand(cs: seq<Config>, req: int, nodeMem: int): seq<Config> {
    if cs == [] then [] else Expand(cs[..|cs| - 1], req, nodeMem) + Options(cs[|cs| - 1], req, nodeMem)
  }

  /** The configurations enumerated for actions with the given memory
      requirements, starting from the runtime's own memory. */
  function Configs(reqs: seq<int>, runtime: int, nodeMem: int): seq<Config> {
    if reqs == [] then [Config(runtime, [])]
    else Expand(Configs(reqs[..|reqs| - 1], runtime, nodeMem), reqs[|reqs| - 1], nodeMem)
  }

  /** The memory the local actions of `modes` add up to. */
  function LocalSum(reqs: seq<int>, modes: seq<Mode>): int
    requires |reqs| == |modes|
  {
    if reqs == [] then 0
    else LocalSum(reqs[..|reqs| - 1], modes[..|modes| - 1]) + (if modes[|modes| - 1] == Local then reqs[|reqs| - 1] else 0)
  }

  /** Every choice of local for an action left the memory so far within
      the bound. */
  predicate PrefixFits(reqs: seq<int>, runtime: int, nodeMem: int, modes: seq<Mode>)
    requires |reqs| == |modes|
  {
    modes == []
    || (PrefixFits(reqs[..|reqs| - 1], runtime, nodeMem, modes[..|modes| - 1])
        && (modes[|modes| - 1] == Local ==> Fits(runtime + LocalSum(reqs, modes), nodeMem)))
  }

  /** A configuration the enumeration can produce: one mode per action, the
      runtime's memory plus that of the local actions, and every local
      choice within the bound when it was made. */
  predicate Feasible(reqs: seq<int>, runtime: int, nodeMem: int, c: Config) {
    |c.modes| == |reqs| && c.localMem == runtime + LocalSum(reqs, c.modes)
    && PrefixFits(reqs, runtime, nodeMem, c.modes)
  }

  lemma SnocPrefix<T>(xs: seq<T>, x: T)
    ensures (xs + [x])[..|xs|] == xs && (xs + [x])[|xs|] == x
  {
  }

  lemma {:induction false} ExpandMembers(cs: seq<Config>, req: int, nodeMem: int, x: Config)
    ensures x in Expand(cs, req, nodeMem) <==> exists j :: 0 <= j < |cs| && x in Options(cs[j], req, nodeMem)
    decreases |cs|
  {
    if cs != [] {
      var init := cs[..|cs| - 1];
      ExpandMembers(init, req, nodeMem, x);
      if x in Expand(cs, req, nodeMem) && x !in Options(cs[|cs| - 1], req, nodeMem) {
        var j :| 0 <= j < |init| && x in Options(init[j], req, nodeMem);
        assert cs[j] == init[j];
      }
      if exists j :: 0 <= j < |cs| && x in Options(cs[j], req, nodeMem) {
        var j :| 0 <= j < |cs| && x in Options(cs[j], req, nodeMem);
        if j < |cs| - 1 {
          assert init[j] == cs[j];
        }
      }
    }
  }

  lemma FeasibleSnoc(reqs: seq<int>, runtime: int, nodeMem: int, c: Config, r: int, m: Mode)
    requires |c.modes| == |reqs|
    ensures LocalSum(reqs + [r], c.modes + [m]) == LocalSum(reqs, c.modes) + (if m == Local then r else 0)
    ensures Feasible(reqs + [r], runtime, nodeMem,
                     Config(c.localMem + (if m == Local then r else 0), c.modes + [m]))
            <==> Feasible(reqs, runtime, nodeMem, c)
                 && (m == Local ==> Fits(c.localMem + r, nodeMem))
  {
    SnocPrefix(reqs, r);
    SnocPrefix(c.modes, m);
  }

  /** Every enumerated configuration is feasible. */
  lemma {:induction false} ConfigsSound(reqs: seq<int>, runtime: int, nodeMem: int, c: Config)
    requires c in Configs(reqs, runtime, nodeMem)
    ensures Feasible(reqs, runtime, nodeMem, c)
    decreases |reqs|
  {
    if reqs != [] {
      var init := reqs[..|reqs| - 1];
      var r := reqs[|reqs| - 1];
      assert reqs == init + [r];
      var cs := Configs(init, runtime, nodeMem);
      ExpandMembers(cs, r, nodeMem, c);
      var j :| 0 <= j < |cs| && c in Options(cs[j], r, nodeMem);
      ConfigsSound(init, runtime, nodeMem, cs[j]);
      OptionsFeasible(init, runtime, nodeMem, cs[j], r, c);
    }
  }

  /** Extending a feasible configuration keeps it feasible. */
  lemma OptionsFeasible(reqs: seq<int>, runtime: int, nodeMem: int, p: Config, r: int, c: Config)
    requires Feasible(reqs, runtime, nodeMem, p) && c in Options(p, r, nodeMem)
    ensures Feasible(reqs + [r], runtime, nodeMem, c)
  {
    if c == Config(p.localMem, p.modes + [Remote]) {
      FeasibleSnoc(reqs, runtime, nodeMem, p, r, Remote);
    } else {
      FeasibleSnoc(reqs, runtime, nodeMem, p, r, Local);
    }
  }

  /** Every feasible configuration is enumerated. */
  lemma {:induction false} ConfigsComplete(reqs: seq<int>, runtime: int, nodeMem: int, c: Config)
    requires Feasible(reqs, runtime, nodeMem, c)
    ensures c in Configs(reqs, runtime, nodeMem)
    decreases |reqs|
  {
    if reqs != [] {
      var init := reqs[..|reqs| - 1];
      var r := reqs[|reqs| - 1];
      assert reqs == init + [r];
      var cs := Configs(init, runtime, nodeMem);
      var m := c.modes[|c.modes| - 1];
      var p := Config(c.localMem - (if m == Local then r else 0), c.modes[..|c.modes| - 1]);
      assert c.modes == p.modes + [m];
      FeasibleSnoc(init, runtime, nodeMem, p, r, m);
      ConfigsComplete(init, runtime, nodeMem, p);
      var j := IndexOf(cs, p);
      assert c in Options(cs[j], r, nodeMem);
      ExpandMembers(cs, r, nodeMem, c);
    }
  }

  /** The enumeration yields exactly the feasible configurations: a
      configuration is dropped precisely when making one of its actions
      local overran the memory bound. */
  lemma ConfigsExactly(reqs: seq<int>, runtime: int, nodeMem: int, c: Config)
    ensures c in Configs(reqs, runtime, nodeMem) <==> Feasible(reqs, runtime, nodeMem, c)
  {
    if c in Configs(reqs, runtime, nodeMem) {
      ConfigsSound(reqs, runtime, nodeMem, c);
    }
    if Feasible(reqs, runtime, nodeMem, c) {
      ConfigsComplete(reqs, runtime, nodeMem, c);
    }
  }

  /** A configuration with some local action fits in the node's memory. */
  lemma {:induction false} FeasibleFits(reqs: seq<int>, runtime: int, nodeMem: int, c: Config)
    requires Feasible(reqs, runtime, nodeMem, c) && Local in c.modes
    ensures Fits(c.localMem, nodeMem)
    decreases |reqs|
  {
    var n := |reqs|;
    var m := c.modes[n - 1];
    if m == Remote {
      var p := Config(c.localMem, c.modes[..n - 1]);
      assert c.modes == p.modes + [Remote];
      FeasibleSnoc(reqs[..n - 1], runtime, nodeMem, p, reqs[n - 1], Remote);
      assert reqs[..n - 1] + [reqs[n - 1]] == reqs;
      FeasibleFits(reqs[..n - 1], runtime, nodeMem, p);
    }
  }

  lemma {:induction false} ExpandLength(cs: seq<Config>, req: int, nodeMem: int)
    ensures |cs| <= |Expand(cs, req, nodeMem)| <= 2 * |cs|
    ensures cs != [] ==> Expand(cs, req, nodeMem)[|Expand(cs, req, nodeMem)| - 1]
                         == Config(cs[|cs| - 1].localMem, cs[|cs| - 1].modes + [Remote])
    decreases |cs|
  {
    if cs != [] {
      ExpandLength(cs[..|cs| - 1], req, nodeMem);
    }
  }

  function Pow2(n: nat): nat {
    if n == 0 then 1 else 2 * Pow2(n - 1)
  }

  /** The all-remote configuration always survives and comes last, and
      there are between one and 2^n configurations. */
  lemma {:induction false} ConfigsCount(reqs: seq<int>, runtime: int, nodeMem: int)
    ensures 1 <= |Configs(reqs, runtime, nodeMem)| <= Pow2(|reqs|)
    ensures Configs(reqs, runtime, nodeMem)[|Configs(reqs, runtime, nodeMem)| - 1]
            == Config(runtime, Repeat(Remote, |reqs|))
    decreases |reqs|
  {
    if reqs != [] {
      var init := reqs[..|reqs| - 1];
      ConfigsCount(init, runtime, nodeMem);
      ExpandLength(Configs(init, runtime, nodeMem), reqs[|reqs| - 1], nodeMem);
      RepeatSnoc(Remote, |init|);
    }
  }

  /** The modes of each configuration, in order. */
  function ModesOf(cs: seq<Config>): (r: seq<seq<Mode>>)
    ensures |r| == |cs| && forall i :: 0 <= i < |cs| ==> r[i] == cs[i].modes
  {
    seq(|cs|, i requires 0 <= i < |cs| => cs[i].modes)
  }

  lemma {:induction false} ExpandParents(cs: seq<Config>, req: int, nodeMem: int, n: nat)
    requires forall i :: 0 <= i < |cs| ==> |cs[i].modes| == n
    ensures forall x :: x in Expand(cs, req, nodeMem) ==> |x.modes| == n + 1 && x.modes[..n] in ModesOf(cs)
  {
    forall x | x in Expand(cs, req, nodeMem)
      ensures |x.modes| == n + 1 && x.modes[..n] in ModesOf(cs)
    {
      ExpandMembers(cs, req, nodeMem, x);
      var j :| 0 <= j < |cs| && x in Options(cs[j], req, nodeMem);
      assert x.modes[..n] == cs[j].modes;
      assert ModesOf(cs)[j] == cs[j].modes;
    }
  }

  /** Configurations with distinct mode lists extend to configurations
      with distinct mode lists. */
  lemma {:induction false} ExpandNoDup(cs: seq<Config>, req: int, nodeMem: int, n: nat)
    requires forall i :: 0 <= i < |cs| ==> |cs[i].modes| == n
    requires NoDup(ModesOf(cs))
    ensures NoDup(ModesOf(Expand(cs, req, nodeMem)))
    decreases |cs|
  {
    if cs != [] {
      var init := cs[..|cs| - 1];
      var last := cs[|cs| - 1];
      assert ModesOf(init) == ModesOf(cs)[..|cs| - 1];
      ExpandNoDup(init, req, nodeMem, n);
      ExpandParents(init, req, nodeMem, n);
      var a := Expand(init, req, nodeMem);
      var b := Options(last, req, nodeMem);
      assert last.modes !in ModesOf(init);
      forall i, j | 0 <= i < j < |a + b|
        ensures ModesOf(a + b)[i] != ModesOf(a + b)[j]
      {
        if j >= |a| && i < |a| {
          assert (a + b)[i] in a && (a + b)[j].modes[..n] == last.modes;
        } else if i >= |a| {
          assert (a + b)[i].modes[n] != (a + b)[j].modes[n];
        } else {
          assert ModesOf(a)[i] != ModesOf(a)[j];
        }
      }
    }
  }

  lemma {:induction false} ConfigsNoDup(reqs: seq<int>, runtime: int, nodeMem: int)
    ensures NoDup(ModesOf(Configs(reqs, runtime, nodeMem)))
    ensures forall i :: 0 <= i < |Configs(reqs, runtime, nodeMem)| ==> |Configs(reqs, runtime, nodeMem)[i].modes| == |reqs|
    decreases |reqs|
  {
    if reqs != [] {
      var init := reqs[..|reqs| - 1];
      var cs := Configs(init, runtime, nodeMem);
      ConfigsNoDup(init, runtime, nodeMem);
      ExpandNoDup(cs, reqs[|reqs| - 1], nodeMem, |init|);
      ExpandParents(cs, reqs[|reqs| - 1], nodeMem, |init|);
      forall i | 0 <= i < |Configs(reqs, runtime, nodeMem)|
        ensures |Configs(reqs, runtime, nodeMem)[i].modes| == |reqs|
      {
        assert Configs(reqs, runtime, nodeMem)[i] in Expand(cs, reqs[|reqs| - 1], nodeMem);
      }
    }
  }

  /** The configurations are pairwise distinct. */
  lemma DistinctModesNoDup(cs: seq<Config>)
    requires NoDup(ModesOf(cs))
    ensures NoDup(cs)
  {
    forall i, j | 0 <= i < j < |cs| ensures cs[i] != cs[j] {
      assert ModesOf(cs)[i] != ModesOf(cs)[j];
    }
  }

  /** One round of the enumeration loop: each configuration so far
      extended by local (when it fits) and by remote. */
  method ExpandAll(all: seq<Config>, req: int, nodeMem: int) returns (next: seq<Config>)
    ensures next == Expand(all, req, nodeMem)
  {
    next := [];
    var j := 0;
    while j < |all|
      invariant 0 <= j <= |all|
      invariant next == Expand(all[..j], req, nodeMem)
    {
      var c := all[j];
      var local := Config(c.localMem + req, c.modes + [Local]);
      if Fits(local.localMem, nodeMem) {
        next := next + [local];
      }
      next := next + [Config(c.localMem, c.modes + [Remote])];
      assert all[..j + 1][..j] == all[..j];
      j := j + 1;
    }
    assert all[..|all|] == all;
  }

  /** The enumeration of `_init_evalution_policy`: each active action
      taken in turn, starting from the runtime's memory alone. */
  method EnumerateConfigs(reqs: seq<int>, runtime: int, nodeMem: int) returns (all: seq<Config>)
    ensures all == Configs(reqs, runtime, nodeMem)
  {
    all := [Config(runtime, [])];
    var i := 0;
    while i < |reqs|
      invariant 0 <= i <= |reqs|
      invariant all == Configs(reqs[..i], runtime, nodeMem)
    {
      all := ExpandAll(all, reqs[i], nodeMem);
      assert reqs[..i + 1][..i] == reqs[..i];
      i := i + 1;
    }
    assert reqs[..|reqs|] == reqs;
  }

  // ---------------------------------------------------------------------
  // Distance and the greedy evaluation order

  /** The number of action keys of the first mode list on which the second
      differs (a key the second lacks counts as a difference). */
  function DiffCount(a: seq<Mode>, b: seq<Mode>): nat {
    if a == [] then 0
    else DiffCount(a[..|a| - 1], b) + (if |a| - 1 >= |b| || a[|a| - 1] != b[|a| - 1] then 1 else 0)
  }

  /** `get_config_distance`: the keys of the first configuration, the
      memory key included, whose values differ in the second. */
  function Distance(a: Config, b: Config): nat {
    (if a.localMem != b.localMem then 1 else 0) + DiffCount(a.modes, b.modes)
  }

  lemma {:induction false} DiffCountFacts(a: seq<Mode>, b: seq<Mode>)
    requires |a| == |b|
    ensures DiffCount(a, b) == DiffCount(b, a)
    ensures DiffCount(a, b) == 0 <==> a == b
    ensures DiffCount(a, b) <= |a|
    decreases |a|
  {
    if a != [] {
      var n := |a| - 1;
      DiffCountFacts(a[..n], b[..n]);
      DiffCountPrefix(a[..n], b);
      DiffCountPrefix(b[..n], a);
      if a[..n] == b[..n] && a[n] == b[n] {
        assert a == a[..n] + [a[n]] && b == b[..n] + [b[n]];
      }
    }
  }

  lemma {:induction false} DiffCountPrefix(a: seq<Mode>, b: seq<Mode>)
    requires |a| <= |b|
    ensures DiffCount(a, b) == DiffCount(a, b[..|a|])
    decreases |a|
  {
    if a != [] {
      DiffCountPrefix(a[..|a| - 1], b);
      DiffCountPrefix(a[..|a| - 1], b[..|a|]);
      assert b[..|a|][..|a| - 1] == b[..|a| - 1];
    }
  }

  /** On configurations over the same actions the distance is symmetric,
      at most one more than the number of actions, and zero exactly for
      equal configurations. */
  lemma DistanceFacts(a: Config, b: Config)
    requires |a.modes| == |b.modes|
    ensures Distance(a, b) == Distance(b, a)
    ensures Distance(a, b) == 0 <==> a == b
    ensures Distance(a, b) <= |a.modes| + 1
  {
    DiffCountFacts(a.modes, b.modes);
  }

  /** `get_config_distance`, counting over the keys of the first
      configuration. */
  method ConfigDistance(a: Config, b: Config) returns (d: nat)
    requires |a.modes| == |b.modes|
    ensures d == Distance(a, b)
  {
    d := if a.localMem != b.localMem then 1 else 0;
    var i := 0;
    while i < |a.modes|
      invariant 0 <= i <= |a.modes|
      invariant d == (if a.localMem != b.localMem then 1 else 0) + DiffCount(a.modes[..i], b.modes)
    {
      if a.modes[i] != b.modes[i] {
        d := d + 1;
      }
      assert a.modes[..i + 1][..i] == a.modes[..i];
      i := i + 1;
    }
    assert a.modes[..|a.modes|] == a.modes;
  }

  /** The distance from a configuration to the nearest of `ps`. */
  function MinDist(c: Config, ps: seq<Config>): nat
    requires |ps| > 0
  {
    if |ps| == 1 then Distance(c, ps[0])
    else
      var m := MinDist(c, ps[..|ps| - 1]);
      var d := Distance(c, ps[|ps| - 1]);
      if d < m then d else m
  }

  /** `MinDist` is a lower bound of the distances and is attained. */
  lemma {:induction false} MinDistIsMin(c: Config, ps: seq<Config>)
    requires |ps| > 0
    ensures forall i :: 0 <= i < |ps| ==> MinDist(c, ps) <= Distance(c, ps[i])
    ensures exists i :: 0 <= i < |ps| && MinDist(c, ps) == Distance(c, ps[i])
    decreases |ps|
  {
    if |ps| > 1 {
      var init := ps[..|ps| - 1];
      MinDistIsMin(c, init);
      var k :| 0 <= k < |init| && MinDist(c, init) == Distance(c, init[k]);
      if Distance(c, ps[|ps| - 1]) >= MinDist(c, init) {
        assert ps[k] == init[k];
      }
      forall i | 0 <= i < |ps| - 1 ensures MinDist(c, ps) <= Distance(c, ps[i]) {
        assert ps[i] == init[i];
      }
    }
  }

  /** `min(get_config_distance(config, s) for s in sorted_configurations)`. */
  method MinDistance(c: Config, ps: seq<Config>) returns (m: nat)
    requires |ps| > 0 && forall i :: 0 <= i < |ps| ==> |ps[i].modes| == |c.modes|
    ensures m == MinDist(c, ps)
  {
    m := ConfigDistance(c, ps[0]);
    var i := 1;
    while i < |ps|
      invariant 1 <= i <= |ps|
      invariant m == MinDist(c, ps[..i])
    {
      var d := ConfigDistance(c, ps[i]);
      assert ps[..i + 1][..i] == ps[..i];
      if d < m {
        m := d;
      }
      i := i + 1;
    }
    assert ps[..|ps|] == ps;
  }

  /** `c` is the configuration the greedy loop picks after `prefix`: not
      yet chosen, at minimum distance to the chosen ones, and the earliest
      such in `all`. */
  predicate GreedyPick(all: seq<Config>, prefix: seq<Config>, c: Config)
    requires |prefix| > 0
  {
    c in all && c !in prefix
    && (forall k :: 0 <= k < |all| && all[k] !in prefix ==> MinDist(c, prefix) <= MinDist(all[k], prefix))
    && (forall k :: 0 <= k < IndexOf(all, c) && all[k] !in prefix ==> MinDist(c, prefix) < MinDist(all[k], prefix))
  }

  /** `order` is the evaluation order the greedy sort builds from `all`: a
      permutation of it that starts with its first configuration and picks
      each next one greedily. */
  ghost predicate GreedyOrder(all: seq<Config>, order: seq<Config>) {
    |order| == |all| && NoDup(order) && (forall c :: c in order <==> c in all)
    && |order| > 0 && order[0] == all[0]
    && forall i :: 1 <= i < |order| ==> GreedyPick(all, order[..i], order[i])
  }

  /** The elements of a list, as a set. */
  function Elems<T(==)>(s: seq<T>): set<T> {
    if s == [] then {} else {s[0]} + Elems(s[1..])
  }

  lemma {:induction false} ElemsMem<T>(s: seq<T>)
    ensures forall x :: x in Elems(s) <==> x in s
  {
    if s != [] {
      ElemsMem(s[1..]);
      assert s == [s[0]] + s[1..];
    }
  }

  lemma {:induction false} ElemsCard<T>(s: seq<T>)
    ensures |Elems(s)| <= |s|
    ensures NoDup(s) ==> |Elems(s)| == |s|
  {
    if s != [] {
      ElemsCard(s[1..]);
      if NoDup(s) {
        assert NoDup(s[1..]) by {
          forall i, j | 0 <= i < j < |s[1..]| ensures s[1..][i] != s[1..][j] {
            assert s[1..][i] == s[i + 1] && s[1..][j] == s[j + 1];
          }
        }
        ElemsMem(s[1..]);
        assert s[0] !in Elems(s[1..]) by {
          forall i | 0 <= i < |s[1..]| ensures s[1..][i] != s[0] {
            assert s[1..][i] == s[i + 1];
          }
        }
      }
    }
  }

  lemma ElemsSub<T>(a: seq<T>, b: seq<T>)
    requires forall x :: x in a ==> x in b
    ensures Elems(a) <= Elems(b)
  {
    ElemsMem(a);
    ElemsMem(b);
  }

  /** A duplicate-free list whose elements all occur in `b` is no longer
      than `b`. */
  lemma Pigeonhole<T>(a: seq<T>, b: seq<T>)
    requires NoDup(a) && forall x :: x in a ==> x in b
    ensures |a| <= |b|
  {
    ElemsCard(a);
    ElemsCard(b);
    ElemsSub(a, b);
    SubsetCard(Elems(a), Elems(b));
  }

  lemma {:induction false} SubsetCard<T>(x: set<T>, y: set<T>)
    requires x <= y
    ensures |x| <= |y|
    decreases |x|
  {
    if x != {} {
      var e :| e in x;
      SubsetCard(x - {e}, y - {e});
    }
  }

  lemma IndexOfNoDup<T>(s: seq<T>, i: int)
    requires NoDup(s) && 0 <= i < |s|
    ensures IndexOf(s, s[i]) == i
  {
    var k := IndexOf(s, s[i]);
    forall j | 0 <= j < k ensures s[j] != s[i] {
      assert s[..k][j] == s[j];
    }
  }

  /** One pass of the greedy loop over all configurations: the earliest
      one not yet chosen whose distance to the nearest chosen one is
      least. */
  method PickNext(all: seq<Config>, sorted: seq<Config>) returns (b: nat)
    requires |sorted| > 0 && NoDup(all) && exists k :: 0 <= k < |all| && all[k] !in sorted
    requires forall i :: 0 <= i < |all| ==> |all[i].modes| == |all[0].modes|
    requires forall c :: c in sorted ==> c in all
    ensures b < |all| && GreedyPick(all, sorted, all[b])
  {
    forall i | 0 <= i < |sorted| ensures |sorted[i].modes| == |all[0].modes| {
      assert all[IndexOf(all, sorted[i])] == sorted[i];
    }
    var best: Option<nat> := None;
    var minD := 0;
    var j := 0;
    while j < |all|
      invariant 0 <= j <= |all|
      invariant best.None? ==> forall k :: 0 <= k < j ==> all[k] in sorted
      invariant best.Some? ==> best.value < j && all[best.value] !in sorted && minD == MinDist(all[best.value], sorted)
      invariant best.Some? ==> forall k :: 0 <= k < j && all[k] !in sorted ==> minD <= MinDist(all[k], sorted)
      invariant best.Some? ==> forall k :: 0 <= k < best.value && all[k] !in sorted ==> minD < MinDist(all[k], sorted)
    {
      if all[j] !in sorted {
        var d := MinDistance(all[j], sorted);
        if best.None? || d < minD {
          best := Some(j);
          minD := d;
        }
      }
      j := j + 1;
    }
    b := best.value;
    IndexOfNoDup(all, b);
  }

  /** The greedy sort of `_init_evalution_policy`: start with the first
      configuration, then repeatedly append the earliest configuration not
      yet chosen whose distance to the nearest chosen one is least. */
  method GreedySort(all: seq<Config>) returns (sorted: seq<Config>)
    requires |all| > 0 && NoDup(all)
    requires forall i :: 0 <= i < |all| ==> |all[i].modes| == |all[0].modes|
    ensures GreedyOrder(all, sorted)
  {
    sorted := [all[0]];
    while |sorted| < |all|
      invariant 1 <= |sorted| <= |all|
      invariant NoDup(sorted) && (forall c :: c in sorted ==> c in all) && sorted[0] == all[0]
      invariant forall i :: 1 <= i < |sorted| ==> GreedyPick(all, sorted[..i], sorted[i])
      decreases |all| - |sorted|
    {
      Unchosen(all, sorted);
      var b := PickNext(all, sorted);
      GreedyStep(all, sorted, all[b]);
      sorted := sorted + [all[b]];
    }
    forall c | c in all ensures c in sorted {
      if c !in sorted {
        GreedyStep(all, sorted, c);
        Pigeonhole(sorted + [c], all);
      }
    }
  }

  /** While fewer configurations are chosen than there are, some
      configuration is not chosen yet. */
  lemma Unchosen(all: seq<Config>, sorted: seq<Config>)
    requires NoDup(all) && |sorted| < |all|
    ensures exists k :: 0 <= k < |all| && all[k] !in sorted
  {
    if forall k :: 0 <= k < |all| ==> all[k] in sorted {
      Pigeonhole(all, sorted);
    }
  }

  lemma GreedyStep(all: seq<Config>, sorted: seq<Config>, c: Config)
    requires |sorted| > 0 && NoDup(sorted) && c !in sorted
    requires forall i :: 1 <= i < |sorted| ==> GreedyPick(all, sorted[..i], sorted[i])
    ensures NoDup(sorted + [c]) && (sorted + [c])[0] == sorted[0]
    ensures (sorted + [c])[..|sorted|] == sorted
    ensures forall i :: 1 <= i < |sorted| ==> GreedyPick(all, (sorted + [c])[..i], (sorted + [c])[i])
  {
    forall i | 1 <= i < |sorted|
      ensures GreedyPick(all, (sorted + [c])[..i], (sorted + [c])[i])
    {
      assert (sorted + [c])[..i] == sorted[..i];
    }
  }

  // ---------------------------------------------------------------------
  // Change sets

  /** One entry of the change set: an action and its change, such as
      `"remote_to_module"` or `"_to_remote"`. */
  datatype Change = Change(name: string, kind: string)

  /** A desired mode: `"local"` is requested as `"module"`. */
  function Normalise(m: string): string {
    if m == "local" then "module" else m
  }

  /** The current mode's text, empty when the action has no mode yet
      (`curModes` holds the actions that have one). */
  function CurModeText(curModes: map<string, string>, name: string): string {
    if name in curModes then curModes[name] else ""
  }

  /** A desired entry changes something: its action is configured and its
      normalised mode differs from the current one. */
  predicate Changes(e: (string, string), configured: set<string>, curModes: map<string, string>) {
    e.0 in configured && (e.0 !in curModes || Normalise(e.1) != curModes[e.0])
  }

  function ChangeOf(e: (string, string), curModes: map<string, string>): Change {
    Change(e.0, CurModeText(curModes, e.0) + "_to_" + Normalise(e.1))
  }

  /** The change set before ordering: one entry per changing action, in
      the order of the desired state. */
  function ChangeSet(ns: seq<(string, string)>, configured: set<string>, curModes: map<string, string>): seq<Change> {
    if ns == [] then []
    else
      ChangeSet(ns[..|ns| - 1], configured, curModes)
      + (if Changes(ns[|ns| - 1], configured, curModes) then [ChangeOf(ns[|ns| - 1], curModes)] else [])
  }

  /** The change set holds the change of every changing action and
      nothing else. */
  lemma {:induction false} ChangeSetMembers(ns: seq<(string, string)>, configured: set<string>, curModes: map<string, string>, x: Change)
    ensures x in ChangeSet(ns, configured, curModes)
            <==> exists i :: 0 <= i < |ns| && Changes(ns[i], configured, curModes) && x == ChangeOf(ns[i], curModes)
    decreases |ns|
  {
    if ns != [] {
      var init := ns[..|ns| - 1];
      ChangeSetMembers(init, configured, curModes, x);
      if exists i :: 0 <= i < |ns| && Changes(ns[i], configured, curModes) && x == ChangeOf(ns[i], curModes) {
        var i :| 0 <= i < |ns| && Changes(ns[i], configured, curModes) && x == ChangeOf(ns[i], curModes);
        if i < |init| {
          assert init[i] == ns[i];
        }
      }
      if x in ChangeSet(init, configured, curModes) {
        var i :| 0 <= i < |init| && Changes(init[i], configured, curModes) && x == ChangeOf(init[i], curModes);
        assert ns[i] == init[i];
      }
    }
  }

  /** The keys of an ordered mapping. */
  function Keys<V>(ns: seq<(string, V)>): (r: seq<string>)
    ensures |r| == |ns| && forall i :: 0 <= i < |ns| ==> r[i] == ns[i].0
  {
    seq(|ns|, i requires 0 <= i < |ns| => ns[i].0)
  }

  function Names(xs: seq<Change>): (r: seq<string>)
    ensures |r| == |xs| && forall i :: 0 <= i < |xs| ==> r[i] == xs[i].name
  {
    seq(|xs|, i requires 0 <= i < |xs| => xs[i].name)
  }

  /** Distinct desired actions give a change set with distinct actions. */
  lemma {:induction false} ChangeSetNames(ns: seq<(string, string)>, configured: set<string>, curModes: map<string, string>)
    requires NoDup(Keys(ns))
    ensures NoDup(Names(ChangeSet(ns, configured, curModes)))
    ensures forall n :: n in Names(ChangeSet(ns, configured, curModes)) ==> n in Keys(ns)
    decreases |ns|
  {
    if ns != [] {
      var init := ns[..|ns| - 1];
      var last := ns[|ns| - 1];
      assert Keys(init) == Keys(ns)[..|ns| - 1];
      ChangeSetNames(init, configured, curModes);
      assert last.0 !in Keys(init) by {
        forall i | 0 <= i < |init| ensures Keys(init)[i] != last.0 {
          assert Keys(ns)[i] != Keys(ns)[|ns| - 1];
        }
      }
      var a := ChangeSet(init, configured, curModes);
      forall n | n in Names(ChangeSet(ns, configured, curModes)) ensures n in Keys(ns) {
        var k :| 0 <= k < |Names(ChangeSet(ns, configured, curModes))| && Names(ChangeSet(ns, configured, curModes))[k] == n;
        if k < |a| {
          assert Names(a)[k] == n;
          assert n in Names(a);
          var m :| 0 <= m < |init| && Keys(init)[m] == n;
          assert Keys(ns)[m] == n;
        } else {
          assert Keys(ns)[|ns| - 1] == n;
        }
      }
    }
  }

  /** `"to_remote" in kind`. */
  predicate HasSub(s: string, t: string)
    decreases |s|
  {
    StartsWith(s, t) || (|s| > 0 && HasSub(s[1..], t))
  }

  predicate IsToRemote(c: Change) {
    HasSub(c.kind, "to_remote")
  }

  predicate NotToRemote(c: Change) {
    !IsToRemote(c)
  }

  /** The entries that satisfy `p`, in order. */
  function Filter(xs: seq<Change>, p: Change -> bool): seq<Change> {
    if xs == [] then [] else Filter(xs[..|xs| - 1], p) + (if p(xs[|xs| - 1]) then [xs[|xs| - 1]] else [])
  }

  lemma {:induction false} FilterMembers(xs: seq<Change>, p: Change -> bool)
    ensures forall x :: x in Filter(xs, p) <==> x in xs && p(x)
    decreases |xs|
  {
    if xs != [] {
      FilterMembers(xs[..|xs| - 1], p);
      assert xs == xs[..|xs| - 1] + [xs[|xs| - 1]];
    }
  }

  lemma {:induction false} FilterAppend(a: seq<Change>, b: seq<Change>, p: Change -> bool)
    ensures Filter(a + b, p) == Filter(a, p) + Filter(b, p)
    decreases |b|
  {
    if b == [] {
      assert a + b == a;
    } else {
      FilterAppend(a, b[..|b| - 1], p);
      assert (a + b)[..|a + b| - 1] == a + b[..|b| - 1];
    }
  }

  lemma {:induction false} FilterMultiset(xs: seq<Change>, p: Change -> bool, q: Change -> bool)
    requires forall x :: p(x) <==> !q(x)
    ensures multiset(Filter(xs, p) + Filter(xs, q)) == multiset(xs)
    decreases |xs|
  {
    if xs != [] {
      FilterMultiset(xs[..|xs| - 1], p, q);
      assert xs == xs[..|xs| - 1] + [xs[|xs| - 1]];
    }
  }

  lemma {:induction false} FilterNames(xs: seq<Change>, p: Change -> bool)
    requires NoDup(Names(xs))
    ensures NoDup(Names(Filter(xs, p)))
    ensures forall n :: n in Names(Filter(xs, p)) ==> n in Names(xs)
    decreases |xs|
  {
    if xs != [] {
      var init := xs[..|xs| - 1];
      var last := xs[|xs| - 1];
      assert Names(init) == Names(xs)[..|xs| - 1];
      FilterNames(init, p);
      var a := Filter(init, p);
      assert last.name !in Names(init) by {
        forall i | 0 <= i < |init| ensures Names(init)[i] != last.name {
          assert Names(xs)[i] != Names(xs)[|xs| - 1];
        }
      }
      forall n | n in Names(Filter(xs, p)) ensures n in Names(xs) {
        var k :| 0 <= k < |Names(Filter(xs, p))| && Names(Filter(xs, p))[k] == n;
        if k < |a| {
          assert Names(a)[k] == n;
          assert n in Names(a);
          var m :| 0 <= m < |init| && Names(init)[m] == n;
          assert Names(xs)[m] == n;
        } else {
          assert Names(xs)[|xs| - 1] == n;
        }
      }
    }
  }

  /** The ordering `_get_action_change` sorts by: with the comparator
      `change_to_remote_first` every change containing "to_remote" sorts
      after the others, and the sort is stable. */
  function RemoteLast(xs: seq<Change>): seq<Change> {
    Filter(xs, NotToRemote) + Filter(xs, IsToRemote)
  }

  /** The ordering is a permutation; changes to remote come after all the
      others; and each group keeps its relative order. */
  lemma RemoteLastSpec(xs: seq<Change>)
    ensures multiset(RemoteLast(xs)) == multiset(xs)
    ensures forall i, j :: 0 <= i < j < |RemoteLast(xs)| && IsToRemote(RemoteLast(xs)[i]) ==> IsToRemote(RemoteLast(xs)[j])
    ensures Filter(RemoteLast(xs), NotToRemote) == Filter(xs, NotToRemote)
    ensures Filter(RemoteLast(xs), IsToRemote) == Filter(xs, IsToRemote)
  {
    var a := Filter(xs, NotToRemote);
    var b := Filter(xs, IsToRemote);
    FilterMultiset(xs, NotToRemote, IsToRemote);
    FilterMembers(xs, NotToRemote);
    FilterMembers(xs, IsToRemote);
    forall k | 0 <= k < |a + b| ensures IsToRemote((a + b)[k]) <==> k >= |a| {
      if k < |a| {
        assert (a + b)[k] == a[k] && a[k] in a;
      } else {
        assert (a + b)[k] == b[k - |a|] && b[k - |a|] in b;
      }
    }
    FilterAppend(a, b, NotToRemote);
    FilterAppend(a, b, IsToRemote);
    FilterAll(a, NotToRemote);
    FilterNone(b, NotToRemote);
    FilterNone(a, IsToRemote);
    FilterAll(b, IsToRemote);
    assert a + [] == a;
    assert [] + b == b;
  }

  lemma {:induction false} FilterAll(xs: seq<Change>, p: Change -> bool)
    requires forall x :: x in xs ==> p(x)
    ensures Filter(xs, p) == xs
    decreases |xs|
  {
    if xs != [] {
      FilterAll(xs[..|xs| - 1], p);
      assert xs == xs[..|xs| - 1] + [xs[|xs| - 1]];
    }
  }

  lemma {:induction false} FilterNone(xs: seq<Change>, p: Change -> bool)
    requires forall x :: x in xs ==> !p(x)
    ensures Filter(xs, p) == []
    decreases |xs|
  {
    if xs != [] {
      FilterNone(xs[..|xs| - 1], p);
    }
  }

  /** Different entries of a list with distinct actions name different
      actions. */
  lemma DistinctNames(xs: seq<Change>, x: Change, y: Change)
    requires NoDup(Names(xs)) && x in xs && y in xs && x != y
    ensures x.name != y.name
  {
    var ix := IndexOf(xs, x);
    var iy := IndexOf(xs, y);
    assert Names(xs)[ix] == x.name && Names(xs)[iy] == y.name;
  }

  lemma NamesAppend(a: seq<Change>, b: seq<Change>)
    requires NoDup(Names(a)) && NoDup(Names(b))
    requires forall i, j :: 0 <= i < |a| && 0 <= j < |b| ==> a[i].name != b[j].name
    ensures NoDup(Names(a + b))
  {
    forall i, j | 0 <= i < j < |a + b| ensures Names(a + b)[i] != Names(a + b)[j] {
      if j < |a| {
        assert Names(a)[i] != Names(a)[j];
      } else if i >= |a| {
        assert Names(b)[i - |a|] != Names(b)[j - |a|];
      } else {
        assert a[i].name != b[j - |a|].name;
      }
    }
  }

  /** Distinct actions stay distinct when the change set is ordered. */
  lemma RemoteLastNames(xs: seq<Change>)
    requires NoDup(Names(xs))
    ensures NoDup(Names(RemoteLast(xs)))
  {
    var a := Filter(xs, NotToRemote);
    var b := Filter(xs, IsToRemote);
    FilterNames(xs, NotToRemote);
    FilterNames(xs, IsToRemote);
    FilterMembers(xs, NotToRemote);
    FilterMembers(xs, IsToRemote);
    forall i, j | 0 <= i < |a| && 0 <= j < |b| ensures a[i].name != b[j].name {
      assert a[i] in a && b[j] in b;
      DistinctNames(xs, a[i], b[j]);
    }
    NamesAppend(a, b);
  }

  /** The desired state a configuration stands for: each active action
      with "local" or "remote". */
  function ConfigState(actions: seq<string>, c: Config): (r: seq<(string, string)>)
    requires |c.modes| == |actions|
    ensures Keys(r) == actions
  {
    seq(|actions|, i requires 0 <= i < |actions| => (actions[i], if c.modes[i] == Local then "local" else "remote"))
  }

  // ---------------------------------------------------------------------
  // Applying a change set

  /** The change types `apply_actions_change` knows how to apply. */
  const Recognised: seq<string> := ["to_local", "_to_local", "_to_module", "to_module", "to_remote",
                                     "local_to_remote", "module_to_remote", "remote_to_local", "remote_to_module"]

  /** A change was applied: its type is known and the (foreign) loading of
      the action, as reported by `loader`, succeeded. */
  predicate Loaded(c: Change, loader: (string, string) -> bool) {
    c.kind in Recognised && loader(c.name, c.kind)
  }

  /** The changes left after applying a change set: those that failed. */
  function Kept(xs: seq<Change>, loader: (string, string) -> bool): seq<Change> {
    if xs == [] then []
    else Kept(xs[..|xs| - 1], loader) + (if Loaded(xs[|xs| - 1], loader) then [] else [xs[|xs| - 1]])
  }

  /** A change stays exactly when it failed; the kept ones keep their
      order (the result is the failures, in order); when every change
      succeeds, nothing stays. */
  lemma {:induction false} KeptSpec(xs: seq<Change>, loader: (string, string) -> bool)
    ensures forall x :: x in Kept(xs, loader) <==> x in xs && !Loaded(x, loader)
    ensures |Kept(xs, loader)| <= |xs|
    ensures (forall x :: x in xs ==> Loaded(x, loader)) ==> Kept(xs, loader) == []
    decreases |xs|
  {
    if xs != [] {
      KeptSpec(xs[..|xs| - 1], loader);
      assert xs == xs[..|xs| - 1] + [xs[|xs| - 1]];
    }
  }

  lemma {:induction false} KeptNames(xs: seq<Change>, loader: (string, string) -> bool)
    requires NoDup(Names(xs))
    ensures NoDup(Names(Kept(xs, loader)))
    ensures forall n :: n in Names(Kept(xs, loader)) ==> n in Names(xs)
    decreases |xs|
  {
    if xs != [] {
      var init := xs[..|xs| - 1];
      var last := xs[|xs| - 1];
      assert Names(init) == Names(xs)[..|xs| - 1];
      KeptNames(init, loader);
      var a := Kept(init, loader);
      assert last.name !in Names(init) by {
        forall i | 0 <= i < |init| ensures Names(init)[i] != last.name {
          assert Names(xs)[i] != Names(xs)[|xs| - 1];
        }
      }
      forall n | n in Names(Kept(xs, loader)) ensures n in Names(xs) {
        var k :| 0 <= k < |Names(Kept(xs, loader))| && Names(Kept(xs, loader))[k] == n;
        if k < |a| {
          assert Names(a)[k] == n;
          assert n in Names(a);
          var m :| 0 <= m < |init| && Names(init)[m] == n;
          assert Names(xs)[m] == n;
        } else {
          assert Names(xs)[|xs| - 1] == n;
        }
      }
    }
  }

  /** `del changes[name]`. */
  function RemoveName(xs: seq<Change>, name: string): seq<Change> {
    if xs == [] then []
    else RemoveName(xs[..|xs| - 1], name) + (if xs[|xs| - 1].name == name then [] else [xs[|xs| - 1]])
  }

  lemma {:induction false} RemoveNameAppend(a: seq<Change>, b: seq<Change>, name: string)
    ensures RemoveName(a + b, name) == RemoveName(a, name) + RemoveName(b, name)
    decreases |b|
  {
    if b == [] {
      assert a + b == a;
    } else {
      RemoveNameAppend(a, b[..|b| - 1], name);
      assert (a + b)[..|a + b| - 1] == a + b[..|b| - 1];
    }
  }

  lemma {:induction false} RemoveAbsent(xs: seq<Change>, name: string)
    requires forall k :: 0 <= k < |xs| ==> xs[k].name != name
    ensures RemoveName(xs, name) == xs
    decreases |xs|
  {
    if xs != [] {
      RemoveAbsent(xs[..|xs| - 1], name);
      assert xs == xs[..|xs| - 1] + [xs[|xs| - 1]];
    }
  }

  /** In a list with distinct actions, the action at position `i` occurs
      neither among the failures kept from before it nor after it. */
  lemma NameElsewhere(copy: seq<Change>, i: int, loader: (string, string) -> bool)
    requires NoDup(Names(copy)) && 0 <= i < |copy|
    ensures forall k :: 0 <= k < |Kept(copy[..i], loader)| ==> Kept(copy[..i], loader)[k].name != copy[i].name
    ensures forall k :: i < k < |copy| ==> copy[k].name != copy[i].name
  {
    var n := copy[i].name;
    var kept := Kept(copy[..i], loader);
    assert Names(copy[..i]) == Names(copy)[..i];
    KeptNames(copy[..i], loader);
    forall k | 0 <= k < |kept| ensures kept[k].name != n {
      assert Names(kept)[k] in Names(copy[..i]);
      var m :| 0 <= m < i && Names(copy[..i])[m] == kept[k].name;
      assert Names(copy)[m] != Names(copy)[i];
    }
    forall k | i < k < |copy| ensures copy[k].name != n {
      assert Names(copy)[k] != Names(copy)[i];
    }
  }

  /** Removing the action at position `i` of a list with distinct actions,
      after the failures among the first `i` were kept. */
  lemma RemoveStep(copy: seq<Change>, i: int, loader: (string, string) -> bool)
    requires NoDup(Names(copy)) && 0 <= i < |copy|
    ensures RemoveName(Kept(copy[..i], loader) + copy[i..], copy[i].name) == Kept(copy[..i], loader) + copy[i + 1..]
  {
    var n := copy[i].name;
    var kept := Kept(copy[..i], loader);
    var rest := copy[i + 1..];
    NameElsewhere(copy, i, loader);
    forall k | 0 <= k < |rest| ensures rest[k].name != n {
      assert rest[k] == copy[i + 1 + k];
    }
    assert copy[i..] == [copy[i]] + rest;
    RemoveNameAppend(kept, copy[i..], n);
    RemoveNameAppend([copy[i]], rest, n);
    assert RemoveName([copy[i]], n) == [] by {
      assert [copy[i]][..0] == [];
    }
    RemoveAbsent(kept, n);
    RemoveAbsent(rest, n);
    calc {
      RemoveName(kept + copy[i..], n);
      RemoveName(kept, n) + RemoveName(copy[i..], n);
      kept + (RemoveName([copy[i]], n) + RemoveName(rest, n));
      kept + ([] + rest);
      { assert [] + rest == rest; }
      kept + rest;
    }
  }

  /** One step of applying the change set: a change that loaded leaves
      the kept failures as they were, one that failed joins them. */
  lemma ApplyStep(copy: seq<Change>, i: int, loader: (string, string) -> bool)
    requires 0 <= i < |copy|
    ensures Loaded(copy[i], loader) ==> Kept(copy[..i + 1], loader) == Kept(copy[..i], loader)
    ensures !Loaded(copy[i], loader) ==> Kept(copy[..i + 1], loader) + copy[i + 1..] == Kept(copy[..i], loader) + copy[i..]
  {
    assert copy[..i + 1][..i] == copy[..i];
    assert copy[i..] == [copy[i]] + copy[i + 1..];
  }

  // ---------------------------------------------------------------------
  // The optimizer

  /** The phase of the evaluation or auto policy. */
  datatype Phase = EvalPhase | PerfPhase | PrefPhase | EvalSwitchingPhase

  /** A policy's tracking state: empty right after the policy is set, then
      its phase, the configuration under evaluation, the configurations
      still to evaluate and how long the current phase has run. */
  datatype PolicyState =
    | Fresh
    | Tracking(phase: Phase, curConfig: Option<Config>, remain: seq<Config>, curPhase: int)

  /** Whether requests are being benchmarked, and the request kinds seen
      since the benchmark was last cleared. */
  datatype Benchmark = Benchmark(active: bool, requests: set<string>)

  /** The handler `run` hands control to. */
  datatype Handler = NoHandler | EvaluationHandler | AutoHandler | Unrecognized

  /** The handler for a policy name. */
  function Dispatch(policy: string): Handler {
    if policy == "Default" then NoHandler
    else if policy == "Evaluation" then EvaluationHandler
    else if policy == "Auto" then AutoHandler
    else Unrecognized
  }

  /** Exactly the policies `set_action_policy` accepts are recognised, and
      only the default one has no handler. */
  lemma DispatchRecognises(policy: string)
    ensures Dispatch(policy) != Unrecognized <==> policy in Policies
    ensures Dispatch(policy) == NoHandler <==> policy == Policies[0]
  {
  }

  /** `dict.get(key, default)` on the policy parameters. */
  function Param(params: map<string, int>, key: string, default: int): int {
    if key in params then params[key] else default
  }

  /** The memory requirement of each active action, in order. */
  function ReqsOf(actions: seq<string>, memReq: map<string, int>): (r: seq<int>)
    requires forall i :: 0 <= i < |actions| ==> actions[i] in memReq
    ensures |r| == |actions|
  {
    seq(|actions|, i requires 0 <= i < |actions| => memReq[actions[i]])
  }

  /** `_init_evalution_policy` without the state update: the configurations
      of the active actions in greedy evaluation order. */
  method InitEvaluation(reqs: seq<int>, params: map<string, int>) returns (order: seq<Config>)
    ensures GreedyOrder(Configs(reqs, Param(params, "jaseci_runtime_mem", DefaultRuntimeMem),
                                Param(params, "node_mem", DefaultNodeMem)), order)
  {
    var nodeMem := Param(params, "node_mem", DefaultNodeMem);
    var runtime := Param(params, "jaseci_runtime_mem", DefaultRuntimeMem);
    var all := EnumerateConfigs(reqs, runtime, nodeMem);
    ConfigsCount(reqs, runtime, nodeMem);
    ConfigsNoDup(reqs, runtime, nodeMem);
    DistinctModesNoDup(all);
    order := GreedySort(all);
  }

  /** The configurations enumerated under the given policy parameters. */
  function EvalConfigs(reqs: seq<int>, params: map<string, int>): seq<Config> {
    Configs(reqs, Param(params, "jaseci_runtime_mem", DefaultRuntimeMem), Param(params, "node_mem", DefaultNodeMem))
  }

  /** The evaluation order split into the configuration evaluated first
      and those that remain (`remain_configs[0]` taken out of the list). */
  method PlanEvaluation(reqs: seq<int>, params: map<string, int>) returns (cur: Config, remain: seq<Config>)
    ensures var all := EvalConfigs(reqs, params);
            |all| > 0 && cur == all[0] && |cur.modes| == |reqs| && GreedyOrder(all, [cur] + remain)
  {
    var order := InitEvaluation(reqs, params);
    cur := order[0];
    remain := order[1..];
    assert order == [cur] + remain;
    ConfigsNoDup(reqs, Param(params, "jaseci_runtime_mem", DefaultRuntimeMem), Param(params, "node_mem", DefaultNodeMem));
  }

  /** `_get_action_change`: for each desired action that is configured and
      whose normalised mode differs from its current one, the change
      `<current>_to_<new>`, then ordered with changes to remote last. */
  method GetActionChange(ns: seq<(string, string)>, configured: set<string>, curModes: map<string, string>)
    returns (r: seq<Change>)
    ensures r == RemoteLast(ChangeSet(ns, configured, curModes))
  {
    var cs: seq<Change> := [];
    var i := 0;
    while i < |ns|
      invariant 0 <= i <= |ns|
      invariant cs == ChangeSet(ns[..i], configured, curModes)
    {
      var (name, newState) := ns[i];
      if name in configured {
        var cur := if name in curModes then curModes[name] else "";
        var target := if newState == "local" then "module" else newState;
        if name !in curModes || target != cur {
          cs := cs + [Change(name, cur + "_to_" + target)];
        }
      }
      assert ns[..i + 1][..i] == ns[..i];
      i := i + 1;
    }
    assert ns[..|ns|] == ns;
    r := Filter(cs, NotToRemote) + Filter(cs, IsToRemote);
  }

  class Optimizer {
    var policy: string
    var policyParams: map<string, int>
    var policyState: map<string, PolicyState>
    var actionsChange: seq<Change>
    var jsorcInterval: int
    var benchmark: Benchmark

    /** The change set is an ordered mapping: one entry per action. */
    predicate Valid()
      reads this
    {
      NoDup(Names(actionsChange))
    }

    constructor (policy: string, benchmark: Benchmark)
      ensures Valid()
      ensures this.policy == policy && this.benchmark == benchmark
      ensures policyParams == map[] && policyState == map[] && actionsChange == [] && jsorcInterval == 0
    {
      this.policy := policy;
      this.benchmark := benchmark;
      policyParams := map[];
      policyState := map[];
      actionsChange := [];
      jsorcInterval := 0;
    }

    /** `set_action_policy`: a known policy becomes the active one, with a
        fresh state and the given parameters; an unknown one is refused and
        nothing changes. */
    method SetActionPolicy(name: string, params: map<string, int>) returns (r: Result<bool>)
      modifies this`policy, this`policyState, this`policyParams
      ensures name in Policies ==> r == Ok(true) && policy == name && Dispatch(policy) != Unrecognized
                                   && policyState == old(policyState)[name := Fresh] && policyParams == params
      ensures name !in Policies ==> r == Err("Policy " + name + " not found.")
                                    && policy == old(policy) && policyState == old(policyState)
                                    && policyParams == old(policyParams)
    {
      if name in Policies {
        policy := name;
        policyState := policyState[name := Fresh];
        policyParams := params;
        r := Ok(true);
      } else {
        r := Err("Policy " + name + " not found.");
      }
    }

    /** `run`: records the interval and hands control to the active
        policy's handler (none under the default policy, none either for
        an unknown policy, which is only logged). */
    method Run(interval: int) returns (h: Handler)
      modifies this`jsorcInterval
      ensures jsorcInterval == interval
      ensures h == Dispatch(policy)
    {
      jsorcInterval := interval;
      if policy == "Default" {
        h := NoHandler;
      } else if policy == "Evaluation" {
        h := EvaluationHandler;
      } else if policy == "Auto" {
        h := AutoHandler;
      } else {
        h := Unrecognized;
      }
    }

    /** `apply_actions_change`: walks a copy of the change set and deletes
        each change whose loading succeeded; failed ones stay. */
    method ApplyActionsChange(loader: (string, string) -> bool)
      requires Valid()
      modifies this`actionsChange
      ensures Valid()
      ensures actionsChange == Kept(old(actionsChange), loader)
    {
      var copy := actionsChange;
      var i := 0;
      while i < |copy|
        invariant 0 <= i <= |copy|
        invariant NoDup(Names(copy))
        invariant actionsChange == Kept(copy[..i], loader) + copy[i..]
      {
        var c := copy[i];
        ApplyStep(copy, i, loader);
        if c.kind in Recognised && loader(c.name, c.kind) {
          RemoveStep(copy, i, loader);
          actionsChange := RemoveName(actionsChange, c.name);
        }
        i := i + 1;
      }
      assert copy[..|copy|] == copy;
      assert actionsChange == Kept(copy, loader) + [];
      KeptNames(copy, loader);
    }

    /** The start of an evaluation period (the policy has no configuration
        under evaluation): the configurations are enumerated and ordered,
        the first becomes the current one, the benchmark restarts and the
        change set moves the actions to it. When there are changes to make,
        the phase becomes eval_switching, the benchmark pauses and, under
        the evaluation policy, the changes are applied. */
    method StartEvaluation(key: string, actions: seq<string>, memReq: map<string, int>,
                           configured: set<string>, curModes: map<string, string>,
                           loader: (string, string) -> bool)
      requires key == "Evaluation" || key == "Auto"
      requires key in policyState
      requires policyState[key].Fresh? || (policyState[key].phase == EvalPhase && policyState[key].curConfig.None?)
      requires NoDup(actions) && forall i :: 0 <= i < |actions| ==> actions[i] in memReq
      modifies this`policyState, this`benchmark, this`actionsChange
      ensures Valid()
      ensures key in policyState && policyState[key].Tracking? && policyState[key].curConfig.Some?
      ensures var st := policyState[key];
              var all := EvalConfigs(ReqsOf(actions, memReq), policyParams);
              |all| > 0 && st.curConfig.value == all[0] && st.curPhase == 0 && GreedyOrder(all, [all[0]] + st.remain)
      ensures |policyState[key].curConfig.value.modes| == |actions|
      ensures var ch := RemoteLast(ChangeSet(ConfigState(actions, policyState[key].curConfig.value),
                                             configured, curModes));
              (ch == [] ==> policyState[key].phase == EvalPhase && actionsChange == [] && benchmark == Benchmark(true, {}))
              && (ch != [] ==> policyState[key].phase == EvalSwitchingPhase && benchmark == Benchmark(false, {})
                               && actionsChange == (if key == "Evaluation" then Kept(ch, loader) else ch))
      ensures forall k :: k in old(policyState) && k != key ==> k in policyState && policyState[k] == old(policyState)[k]
    {
      var cur, remain := PlanEvaluation(ReqsOf(actions, memReq), policyParams);
      var st := Tracking(EvalPhase, Some(cur), remain, 0);
      benchmark := Benchmark(true, {});
      var ns := ConfigState(actions, cur);
      ChangeSetNames(ns, configured, curModes);
      RemoteLastNames(ChangeSet(ns, configured, curModes));
      actionsChange := GetActionChange(ns, configured, curModes);
      if |actionsChange| > 0 {
        st := st.(phase := EvalSwitchingPhase);
        benchmark := benchmark.(active := false);
        if key == "Evaluation" {
          ApplyActionsChange(loader);
        }
      }
      policyState := policyState[key := st];
    }

    /** The eval_switching step: once every change has been applied the
        policy goes back to evaluating, with its phase timer reset and the
        benchmark restarted; otherwise nothing changes. */
    method EvalSwitching(key: string)
      requires key in policyState
      modifies this`policyState, this`benchmark
      ensures var st := old(policyState)[key];
              if st.Tracking? && st.phase == EvalSwitchingPhase && actionsChange == []
              then policyState == old(policyState)[key := st.(phase := EvalPhase, curPhase := 0)]
                   && benchmark == Benchmark(true, {})
              else policyState == old(policyState) && benchmark == old(benchmark)
    {
      var st := policyState[key];
      if st.Tracking? && st.phase == EvalSwitchingPhase && |actionsChange| == 0 {
        policyState := policyState[key := st.(phase := EvalPhase, curPhase := 0)];
        benchmark := Benchmark(true, {});
      }
    }

    /** The start of an evaluation period under the evaluation policy, in
        one `run`: the start step, then (the switching test is an `if`, not
        an `elif`) the switching step in the same call. When every change
        loads, the policy is back to evaluating the new configuration with
        the benchmark running; otherwise it waits in eval_switching with the
        failed changes left to apply. */
    method EvaluationStart(actions: seq<string>, memReq: map<string, int>,
                           configured: set<string>, curModes: map<string, string>,
                           loader: (string, string) -> bool)
      requires "Evaluation" in policyState
      requires policyState["Evaluation"].Fresh?
               || (policyState["Evaluation"].phase == EvalPhase && policyState["Evaluation"].curConfig.None?)
      requires NoDup(actions) && forall i :: 0 <= i < |actions| ==> actions[i] in memReq
      modifies this`policyState, this`benchmark, this`actionsChange
      ensures Valid()
      ensures "Evaluation" in policyState && policyState["Evaluation"].Tracking?
              && policyState["Evaluation"].curConfig.Some?
      ensures var st := policyState["Evaluation"];
              var all := EvalConfigs(ReqsOf(actions, memReq), policyParams);
              |all| > 0 && st.curConfig.value == all[0] && st.curPhase == 0 && GreedyOrder(all, [all[0]] + st.remain)
      ensures |policyState["Evaluation"].curConfig.value.modes| == |actions|
      ensures var ch := RemoteLast(ChangeSet(ConfigState(actions, policyState["Evaluation"].curConfig.value),
                                             configured, curModes));
              actionsChange == Kept(ch, loader)
              && (actionsChange == [] ==> policyState["Evaluation"].phase == EvalPhase && benchmark == Benchmark(true, {}))
              && (actionsChange != [] ==> policyState["Evaluation"].phase == EvalSwitchingPhase && benchmark == Benchmark(false, {}))
      ensures forall k :: k in old(policyState) && k != "Evaluation" ==> k in policyState && policyState[k] == old(policyState)[k]
    {
      StartEvaluation("Evaluation", actions, memReq, configured, curModes, loader);
      EvalSwitching("Evaluation");
    }
  }

  /** Once every change of the set has loaded, the switching step ends:
      nothing is left to apply. */
  lemma AllLoadedEndsSwitching(xs: seq<Change>, loader: (string, string) -> bool)
    requires forall x :: x in xs ==> Loaded(x, loader)
    ensures Kept(xs, loader) == []
  {
    KeptSpec(xs, loader);
  }
}
