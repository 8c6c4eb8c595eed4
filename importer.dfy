/** The legacy Jac importer: how a dotted import target becomes a `.jac`
    file path, a module name and a package path, and how the module
    registry (`sys.modules`) is consulted and updated around the
    transpile-and-execute step. */
module Importer {
  import opened Common

  // ---------------------------------------------------------------------
  // Path derivation (POSIX path rules)

  /** `posixpath.join(a, b)`: an absolute `b` replaces the path; otherwise
      `b` is appended, with a separator unless the path is empty or ends
      with one. */
  function JoinTwo(a: string, b: string): string {
    if StartsWith(b, "/") then b
    else if a == [] || EndsWith(a, "/") then a + b
    else a + "/" + b
  }

  /** `posixpath.join(*parts)`. */
  function PathJoin(parts: seq<string>): string
    requires |parts| >= 1
  {
    if |parts| == 1 then parts[0] else JoinTwo(PathJoin(parts[..|parts| - 1]), parts[|parts| - 1])
  }

  /** `s.rfind(c)`: the last position of `c`, if any. */
  function RFind(s: string, c: char): (r: Option<nat>)
    ensures r.Some? ==> r.value < |s| && s[r.value] == c
  {
    if s == [] then None
    else if s[|s| - 1] == c then Some(|s| - 1)
    else RFind(s[..|s| - 1], c)
  }

  /** `s.rstrip("/")`. */
  function RStripSlashes(s: string): string {
    if s != [] && s[|s| - 1] == '/' then RStripSlashes(s[..|s| - 1]) else s
  }

  predicate AllChar(s: string, c: char) {
    forall i :: 0 <= i < |s| ==> s[i] == c
  }

  /** `posixpath.split(p)`: the text up to the last separator (trailing
      separators removed unless it is made only of them) and the rest. */
  function PathSplit(p: string): (string, string) {
    var i := match RFind(p, '/') case None => 0 case Some(k) => k + 1;
    var head := p[..i];
    (if head != [] && !AllChar(head, '/') then RStripSlashes(head) else head, p[i..])
  }

  /** `posixpath.splitext(p)[0]` for a name without separators: the text
      before the last dot, unless only dots precede it. */
  function StripExt(p: string): string {
    match RFind(p, '.')
    case None => p
    case Some(d) => if AllChar(p[..d], '.') then p else p[..d]
  }

  /** `s.replace("/", ".")`. */
  function SlashesToDots(s: string): (r: string)
    ensures |r| == |s|
  {
    if s == [] then [] else SlashesToDots(s[..|s| - 1]) + [if s[|s| - 1] == '/' then '.' else s[|s| - 1]]
  }

  /** What `import_jac_module` derives from its target. */
  datatype Target = Target(file: string, moduleName: string, packagePath: string)

  function Derive(target: string): Target {
    var file := PathJoin(Split(target, '.')) + ".jac";
    var (dir, name) := PathSplit(file);
    Target(file, StripExt(name), SlashesToDots(dir))
  }

  /** The registry key of the module: its dotted full name, or its bare
      name outside a package. */
  function FullName(t: Target): string {
    if t.packagePath != [] then t.packagePath + "." + t.moduleName else t.moduleName
  }

  /** The segments of a dotted module path are non-empty and hold no path
      separator. */
  predicate WellFormedSegments(parts: seq<string>) {
    forall i :: 0 <= i < |parts| ==> parts[i] != [] && '/' !in parts[i]
  }

  lemma {:induction false} RFindNone(s: string, c: char)
    requires c !in s
    ensures RFind(s, c) == None
    decreases |s|
  {
    if s != [] {
      RFindNone(s[..|s| - 1], c);
    }
  }

  lemma {:induction false} RFindAppend(a: string, b: string, c: char)
    requires c !in b
    ensures RFind(a + b, c) == RFind(a, c)
    decreases |b|
  {
    if b != [] {
      assert (a + b)[..|a + b| - 1] == a + b[..|b| - 1];
      RFindAppend(a, b[..|b| - 1], c);
    } else {
      assert a + b == a;
    }
  }

  lemma JoinLast(parts: seq<string>, sep: string)
    requires |parts| >= 1 && parts[|parts| - 1] != []
    ensures |Join(parts, sep)| > 0 && Join(parts, sep)[|Join(parts, sep)| - 1] == parts[|parts| - 1][|parts[|parts| - 1]| - 1]
  {
    if |parts| > 1 {
      var init := parts[..|parts| - 1];
      assert parts == init + [parts[|parts| - 1]];
      JoinSnoc(init, parts[|parts| - 1], sep);
    }
  }

  lemma JoinFirst(parts: seq<string>, sep: string)
    requires |parts| >= 1 && parts[0] != []
    ensures |Join(parts, sep)| > 0 && Join(parts, sep)[0] == parts[0][0]
  {
  }

  /** Joining well-formed segments with `posixpath.join` puts one
      separator between consecutive segments. */
  lemma {:induction false} PathJoinSegments(parts: seq<string>)
    requires |parts| >= 1 && WellFormedSegments(parts)
    ensures PathJoin(parts) == Join(parts, "/")
    decreases |parts|
  {
    if |parts| > 1 {
      var init := parts[..|parts| - 1];
      var last := parts[|parts| - 1];
      PathJoinSegments(init);
      JoinSnoc(init, last, "/");
      assert parts == init + [last];
      JoinLast(init, "/");
      assert !StartsWith(last, "/") by {
        assert last[0] in last;
      }
      assert init[|init| - 1] == parts[|parts| - 2];
      var j := Join(init, "/");
      assert j[|j| - 1] in init[|init| - 1];
      assert !EndsWith(j, "/") by {
        assert j[|j| - 1..] == [j[|j| - 1]];
      }
    }
  }

  lemma {:induction false} SlashesToDotsAppend(a: string, b: string)
    ensures SlashesToDots(a + b) == SlashesToDots(a) + SlashesToDots(b)
    decreases |b|
  {
    if b == [] {
      assert a + b == a;
    } else {
      assert (a + b)[..|a + b| - 1] == a + b[..|b| - 1];
      SlashesToDotsAppend(a, b[..|b| - 1]);
    }
  }

  lemma {:induction false} SlashesToDotsNone(s: string)
    requires '/' !in s
    ensures SlashesToDots(s) == s
    decreases |s|
  {
    if s != [] {
      SlashesToDotsNone(s[..|s| - 1]);
      assert s == s[..|s| - 1] + [s[|s| - 1]];
    }
  }

  /** Replacing the separators of a slash-joined list of separator-free
      segments joins the segments with dots. */
  lemma {:induction false} SlashesToDotsJoin(parts: seq<string>)
    requires |parts| >= 1 && WellFormedSegments(parts)
    ensures SlashesToDots(Join(parts, "/")) == Join(parts, ".")
    decreases |parts|
  {
    if |parts| == 1 {
      SlashesToDotsNone(parts[0]);
    } else {
      var init := parts[..|parts| - 1];
      var last := parts[|parts| - 1];
      assert parts == init + [last];
      SlashesToDotsJoin(init);
      JoinSnoc(init, last, "/");
      JoinSnoc(init, last, ".");
      SlashesToDotsAppend(Join(init, "/") + "/", last);
      SlashesToDotsAppend(Join(init, "/"), "/");
      SlashesToDotsNone(last);
    }
  }

  /** The file name's stem: the segment itself, since it has no dot and
      does not start with one. */
  lemma StripJac(last: string)
    requires last != [] && '.' !in last
    ensures StripExt(last + ".jac") == last
  {
    var p := last + ".jac";
    RFindAppend(last + ".", "jac", '.');
    assert p == (last + ".") + "jac";
    assert RFind(last + ".", '.') == Some(|last|);
    assert p[..|last|] == last;
    assert last[0] in last;
  }

  /** Splitting `dir/last.jac` at its last separator. */
  lemma SplitAtLast(dir: string, last: string)
    requires dir != [] && dir[0] != '/' && dir[|dir| - 1] != '/' && '/' !in last
    ensures PathSplit(dir + "/" + last + ".jac") == (dir, last + ".jac")
  {
    var p := dir + "/" + last + ".jac";
    assert p == (dir + "/") + (last + ".jac");
    RFindAppend(dir + "/", last + ".jac", '/');
    assert RFind(dir + "/", '/') == Some(|dir|);
    var head := p[..|dir| + 1];
    assert head == dir + "/";
    assert !AllChar(head, '/') by {
      assert head[0] != '/';
    }
    assert RStripSlashes(head) == RStripSlashes(dir) by {
      assert head[..|head| - 1] == dir;
    }
    assert p[|dir| + 1..] == last + ".jac";
  }

  /** A dotted target `a.b.c` names the file `a/b/c.jac`, the module `c`
      and the package `a.b`; a single segment has no package. */
  lemma DeriveDotted(target: string)
    requires WellFormedSegments(Split(target, '.'))
    ensures var parts := Split(target, '.');
            Derive(target) == Target(Join(parts, "/") + ".jac", parts[|parts| - 1],
                                     if |parts| == 1 then "" else Join(parts[..|parts| - 1], "."))
  {
    var parts := Split(target, '.');
    var last := parts[|parts| - 1];
    PathJoinSegments(parts);
    assert '.' !in last;
    StripJac(last);
    if |parts| == 1 {
      var p := last + ".jac";
      assert '/' !in ".jac";
      RFindNone(p, '/');
      assert p[..0] == [] && p[0..] == p;
    } else {
      var init := parts[..|parts| - 1];
      assert parts == init + [last];
      assert WellFormedSegments(init);
      JoinSnoc(init, last, "/");
      var dir := Join(init, "/");
      JoinFirst(init, "/");
      JoinLast(init, "/");
      assert dir[0] in init[0];
      assert dir[|dir| - 1] in init[|init| - 1];
      SplitAtLast(dir, last);
      assert dir + "/" + last + ".jac" == Join(parts, "/") + ".jac";
      SlashesToDotsJoin(init);
    }
  }

  // ---------------------------------------------------------------------
  // The module registry

  /** A module object: its `__name__` and the attributes that refer to
      other modules, by their registry keys. */
  datatype Module = Module(name: string, attrs: map<string, string>)

  /** The registry after creating an empty module for every dotted prefix
      of `parts` that is not registered yet. */
  function AddPrefixes(ms: map<string, Module>, parts: seq<string>): map<string, Module> {
    if parts == [] then ms
    else
      var m := AddPrefixes(ms, parts[..|parts| - 1]);
      var name := Join(parts, ".");
      if name in m then m else m[name := Module(name, map[])]
  }

  /** Adding prefixes keeps every registered module, registers every
      prefix, and adds nothing else than fresh empty modules for prefixes. */
  lemma {:induction false} AddPrefixesSpec(ms: map<string, Module>, parts: seq<string>)
    ensures forall k :: k in ms ==> k in AddPrefixes(ms, parts) && AddPrefixes(ms, parts)[k] == ms[k]
    ensures forall i :: 1 <= i <= |parts| ==> Join(parts[..i], ".") in AddPrefixes(ms, parts)
    ensures forall k :: k in AddPrefixes(ms, parts) && k !in ms ==>
              AddPrefixes(ms, parts)[k] == Module(k, map[])
              && exists i :: 1 <= i <= |parts| && k == Join(parts[..i], ".")
    decreases |parts|
  {
    if parts != [] {
      var init := parts[..|parts| - 1];
      AddPrefixesSpec(ms, init);
      forall i | 1 <= i < |parts| ensures Join(parts[..i], ".") in AddPrefixes(ms, parts) {
        assert parts[..i] == init[..i];
      }
      assert parts[..|parts|] == parts;
      forall k | k in AddPrefixes(ms, parts) && k !in ms
        ensures exists i :: 1 <= i <= |parts| && k == Join(parts[..i], ".")
      {
        if k in AddPrefixes(ms, init) {
          var i :| 1 <= i <= |init| && k == Join(init[..i], ".");
          assert parts[..i] == init[..i];
        } else {
          assert k == Join(parts[..|parts|], ".");
        }
      }
    }
  }

  /** The registry after a successful import: the package prefixes
      registered, the module set as an attribute of its package, and the
      module registered under its full name. */
  function Registered(ms: map<string, Module>, t: Target, m: Module): map<string, Module> {
    if t.packagePath == [] then ms[t.moduleName := m]
    else
      var withPkgs := AddPrefixes(ms, Split(t.packagePath, '.'));
      var key := FullName(t);
      var pkg := if t.packagePath in withPkgs then withPkgs[t.packagePath] else Module(t.packagePath, map[]);
      withPkgs[t.packagePath := pkg.(attrs := pkg.attrs[t.moduleName := key])][key := m]
  }

  /** After a successful import the module is registered under its full
      name (so importing it again finds it), its package and every prefix
      of it are registered, the package refers to the module, and every
      other module registered before is unchanged. */
  lemma RegisteredSpec(ms: map<string, Module>, t: Target, m: Module)
    ensures FullName(t) in Registered(ms, t, m) && Registered(ms, t, m)[FullName(t)] == m
    ensures t.packagePath != [] ==>
              var parts := Split(t.packagePath, '.');
              (forall i :: 1 <= i <= |parts| ==> Join(parts[..i], ".") in Registered(ms, t, m))
              && t.packagePath in Registered(ms, t, m)
              && t.moduleName in Registered(ms, t, m)[t.packagePath].attrs
              && Registered(ms, t, m)[t.packagePath].attrs[t.moduleName] == FullName(t)
    ensures forall k :: k in ms && k != FullName(t) && k != t.packagePath ==>
              k in Registered(ms, t, m) && Registered(ms, t, m)[k] == ms[k]
  {
    if t.packagePath != [] {
      var parts := Split(t.packagePath, '.');
      AddPrefixesSpec(ms, parts);
      JoinSplit(t.packagePath, '.');
      assert parts[..|parts|] == parts;
      assert FullName(t) != t.packagePath by {
        assert |FullName(t)| > |t.packagePath|;
      }
    }
  }

  /** What executing the generated code did, which this model takes as
      given: the modules its own imports registered, the names it bound in
      the new module to registered modules, and whether it raised. */
  datatype ExecOutcome = ExecOutcome(imported: map<string, Module>, bound: map<string, string>, raised: bool)

  class Importer {
    /** `sys.modules`. */
    var modules: map<string, Module>

    constructor (modules: map<string, Module>)
      ensures this.modules == modules
    {
      this.modules := modules;
    }

    /** The registration loop: every dotted prefix of the package path not
        yet registered gets a new empty module. */
    method RegisterPrefixes(parts: seq<string>)
      modifies this
      ensures modules == AddPrefixes(old(modules), parts)
    {
      var i := 0;
      while i < |parts|
        invariant 0 <= i <= |parts|
        invariant modules == AddPrefixes(old(modules), parts[..i])
      {
        var name := Join(parts[..i + 1], ".");
        assert parts[..i + 1][..i] == parts[..i];
        if name !in modules {
          modules := modules[name := Module(name, map[])];
        }
        i := i + 1;
      }
      assert parts[..|parts|] == parts;
    }

    /** Registers a freshly executed module: the package prefixes, the
        module as an attribute of its package, and the module itself. */
    method Register(t: Target, m: Module)
      modifies this
      ensures modules == Registered(old(modules), t, m)
    {
      if t.packagePath != [] {
        RegisterPrefixes(Split(t.packagePath, '.'));
        var pkg := if t.packagePath in modules then modules[t.packagePath] else Module(t.packagePath, map[]);
        var key := t.packagePath + "." + t.moduleName;
        modules := modules[t.packagePath := pkg.(attrs := pkg.attrs[t.moduleName := key])][key := m];
      } else {
        modules := modules[t.moduleName := m];
      }
    }

    /** `import_jac_module` around the transpiler: a module already
        registered under the target's full name is returned as it is;
        otherwise the generated code is executed in the new module's
        namespace. Whatever its own imports registered stays registered,
        whether or not it then raised; on failure there is no module and
        nothing more is registered; on success a new module named after the
        file, holding the names the code bound, is registered. */
    method ImportJacModule(target: string, exec: ExecOutcome) returns (r: Option<Module>)
      modifies this
      ensures FullName(Derive(target)) in old(modules) ==>
                r == Some(old(modules)[FullName(Derive(target))]) && modules == old(modules)
      ensures FullName(Derive(target)) !in old(modules) && exec.raised ==>
                r == None && modules == old(modules) + exec.imported
      ensures FullName(Derive(target)) !in old(modules) && !exec.raised ==>
                r == Some(Module(Derive(target).moduleName, exec.bound))
                && modules == Registered(old(modules) + exec.imported, Derive(target), r.value)
    {
      var t := Derive(target);
      var key := FullName(t);
      if key in modules {
        return Some(modules[key]);
      }
      modules := modules + exec.imported;
      if exec.raised {
        return None;
      }
      var m := Module(t.moduleName, exec.bound);
      Register(t, m);
      r := Some(m);
    }
  }
}
