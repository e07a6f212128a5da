/** `ParentReplacer`: the pass after the main one, which carries a
    package's renames into the packages that depend on it. */
module ParentReplacer {
  import opened Wrappers
  import opened Strings
  import opened Parsing
  import opened Packages
  import opened PackageOrder
  import opened DependencyWalk
  import opened Replacer
  import NameReplacer
  import NameVisitor
  import FilesAutoloader
  import ClassmapAutoloader

  /** One file of the sweep: skipped unless it ends in `.php` and can be
      read; otherwise rewritten by the name replacer with the renames, a
      failure ending the run, and written back only when the text changed.
      The flag says whether it was written. */
  function SweepFile(env: Env, m: NameVisitor.ClassMap, st: State, path: string): (r: Result<(State, bool), Error>)
    ensures !ClassmapAutoloader.IsPhpFile(path) || ReadFile(env, st, path).None? ==> r == Success((st, false))
    ensures r.Success? && r.value.1 ==>
      && ReadFile(env, st, path).Some?
      && NameReplacer.Replace(env.parser, m, ReadFile(env, st, path).value).Success?
      && var out := NameReplacer.Replace(env.parser, m, ReadFile(env, st, path).value).value;
         && out != st.files[Physical(env, path)]
         && r.value.0 == st.(files := st.files[Physical(env, path) := out])
    ensures r.Success? && !r.value.1 ==> r.value.0 == st
    ensures r.Failure? ==> r.error == FileOperationError
    ensures ClassmapAutoloader.IsPhpFile(path) && ReadFile(env, st, path).Some? ==>
      && (r.Failure? <==> NameReplacer.Replace(env.parser, m, ReadFile(env, st, path).value).Failure?)
      && (r.Success? ==> (r.value.1 <==> NameReplacer.Replace(env.parser, m, ReadFile(env, st, path).value).value != ReadFile(env, st, path).value))
  {
    if !ClassmapAutoloader.IsPhpFile(path) then Success((st, false))
    else match ReadFile(env, st, path)
      case None => Success((st, false))
      case Some(contents) =>
        var out :- NameReplacer.Replace(env.parser, m, contents);
        if out != contents then Success((st.(files := st.files[Physical(env, path) := out]), true))
        else Success((st, false))
  }

  /** The loop of `replaceParentClassesInDirectory` over the found files,
      stopping at the first failure. Only the found `.php` files can change,
      and the renames of the main pass are left alone. */
  function SweepFiles(env: Env, m: NameVisitor.ClassMap, st: State, found: seq<string>): (r: Result<State, Error>)
    ensures r.Success? ==> Framed(st, r.value, set x | x in found && ClassmapAutoloader.IsPhpFile(x) :: Physical(env, x))
    ensures r.Success? ==> r.value.replaced == st.replaced
    ensures r.Failure? ==> r.error == FileOperationError
    decreases |found|
  {
    if found == [] then Success(st)
    else
      var step :- SweepFile(env, m, st, found[0]);
      SweepFiles(env, m, step.0, found[1..])
  }

  /** With no renames the name replacer returns every file as it was, so
      the sweep writes nothing. */
  lemma {:induction false} SweepWithoutRenames(env: Env, st: State, found: seq<string>)
    ensures SweepFiles(env, map[], st, found) == Success(st)
    decreases |found|
  {
    if found != [] {
      assert SweepFile(env, map[], st, found[0]) == Success((st, false));
      SweepWithoutRenames(env, st, found[1..]);
    }
  }

  /** The found files name different files on disk, as a directory
      listing does. */
  predicate DistinctFiles(env: Env, found: seq<string>) {
    forall i, j :: 0 <= i < j < |found| ==> Physical(env, found[i]) != Physical(env, found[j])
  }

  lemma DistinctFilesTail(env: Env, found: seq<string>)
    requires found != [] && DistinctFiles(env, found)
    ensures DistinctFiles(env, found[1..])
    ensures forall x :: x in found[1..] ==> Physical(env, x) != Physical(env, found[0])
  {
    forall x | x in found[1..] ensures Physical(env, x) != Physical(env, found[0]) {
      var j :| 0 <= j < |found[1..]| && found[1..][j] == x;
      assert found[j + 1] == x;
    }
  }

  /** A sweep that succeeds leaves in every found `.php` file that could be
      read exactly what the name replacer makes of its contents: a changed
      file is written, an unchanged one already holds that text. */
  lemma {:induction false} SweepFilesWrites(env: Env, m: NameVisitor.ClassMap, st: State, found: seq<string>, k: nat)
    requires DistinctFiles(env, found)
    requires k < |found| && ClassmapAutoloader.IsPhpFile(found[k]) && ReadFile(env, st, found[k]).Some?
    requires SweepFiles(env, m, st, found).Success?
    ensures var c := ReadFile(env, st, found[k]).value;
      && NameReplacer.Replace(env.parser, m, c).Success?
      && SweepFiles(env, m, st, found).value.files[Physical(env, found[k])] == NameReplacer.Replace(env.parser, m, c).value
    decreases |found|
  {
    var step := SweepFile(env, m, st, found[0]);
    assert step.Success?;
    var st1 := step.value.0;
    DistinctFilesTail(env, found);
    if k == 0 {
      var touched := set x | x in found[1..] && ClassmapAutoloader.IsPhpFile(x) :: Physical(env, x);
      assert Physical(env, found[0]) !in touched;
      assert Physical(env, found[0]) in st1.files;
    } else {
      assert Physical(env, found[0]) != Physical(env, found[k]);
      assert found[1..][k - 1] == found[k];
      assert ReadFile(env, st1, found[k]) == ReadFile(env, st, found[k]);
      SweepFilesWrites(env, m, st1, found[1..], k - 1);
    }
  }

  /** A found `.php` file that can be read but not parsed fails the whole
      sweep, as the name replacer's exception does. */
  lemma {:induction false} SweepFilesFails(env: Env, m: NameVisitor.ClassMap, st: State, found: seq<string>, k: nat)
    requires DistinctFiles(env, found)
    requires k < |found| && ClassmapAutoloader.IsPhpFile(found[k]) && ReadFile(env, st, found[k]).Some?
    requires NameReplacer.Replace(env.parser, m, ReadFile(env, st, found[k]).value).Failure?
    ensures SweepFiles(env, m, st, found).Failure?
    decreases |found|
  {
    var step := SweepFile(env, m, st, found[0]);
    if step.Success? {
      assert k != 0;
      var st1 := step.value.0;
      DistinctFilesTail(env, found);
      assert Physical(env, found[0]) != Physical(env, found[k]);
      assert found[1..][k - 1] == found[k];
      assert ReadFile(env, st1, found[k]) == ReadFile(env, st, found[k]);
      SweepFilesFails(env, m, st1, found[1..], k - 1);
    }
  }

  /** `replaceParentClassesInDirectory`: nothing when there are no renames;
      otherwise the directory, trimmed of `/` at both ends, is swept when it
      exists. */
  function ReplaceParentClassesInDirectory(env: Env, m: NameVisitor.ClassMap, st: State, directory: string)
    : (r: Result<State, Error>)
    ensures |m| == 0 ==> r == Success(st)
    ensures Trim(directory, Slash) !in env.listing ==> r == Success(st)
    ensures |m| != 0 && Trim(directory, Slash) in env.listing ==>
      r == SweepFiles(env, m, st, env.listing[Trim(directory, Slash)])
    ensures r.Success? ==> r.value.files.Keys == st.files.Keys && r.value.replaced == st.replaced
  {
    if |m| == 0 then Success(st)
    else
      var dir := Trim(directory, Slash);
      if dir !in env.listing then Success(st)
      else SweepFiles(env, m, st, env.listing[dir])
  }

  /** The directory the dependent package's files sit in, as the dependent
      autoloader's kind gives it: the namespace directory, with a trailing
      separator, for a PSR autoloader; the classmap directory of the package
      otherwise. */
  function ParentDirectory(s: Settings, parent: Package, pa: Autoloader): (r: string)
    ensures StartsWith(r, s.workingDir)
    ensures pa.NamespaceLoader? ==> r == s.workingDir + s.depDirectory + FilesAutoloader.NamespacePath(pa.namespace) + [Slash]
    ensures !pa.NamespaceLoader? ==> r == ClassmapDirectory(s, parent)
  {
    var r := if pa.NamespaceLoader? then s.workingDir + s.depDirectory + FilesAutoloader.NamespacePath(pa.namespace) + [Slash]
             else ClassmapDirectory(s, parent);
    assert r[..|s.workingDir|] == s.workingDir;
    r
  }

  /** One pair of the nested loop of `replaceParentPackage`: a PSR
      autoloader of the dependency rewrites the dependent's directory in
      namespace mode; any other kind sweeps it, relative to the working
      directory, with the renames. */
  function ReplaceParentPair(env: Env, m: NameVisitor.ClassMap, st: State, parent: Package, pa: Autoloader, a: Autoloader)
    : (r: Result<State, Error>)
    ensures var dir := ParentDirectory(env.settings, parent, pa);
      && (a.NamespaceLoader? ==> r == ReplaceInDirectory(env, a, st, dir))
      && (!a.NamespaceLoader? ==> r == ReplaceParentClassesInDirectory(env, m, st, Strip(env, dir)))
    ensures r.Success? ==> r.value.files.Keys == st.files.Keys && r.value.replaced == st.replaced
  {
    var dir := ParentDirectory(env.settings, parent, pa);
    if a.NamespaceLoader? then ReplaceInDirectory(env, a, st, dir)
    else ReplaceParentClassesInDirectory(env, m, st, Strip(env, dir))
  }

  /** The inner loop: every autoloader of the dependency against one
      autoloader of the dependent. */
  function ReplaceParentInner(env: Env, m: NameVisitor.ClassMap, st: State, parent: Package, pa: Autoloader,
                              autoloaders: seq<Autoloader>): (r: Result<State, Error>)
    ensures r.Success? ==> r.value.files.Keys == st.files.Keys && r.value.replaced == st.replaced
    decreases |autoloaders|
  {
    if autoloaders == [] then Success(st)
    else
      var st1 :- ReplaceParentPair(env, m, st, parent, pa, autoloaders[0]);
      ReplaceParentInner(env, m, st1, parent, pa, autoloaders[1..])
  }

  /** The outer loop, over the dependent's autoloaders. */
  function ReplaceParentOuter(env: Env, m: NameVisitor.ClassMap, st: State, parent: Package,
                              parentAutoloaders: seq<Autoloader>, autoloaders: seq<Autoloader>): (r: Result<State, Error>)
    ensures r.Success? ==> r.value.files.Keys == st.files.Keys && r.value.replaced == st.replaced
    decreases |parentAutoloaders|
  {
    if parentAutoloaders == [] then Success(st)
    else
      var st1 :- ReplaceParentInner(env, m, st, parent, parentAutoloaders[0], autoloaders);
      ReplaceParentOuter(env, m, st1, parent, parentAutoloaders[1..], autoloaders)
  }

  /** `replaceParentPackage(package, parent)`: nothing when the dependency
      `package` is excluded; otherwise every autoloader of the dependent
      `parent` against every autoloader of the dependency. The renames of
      the main pass are never changed here. */
  function ReplaceParentPackage(env: Env, m: NameVisitor.ClassMap, st: State, package: Package, parent: Package)
    : (r: Result<State, Error>)
    ensures IsExcluded(env.settings, package) ==> r == Success(st)
    ensures r.Success? ==> r.value.files.Keys == st.files.Keys && r.value.replaced == st.replaced
  {
    if IsExcluded(env.settings, package) then Success(st)
    else ReplaceParentOuter(env, m, st, parent, Autoloaders(parent), Autoloaders(package))
  }

  /** With no renames and a dependency without PSR autoloaders, the
      dependent's files are left as they were. */
  lemma {:induction false} NoRenamesNoChange(env: Env, st: State, parent: Package,
                                             parentAutoloaders: seq<Autoloader>, autoloaders: seq<Autoloader>)
    requires forall j :: 0 <= j < |autoloaders| ==> !autoloaders[j].NamespaceLoader?
    ensures ReplaceParentOuter(env, map[], st, parent, parentAutoloaders, autoloaders) == Success(st)
    decreases |parentAutoloaders|
  {
    if parentAutoloaders != [] {
      InnerNoRenames(env, st, parent, parentAutoloaders[0], autoloaders);
      NoRenamesNoChange(env, st, parent, parentAutoloaders[1..], autoloaders);
    }
  }

  lemma {:induction false} InnerNoRenames(env: Env, st: State, parent: Package, pa: Autoloader, autoloaders: seq<Autoloader>)
    requires forall j :: 0 <= j < |autoloaders| ==> !autoloaders[j].NamespaceLoader?
    ensures ReplaceParentInner(env, map[], st, parent, pa, autoloaders) == Success(st)
    decreases |autoloaders|
  {
    if autoloaders != [] {
      assert ReplaceParentPair(env, map[], st, parent, pa, autoloaders[0]) == Success(st);
      InnerNoRenames(env, st, parent, pa, autoloaders[1..]);
    }
  }

  /** `getAllDependenciesOfPackage`: a depth-first walk in pre-order below
      the package at `i`, appending to `acc` each dependency whose name was
      not visited yet, marking it before descending. The visited names are
      shared by the whole walk. A package without dependencies returns the
      list as it was. */
  function AllDependencies(g: Graph, i: nat, acc: seq<nat>, visited: set<string>): (r: (seq<nat>, set<string>))
    requires ValidGraph(g) && i < |g| && InGraph(g, acc)
    ensures InGraph(g, r.0)
    ensures g[i].dependencies == [] ==> r == (acc, visited)
    ensures visited <= r.1 <= visited + AllNames(g)
    decreases |AllNames(g) - visited|, 1, 0
  {
    if g[i].dependencies == [] then (acc, visited)
    else DependenciesFrom(g, g[i].dependencies, acc, visited)
  }

  /** The loop of `getAllDependenciesOfPackage` over one package's
      dependencies. */
  function DependenciesFrom(g: Graph, deps: seq<nat>, acc: seq<nat>, visited: set<string>): (r: (seq<nat>, set<string>))
    requires ValidGraph(g) && InGraph(g, deps) && InGraph(g, acc)
    ensures InGraph(g, r.0)
    ensures visited <= r.1 <= visited + AllNames(g)
    decreases |AllNames(g) - visited|, 0, |deps|
  {
    if deps == [] then (acc, visited)
    else
      var d := deps[0];
      var n := g[d].name;
      if n in visited then DependenciesFrom(g, deps[1..], acc, visited)
      else
        Shrinks(AllNames(g), visited, n);
        var taken: seq<nat> := [d];
        InGraphConcat(g, acc, taken);
        var r1 := AllDependencies(g, d, acc + taken, visited + {n});
        Fewer(AllNames(g), visited, r1.1);
        DependenciesFrom(g, deps[1..], r1.0, r1.1)
  }

  /** The threaded walk lists, after `acc`, exactly what the pure pre-order
      walk over the dependencies lists, and leaves the same visited names. */
  lemma {:induction false} AllDependenciesIsBelow(g: Graph, i: nat, acc: seq<nat>, visited: set<string>)
    requires ValidGraph(g) && i < |g| && InGraph(g, acc)
    ensures AllDependencies(g, i, acc, visited) ==
      (acc + Below(g, g[i].dependencies, visited).0, Below(g, g[i].dependencies, visited).1)
    decreases |AllNames(g) - visited|, 1, 0, 0
  {
    if g[i].dependencies == [] {
      assert acc + [] == acc;
    } else {
      DependenciesFromIsBelow(g, g[i].dependencies, acc, visited);
    }
  }

  lemma {:induction false} DependenciesFromIsBelow(g: Graph, deps: seq<nat>, acc: seq<nat>, visited: set<string>)
    requires ValidGraph(g) && InGraph(g, deps) && InGraph(g, acc)
    ensures DependenciesFrom(g, deps, acc, visited) ==
      (acc + Below(g, deps, visited).0, Below(g, deps, visited).1)
    decreases |AllNames(g) - visited|, 0, |deps|, 1
  {
    if deps == [] {
      assert acc + [] == acc;
    } else if g[deps[0]].name in visited {
      DependenciesFromIsBelow(g, deps[1..], acc, visited);
    } else {
      DependenciesFromTake(g, deps, acc, visited);
    }
  }

  /** The step of `DependenciesFromIsBelow` where the first dependency's
      name is new: it is listed, then everything below it, then the rest. */
  lemma {:induction false} DependenciesFromTake(g: Graph, deps: seq<nat>, acc: seq<nat>, visited: set<string>)
    requires ValidGraph(g) && InGraph(g, deps) && InGraph(g, acc)
    requires deps != [] && g[deps[0]].name !in visited
    ensures DependenciesFrom(g, deps, acc, visited) ==
      (acc + Below(g, deps, visited).0, Below(g, deps, visited).1)
    decreases |AllNames(g) - visited|, 0, |deps|, 0
  {
    var d := deps[0];
    var n := g[d].name;
    Shrinks(AllNames(g), visited, n);
    var taken: seq<nat> := [d];
    InGraphConcat(g, acc, taken);
    var b1 := Below(g, g[d].dependencies, visited + {n});
    var r1 := AllDependencies(g, d, acc + taken, visited + {n});
    AllDependenciesIsBelow(g, d, acc + taken, visited + {n});
    assert r1 == (acc + taken + b1.0, b1.1);
    Fewer(AllNames(g), visited, b1.1);
    var b2 := Below(g, deps[1..], b1.1);
    assert DependenciesFrom(g, deps, acc, visited) == DependenciesFrom(g, deps[1..], r1.0, r1.1);
    DependenciesFromIsBelow(g, deps[1..], r1.0, r1.1);
    BelowUnfold(g, deps, visited);
    assert acc + taken + b1.0 + b2.0 == acc + (taken + b1.0 + b2.0);
  }

  /** Called from the top, the threaded walk is the pure one. */
  lemma FromTopIsBelow(g: Graph, i: nat)
    requires ValidGraph(g) && i < |g|
    ensures AllDependencies(g, i, [], {}) == Below(g, g[i].dependencies, {})
  {
    var a := AllDependencies(g, i, [], {});
    var b := Below(g, g[i].dependencies, {});
    AllDependenciesIsBelow(g, i, [], {});
    assert a.0 == [] + b.0 && a.1 == b.1;
    assert [] + b.0 == b.0;
    assert a.0 == b.0;
  }

  /** What `getAllDependenciesOfPackage(package)` returns, called as
      `replaceParentInTree` calls it: each name at most once; every direct
      dependency listed; every dependency of a listed package listed, so the
      list holds all packages below by name; and each listed package a
      direct dependency or a dependency of one listed before it. */
  lemma AllDependenciesOfPackage(g: Graph, i: nat)
    requires ValidGraph(g) && i < |g|
    ensures var r := AllDependencies(g, i, [], {});
      && DistinctNames(g, r.0)
      && r.1 == NamesOf(g, r.0)
      && Covers(g, g[i].dependencies, r.1)
      && Closed(g, r.0, r.1)
      && Introduced(g, g[i].dependencies, r.0)
  {
    var deps := g[i].dependencies;
    FromTopIsBelow(g, i);
    BelowDistinct(g, deps, {});
    BelowVisited(g, deps, {});
    BelowCovers(g, deps, {});
    BelowClosed(g, deps, {});
    BelowIntroduced(g, deps, {});
  }

  /** The smallest position of a list, or `|g|` for an empty one. */
  function Floor(g: Graph, list: seq<nat>): (r: nat)
    requires InGraph(g, list)
    ensures r <= |g|
    ensures forall k :: 0 <= k < |list| ==> r <= list[k]
    ensures list != [] ==> r in list
  {
    if list == [] then |g|
    else
      var rest := Floor(g, list[1..]);
      if list[0] < rest then list[0] else rest
  }

  /** `replaceParentPackage(dependency, parent)` for each dependency in
      turn. */
  function ReplaceParentForAll(env: Env, m: NameVisitor.ClassMap, st: State, g: Graph, parent: nat, deps: seq<nat>)
    : (r: Result<State, Error>)
    requires parent < |g| && InGraph(g, deps)
    ensures r.Success? ==> r.value.files.Keys == st.files.Keys && r.value.replaced == st.replaced
    decreases |deps|
  {
    if deps == [] then Success(st)
    else
      var st1 :- ReplaceParentPackage(env, m, st, g[deps[0]], g[parent]);
      ReplaceParentForAll(env, m, st1, g, parent, deps[1..])
  }

  /** `replaceParentInTree`: for each package that is not excluded, every
      package below it is replaced into it, and then its direct dependencies
      are treated the same way. There is no visited set, so a package is
      handled once per path that reaches it; on a cycle the source would
      recurse without end, so the model takes an acyclic graph. The
      renames of the main pass are never changed. */
  function ReplaceParentInTree(env: Env, m: NameVisitor.ClassMap, st: State, g: Graph, list: seq<nat>)
    : (r: Result<State, Error>)
    requires ValidGraph(g) && Topological(g) && InGraph(g, list)
    ensures r.Success? ==> r.value.files.Keys == st.files.Keys && r.value.replaced == st.replaced
    decreases |g| - Floor(g, list), |list| + 1
  {
    if list == [] then Success(st)
    else
      var st1 :- ReplaceParentInTreeOne(env, m, st, g, list[0]);
      ReplaceParentInTree(env, m, st1, g, list[1..])
  }

  /** One package of `replaceParentInTree`. */
  function ReplaceParentInTreeOne(env: Env, m: NameVisitor.ClassMap, st: State, g: Graph, i: nat)
    : (r: Result<State, Error>)
    requires ValidGraph(g) && Topological(g) && i < |g|
    ensures IsExcluded(env.settings, g[i]) ==> r == Success(st)
    ensures r.Success? ==> r.value.files.Keys == st.files.Keys && r.value.replaced == st.replaced
    decreases |g| - i, 0
  {
    if IsExcluded(env.settings, g[i]) then Success(st)
    else
      var deps := AllDependencies(g, i, [], {}).0;
      var st1 :- ReplaceParentForAll(env, m, st, g, i, deps);
      ReplaceParentInTree(env, m, st1, g, g[i].dependencies)
  }

  /** The tree pass over `a + b` is the pass over `a` followed, when it
      succeeds, by the pass over `b`. */
  lemma {:induction false} TreeAppend(env: Env, m: NameVisitor.ClassMap, st: State, g: Graph, a: seq<nat>, b: seq<nat>)
    requires ValidGraph(g) && Topological(g) && InGraph(g, a) && InGraph(g, b)
    ensures InGraph(g, a + b)
    ensures ReplaceParentInTree(env, m, st, g, a + b) ==
      match ReplaceParentInTree(env, m, st, g, a)
      case Failure(e) => Failure(e)
      case Success(st1) => ReplaceParentInTree(env, m, st1, g, b)
    decreases |a|
  {
    InGraphConcat(g, a, b);
    if a == [] {
      assert a + b == b;
    } else {
      assert (a + b)[1..] == a[1..] + b;
      match ReplaceParentInTreeOne(env, m, st, g, a[0])
      case Failure(e) =>
      case Success(st1) =>
        TreeAppend(env, m, st1, g, a[1..], b);
    }
  }

  /** For a package that is not excluded, the packages replaced into it are
      exactly those the pre-order walk below it lists, and the pass then
      goes on with its direct dependencies. */
  lemma TreeOneUsesWalk(env: Env, m: NameVisitor.ClassMap, st: State, g: Graph, i: nat)
    requires ValidGraph(g) && Topological(g) && i < |g|
    requires !IsExcluded(env.settings, g[i])
    ensures InGraph(g, Below(g, g[i].dependencies, {}).0)
    ensures ReplaceParentInTreeOne(env, m, st, g, i) ==
      match ReplaceParentForAll(env, m, st, g, i, Below(g, g[i].dependencies, {}).0)
      case Failure(e) => Failure(e)
      case Success(st1) => ReplaceParentInTree(env, m, st1, g, g[i].dependencies)
  {
    FromTopIsBelow(g, i);
  }
}
