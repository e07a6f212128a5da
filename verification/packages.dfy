/** The package records the drivers walk. The loaded dependency graph is an
    arena: a sequence of packages whose dependencies are positions in it. */
module Packages {
  import opened Wrappers
  import opened Strings

  /** An autoload section of a package: PSR-0/PSR-4 (`NamespaceAutoloader`:
      the namespace it declares, the namespace it reports to search for, and
      its source paths), `classmap` (its `.php` entries and its directory
      entries) or `files` (the listed file paths). */
  datatype Autoloader =
    | NamespaceLoader(namespace: string, searchNamespace: string, paths: seq<string>)
    | ClassmapLoader(files: seq<string>, paths: seq<string>)
    | FilesLoader(files: seq<string>)

  /** The Mozart configuration the drivers read: the working directory, the
      target directories for namespaced and classmap code, the namespace
      prefix, the classmap prefix, and the names of excluded packages. */
  datatype Settings = Settings(
    workingDir: string,
    depDirectory: string,
    classmapDirectory: string,
    depNamespace: string,
    classmapPrefix: string,
    excludedPackages: set<string>)

  /** The `extra.mozart` section of a composer.json, and whether the Mozart
      configuration class judges it valid. */
  datatype MozartSection = MozartSection(settings: Settings, valid: bool)

  datatype Extra = Extra(mozart: Option<MozartSection>)

  /** A package: its name, the directory name below `vendor/` when the
      factory found one, the `require` entries (slug and constraint, in
      composer.json order; a JSON object holds each slug once, which the
      sequence does not enforce), its autoloaders, its `extra` section, the
      positions of its registered dependencies, and the load-once flag. */
  datatype Package = Package(
    name: string,
    directoryName: Option<string>,
    require: seq<(string, string)>,
    autoload: Option<seq<Autoloader>>,
    extra: Option<Extra>,
    dependencies: seq<nat>,
    dependenciesLoaded: bool)

  type Graph = seq<Package>

  /** Every registered dependency is a package of the graph. */
  predicate ValidGraph(g: Graph) {
    forall i, k :: 0 <= i < |g| && 0 <= k < |g[i].dependencies| ==> g[i].dependencies[k] < |g|
  }

  /** Every package listed is a graph position. */
  predicate InGraph(g: Graph, xs: seq<nat>) {
    forall k :: 0 <= k < |xs| ==> xs[k] < |g|
  }

  /** Each package of `o` is one of `roots` or a dependency of a package
      before it in `o`. */
  ghost predicate Introduced(g: Graph, roots: seq<nat>, o: seq<nat>)
    requires InGraph(g, o)
  {
    forall k :: 0 <= k < |o| ==> o[k] in roots || exists j :: 0 <= j < k && o[k] in g[o[j]].dependencies
  }

  /** The names of a list of packages. */
  function NamesOf(g: Graph, xs: seq<nat>): (r: set<string>)
    requires InGraph(g, xs)
    ensures forall k :: 0 <= k < |xs| ==> g[xs[k]].name in r
    ensures forall n :: n in r ==> exists k :: 0 <= k < |xs| && g[xs[k]].name == n
  {
    if xs == [] then {} else {g[xs[0]].name} + NamesOf(g, xs[1..])
  }

  /** No two packages of the list share a name. */
  predicate DistinctNames(g: Graph, xs: seq<nat>)
    requires InGraph(g, xs)
  {
    forall j, k :: 0 <= j < k < |xs| ==> g[xs[j]].name != g[xs[k]].name
  }

  lemma NamesOfAppend(g: Graph, xs: seq<nat>, x: nat)
    requires InGraph(g, xs) && x < |g|
    ensures NamesOf(g, xs + [x]) == NamesOf(g, xs) + {g[x].name}
  {
    var l, rt := NamesOf(g, xs + [x]), NamesOf(g, xs) + {g[x].name};
    forall n | n in l ensures n in rt {
      var k :| 0 <= k < |xs + [x]| && g[(xs + [x])[k]].name == n;
      if k < |xs| {
        assert (xs + [x])[k] == xs[k];
      }
    }
    forall n | n in rt ensures n in l {
      if n != g[x].name {
        var k :| 0 <= k < |xs| && g[xs[k]].name == n;
        assert (xs + [x])[k] == xs[k];
      } else {
        assert (xs + [x])[|xs|] == x;
      }
    }
  }

  /** The names of the whole graph. */
  ghost function AllNames(g: Graph): (r: set<string>)
    ensures forall i :: 0 <= i < |g| ==> g[i].name in r
  {
    set i | 0 <= i < |g| :: g[i].name
  }

  /** Seeing a new name leaves fewer names unseen. */
  lemma Shrinks(names: set<string>, seen: set<string>, n: string)
    requires n in names && n !in seen
    ensures |names - (seen + {n})| < |names - seen|
  {
    var rest := names - (seen + {n});
    assert names - seen == rest + {n};
    assert |rest + {n}| == |rest| + 1;
  }

  /** Every dependency sits after the package that requires it. Loading
      registers a package's dependencies only after loading theirs, and a
      cycle would never finish loading, so a loaded graph can always be
      laid out this way. */
  predicate Topological(g: Graph) {
    forall i, k :: 0 <= i < |g| && 0 <= k < |g[i].dependencies| ==> i < g[i].dependencies[k] < |g|
  }

  /** No two packages of a graph share a name. The package factory caches
      packages by the path of their composer.json, not by name, so this is
      an assumption about the installed tree: one directory per package
      name, as Composer lays out `vendor/`. */
  predicate UniqueNames(g: Graph) {
    forall i, j :: 0 <= i < |g| && 0 <= j < |g| && g[i].name == g[j].name ==> i == j
  }

  /** `isExcludedPackage` of the Mozart configuration. */
  predicate IsExcluded(s: Settings, p: Package) {
    p.name in s.excludedPackages
  }

  /** `getDirectoryName`: the directory found by the factory, else the
      package name. */
  function DirectoryName(p: Package): (r: string)
    ensures p.directoryName.Some? ==> r == p.directoryName.value
    ensures p.directoryName.None? ==> r == p.name
  {
    p.directoryName.GetOr(p.name)
  }

  /** `getAutoloaders`: none when the package has no autoload section. */
  function Autoloaders(p: Package): (r: seq<Autoloader>)
    ensures p.autoload.None? ==> r == []
    ensures p.autoload.Some? ==> r == p.autoload.value
  {
    if p.autoload.None? then [] else p.autoload.value
  }

  /** `getRequire`: the slugs of the `require` entries, in order. */
  function Require(p: Package): (r: seq<string>)
    ensures |r| == |p.require|
    ensures forall i :: 0 <= i < |r| ==> r[i] == p.require[i].0
  {
    Keys(p.require)
  }

  function Keys(entries: seq<(string, string)>): (r: seq<string>)
    ensures |r| == |entries|
    ensures forall i :: 0 <= i < |r| ==> r[i] == entries[i].0
  {
    if entries == [] then [] else [entries[0].0] + Keys(entries[1..])
  }

  /** `isValidMozartConfig`: false without an `extra` section or without
      its `mozart` part; otherwise the configuration's own verdict. */
  predicate IsValidMozartConfig(p: Package) {
    && p.extra.Some?
    && p.extra.value.mozart.Some?
    && p.extra.value.mozart.value.valid
  }

  /** `registerDependency`: one more dependency at the end. */
  function RegisterDependency(p: Package, d: nat): (r: Package)
    ensures r.dependencies == p.dependencies + [d]
    ensures r == p.(dependencies := r.dependencies)
  {
    p.(dependencies := p.dependencies + [d])
  }

  /** `registerDependencies`: `registerDependency` for each package in turn. */
  function RegisterDependencies(p: Package, ds: seq<nat>): (r: Package)
    decreases |ds|
  {
    if ds == [] then p else RegisterDependencies(RegisterDependency(p, ds[0]), ds[1..])
  }

  /** Registering a list appends it whole, in its order, and touches
      nothing else. */
  lemma {:induction false} RegisterDependenciesAppends(p: Package, ds: seq<nat>)
    ensures RegisterDependencies(p, ds).dependencies == p.dependencies + ds
    ensures RegisterDependencies(p, ds) == p.(dependencies := p.dependencies + ds)
    decreases |ds|
  {
    if ds != [] {
      RegisterDependenciesAppends(RegisterDependency(p, ds[0]), ds[1..]);
      assert p.dependencies + [ds[0]] + ds[1..] == p.dependencies + ds;
    }
  }
}
