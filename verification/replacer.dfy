/** `Replacer`: the driver that, after the packages were moved, rewrites each
    package's files with the replacer its autoloader calls for, and gathers
    the classes renamed in classmap mode. */
module Replacer {
  import opened Wrappers
  import opened Strings
  import opened Parsing
  import opened Packages
  import opened PackageOrder
  import NamespaceReplacer
  import ClassmapReplacer
  import FilesAutoloader
  import ClassmapAutoloader

  /** What the driver consults and never changes: the Mozart configuration,
      the parser, for each directory that exists the paths of the files the
      search below it returns, the search for a file name below a
      directory, and the namespaces a `files` autoloader had already
      detected (by real path) when the files were moved, which its object
      still caches when the driver runs. The driver only rewrites files it
      has just read, so the directory listings stay as they are. */
  datatype Env = Env(
    settings: Settings,
    parser: Parser,
    listing: map<string, seq<string>>,
    find: (string, string) -> seq<string>,
    detected: map<string, Option<string>>)

  /** What the driver changes: file contents by absolute path, and
      `replacedClasses`. */
  datatype State = State(files: map<string, string>, replaced: map<string, string>)

  /** The files handler works below the working directory. */
  function Physical(env: Env, path: string): string {
    env.settings.workingDir + path
  }

  /** `readFile`: the contents, or nothing when the file cannot be read. */
  function ReadFile(env: Env, st: State, path: string): (r: Option<string>)
    ensures r.Some? <==> Physical(env, path) in st.files
    ensures r.Some? ==> r.value == st.files[Physical(env, path)]
  {
    if Physical(env, path) in st.files then Some(st.files[Physical(env, path)]) else None
  }

  /** A path with the working directory taken out, as `str_replace` does
      it: every occurrence goes. */
  function Strip(env: Env, path: string): string {
    ReplaceAll(path, env.settings.workingDir, "")
  }

  /** Which replacer rewrites a file: namespace mode (with the namespace to
      search for, when one is set explicitly) or classmap mode. */
  datatype Choice = NamespaceMode(search: Option<string>) | ClassmapMode

  /** `getReplacerByAutoloader`: namespace mode for a PSR autoloader and
      classmap mode for every other kind. */
  function ReplacerFor(a: Autoloader): (r: Choice)
    ensures r.NamespaceMode? <==> a.NamespaceLoader?
    ensures r.NamespaceMode? ==> r.search.None?
  {
    if a.NamespaceLoader? then NamespaceMode(None) else ClassmapMode
  }

  /** The choice for a file of a `files` autoloader: namespace mode,
      searching for the detected namespace, when one was detected. */
  function ReplacerForDetected(ns: Option<string>): (r: Choice)
    ensures r.NamespaceMode? <==> ns.Some?
    ensures r.NamespaceMode? ==> r.search == ns
  {
    if ns.Some? then NamespaceMode(ns) else ClassmapMode
  }

  /** One file's contents through the chosen replacer, and the renames
      afterwards: a fresh classmap replacer per file whose renames are merged
      into the driver's, later entries winning. Only classmap mode changes
      the renames, and every failure is a file operation error. */
  function Rewrite(env: Env, c: Choice, a: Autoloader, contents: string, replaced: map<string, string>)
    : (r: Result<(string, map<string, string>), Error>)
    ensures c.NamespaceMode? && r.Success? ==> r.value.1 == replaced
    ensures r.Failure? ==> r.error == FileOperationError
  {
    match c
    case NamespaceMode(search) =>
      var out :- NamespaceReplacer.Replace(env.parser, env.settings.depNamespace, search, a, contents);
      Success((out, replaced))
    case ClassmapMode =>
      var res :- ClassmapReplacer.Replace(env.parser, env.settings.classmapPrefix, map[], contents);
      Success((res.0, replaced + res.1))
  }

  /** Namespace mode is the namespace replacer alone. */
  lemma RewriteNamespace(env: Env, search: Option<string>, a: Autoloader, contents: string, replaced: map<string, string>)
    ensures var r := Rewrite(env, NamespaceMode(search), a, contents, replaced);
      var n := NamespaceReplacer.Replace(env.parser, env.settings.depNamespace, search, a, contents);
      && (r.Success? <==> n.Success?)
      && (r.Success? ==> r.value == (n.value, replaced))
  {
  }

  /** A fresh classmap replacer per file, merged into the driver's renames,
      later entries winning, gives what one replacer that lives across all
      the files would give. */
  lemma RewriteClassmap(env: Env, a: Autoloader, contents: string, replaced: map<string, string>)
    ensures Rewrite(env, ClassmapMode, a, contents, replaced)
         == ClassmapReplacer.Replace(env.parser, env.settings.classmapPrefix, replaced, contents)
  {
    ClassmapReplacer.FreshThenMerge(env.parser, env.settings.classmapPrefix, replaced, contents);
  }

  /** Only these files were written: every file is still there, and a file
      outside `touched` keeps its contents. */
  predicate Framed(st: State, st1: State, touched: set<string>) {
    && st1.files.Keys == st.files.Keys
    && forall k :: k in st.files && k !in touched ==> st1.files[k] == st.files[k]
  }

  /** `replaceInFile`: the path is taken relative to the working directory;
      an unreadable or empty file is skipped; otherwise the replacer the
      autoloader calls for rewrites it, a failure ends the run, and the
      result is written back. Nothing but that one file changes, and the
      renames change only in classmap mode. */
  function ReplaceInFile(env: Env, a: Autoloader, st: State, targetFile: string): (r: Result<State, Error>)
    ensures var path := Strip(env, targetFile);
      var c := ReadFile(env, st, path);
      && (c.None? || PhpEmpty(c.value) ==> r == Success(st))
      && (r.Failure? <==> c.Some? && !PhpEmpty(c.value) && Rewrite(env, ReplacerFor(a), a, c.value, st.replaced).Failure?)
      && (r.Success? ==> Framed(st, r.value, {Physical(env, path)}))
      && (r.Success? && c.Some? && !PhpEmpty(c.value) ==>
            var w := Rewrite(env, ReplacerFor(a), a, c.value, st.replaced).value;
            r.value.files[Physical(env, path)] == w.0 && r.value.replaced == w.1)
    ensures r.Success? && a.NamespaceLoader? ==> r.value.replaced == st.replaced
  {
    var path := Strip(env, targetFile);
    match ReadFile(env, st, path)
    case None => Success(st)
    case Some(contents) =>
      if PhpEmpty(contents) then Success(st)
      else
        var res :- Rewrite(env, ReplacerFor(a), a, contents, st.replaced);
        Success(State(st.files[Physical(env, path) := res.0], res.1))
  }

  /** The files a run over `found` may write: the `.php` ones, relative to
      the working directory. */
  ghost function Targets(env: Env, found: seq<string>): set<string> {
    set x | x in found && ClassmapAutoloader.IsPhpFile(x) :: Physical(env, Strip(env, x))
  }

  /** The loop over found files of `replaceInDirectory` and of the classmap
      case: each `.php` path through `replaceInFile`, in order, stopping at
      the first failure. Only those files change, and the renames change
      only in classmap mode. */
  function ReplaceFound(env: Env, a: Autoloader, st: State, found: seq<string>): (r: Result<State, Error>)
    ensures r.Success? ==> Framed(st, r.value, Targets(env, found))
    ensures r.Success? && a.NamespaceLoader? ==> r.value.replaced == st.replaced
    ensures r.Failure? ==> r.error == FileOperationError
    decreases |found|
  {
    if found == [] then Success(st)
    else
      var x := found[0];
      var st1 :- if ClassmapAutoloader.IsPhpFile(x) then ReplaceInFile(env, a, st, x) else Success(st);
      var r := ReplaceFound(env, a, st1, found[1..]);
      if r.Success? then
        assert Targets(env, found[1..]) <= Targets(env, found);
        assert ClassmapAutoloader.IsPhpFile(x) ==> Physical(env, Strip(env, x)) in Targets(env, found);
        r
      else r
  }

  /** A path that does not end in `.php` is never written by the loop,
      unless another found path names the same file. */
  lemma NonPhpUntouched(env: Env, a: Autoloader, st: State, found: seq<string>, k: string)
    requires ReplaceFound(env, a, st, found).Success?
    requires k in st.files
    requires forall x :: x in found && Physical(env, Strip(env, x)) == k ==> !ClassmapAutoloader.IsPhpFile(x)
    ensures ReplaceFound(env, a, st, found).value.files[k] == st.files[k]
  {
    assert k !in Targets(env, found);
  }

  /** `replaceInDirectory`: nothing when the directory does not exist,
      otherwise the loop over the files below it. */
  function ReplaceInDirectory(env: Env, a: Autoloader, st: State, directory: string): (r: Result<State, Error>)
    ensures directory !in env.listing ==> r == Success(st)
    ensures directory in env.listing ==> r == ReplaceFound(env, a, st, env.listing[directory])
    ensures r.Success? ==> r.value.files.Keys == st.files.Keys
    ensures r.Success? && a.NamespaceLoader? ==> r.value.replaced == st.replaced
  {
    if directory !in env.listing then Success(st)
    else ReplaceFound(env, a, st, env.listing[directory])
  }

  /** One file of a `files` autoloader: its target path (detecting the
      namespace once), skipped unless it ends in `.php`, is readable and is
      not empty; otherwise rewritten in namespace mode, searching for the
      namespace detected again through the cache, or in classmap mode when
      there is none, and written back. */
  function ReplaceDetected(env: Env, p: Package, a: Autoloader, fst: FilesAutoloader.FilesState, st: State, file: string)
    : (r: Result<(FilesAutoloader.FilesState, State), Error>)
    ensures r.Failure? ==> (r.error == ConfigurationError <==> !fst.initialized)
    ensures r.Success? ==> r.value.0.initialized == fst.initialized
    ensures r.Success? ==> r.value.1.files.Keys == st.files.Keys
  {
    var t :- FilesAutoloader.GetTargetFilePath(fst, env.settings, p, env.parser, st.files, file);
    var fullPath := env.settings.workingDir + t.0;
    if !ClassmapAutoloader.IsPhpFile(fullPath) then Success((t.1, st))
    else
      var path := Strip(env, fullPath);
      match ReadFile(env, st, path)
      case None => Success((t.1, st))
      case Some(contents) =>
        if PhpEmpty(contents) then Success((t.1, st))
        else
          var (ns, fst1) := FilesAutoloader.GetDetectedNamespace(t.1, env.parser, st.files, file);
          var res :- Rewrite(env, ReplacerForDetected(ns), a, contents, st.replaced);
          Success((fst1, State(st.files[Physical(env, path) := res.0], res.1)))
  }

  /** While the detection cache agrees with the files, a file of a `files`
      autoloader is rewritten in namespace mode, searching for its own
      declared namespace, exactly when it declares one. */
  lemma DetectedChoosesReplacer(env: Env, p: Package, a: Autoloader, fst: FilesAutoloader.FilesState, st: State, file: string)
    requires fst.initialized
    requires FilesAutoloader.CacheAgrees(fst, env.parser, st.files)
    ensures var t := FilesAutoloader.GetTargetFilePath(fst, env.settings, p, env.parser, st.files, file);
      var path := Strip(env, env.settings.workingDir + t.value.0);
      var c := ReadFile(env, st, path);
      var ns := FilesAutoloader.Detect(env.parser, st.files, file);
      var r := ReplaceDetected(env, p, a, fst, st, file);
      (ClassmapAutoloader.IsPhpFile(env.settings.workingDir + t.value.0) && c.Some? && !PhpEmpty(c.value)) ==>
        && (r.Success? <==> Rewrite(env, ReplacerForDetected(ns), a, c.value, st.replaced).Success?)
        && (r.Success? ==>
              var w := Rewrite(env, ReplacerForDetected(ns), a, c.value, st.replaced).value;
              r.value.1 == State(st.files[Physical(env, path) := w.0], w.1))
  {
    FilesAutoloader.CacheTransparent(fst, env.parser, st.files, file);
    var t := FilesAutoloader.GetTargetFilePath(fst, env.settings, p, env.parser, st.files, file).value;
    FilesAutoloader.CacheTransparent(t.1, env.parser, st.files, file);
  }

  /** The loop of `replaceFilesAutoloader` over the files `getFiles` found,
      stopping at the first failure. */
  function ReplaceFilesFound(env: Env, p: Package, a: Autoloader, fst: FilesAutoloader.FilesState, st: State, found: seq<string>)
    : (r: Result<State, Error>)
    ensures r.Failure? ==> (r.error == ConfigurationError <==> !fst.initialized && found != [])
    ensures r.Success? ==> r.value.files.Keys == st.files.Keys
    decreases |found|
  {
    if found == [] then Success(st)
    else
      var step :- ReplaceDetected(env, p, a, fst, st, found[0]);
      ReplaceFilesFound(env, p, a, step.0, step.1, found[1..])
  }

  /** `replaceFilesAutoloader`: the files `getFiles` finds for the listed
      entries, each moved target rewritten as above, starting from the
      detection cache the autoloader carries. Since `getFiles` runs first,
      the target paths are always available and every failure is a file
      operation error. */
  function ReplaceFilesAutoloader(env: Env, p: Package, a: Autoloader, st: State): (r: Result<State, Error>)
    requires a.FilesLoader?
    ensures r.Failure? ==> r.error == FileOperationError
    ensures r.Success? ==> r.value.files.Keys == st.files.Keys
  {
    var (fst, found) := FilesAutoloader.GetFiles(FilesAutoloader.FilesState(false, env.detected), env.settings, p, a.files, env.find);
    ReplaceFilesFound(env, p, a, fst, st, found)
  }

  /** The directory a PSR autoloader's files were moved to. */
  function NamespaceDirectory(s: Settings, a: Autoloader): string
    requires a.NamespaceLoader?
  {
    s.workingDir + s.depDirectory + FilesAutoloader.NamespacePath(a.namespace)
  }

  /** The directory a package's classmap files were moved to. */
  function ClassmapDirectory(s: Settings, p: Package): string {
    s.workingDir + s.classmapDirectory + DirectoryName(p)
  }

  /** `replacePackageByAutoloader`: nothing for an excluded package; a PSR
      autoloader rewrites the namespace directory in namespace mode, a
      classmap autoloader the package's classmap directory in classmap mode
      (nothing when it does not exist), a `files` autoloader its files. */
  function ReplacePackageByAutoloader(env: Env, p: Package, a: Autoloader, st: State): (r: Result<State, Error>)
    ensures IsExcluded(env.settings, p) ==> r == Success(st)
    ensures !IsExcluded(env.settings, p) && a.NamespaceLoader? ==>
      r == ReplaceInDirectory(env, a, st, NamespaceDirectory(env.settings, a))
    ensures !IsExcluded(env.settings, p) && a.ClassmapLoader? ==>
      r == ReplaceInDirectory(env, a, st, ClassmapDirectory(env.settings, p))
    ensures r.Success? ==> r.value.files.Keys == st.files.Keys
    ensures r.Success? && a.NamespaceLoader? ==> r.value.replaced == st.replaced
  {
    if IsExcluded(env.settings, p) then Success(st)
    else match a
      case NamespaceLoader(_, _, _) => ReplaceInDirectory(env, a, st, NamespaceDirectory(env.settings, a))
      case ClassmapLoader(_, _) => ReplaceInDirectory(env, a, st, ClassmapDirectory(env.settings, p))
      case FilesLoader(_) => ReplaceFilesAutoloader(env, p, a, st)
  }

  /** The autoloaders of a package in their declared order, stopping at the
      first failure. */
  function ReplaceAutoloaders(env: Env, p: Package, autoloaders: seq<Autoloader>, st: State): (r: Result<State, Error>)
    ensures IsExcluded(env.settings, p) ==> r == Success(st)
    ensures r.Success? ==> r.value.files.Keys == st.files.Keys
    decreases |autoloaders|
  {
    if autoloaders == [] then Success(st)
    else
      var st1 :- ReplacePackageByAutoloader(env, p, autoloaders[0], st);
      ReplaceAutoloaders(env, p, autoloaders[1..], st1)
  }

  /** `replacePackage`. */
  function ReplacePackage(env: Env, p: Package, st: State): (r: Result<State, Error>)
    ensures IsExcluded(env.settings, p) ==> r == Success(st)
    ensures r.Success? ==> r.value.files.Keys == st.files.Keys
  {
    ReplaceAutoloaders(env, p, Autoloaders(p), st)
  }

  /** A package whose autoloaders are all PSR ones leaves the renames as
      they were. */
  lemma {:induction false} NamespaceOnlyKeepsRenames(env: Env, p: Package, autoloaders: seq<Autoloader>, st: State)
    requires forall j :: 0 <= j < |autoloaders| ==> autoloaders[j].NamespaceLoader?
    requires ReplaceAutoloaders(env, p, autoloaders, st).Success?
    ensures ReplaceAutoloaders(env, p, autoloaders, st).value.replaced == st.replaced
    decreases |autoloaders|
  {
    if autoloaders != [] {
      var st1 := ReplacePackageByAutoloader(env, p, autoloaders[0], st).value;
      NamespaceOnlyKeepsRenames(env, p, autoloaders[1..], st1);
    }
  }

  /** `replacePackages`: each package whose name was not visited yet is
      marked, its dependencies are walked, and then the package itself is
      rewritten; a failure ends the run. The visited names only grow. */
  function ReplacePackages(env: Env, g: Graph, st: State, visited: set<string>, list: seq<nat>)
    : (r: Result<(State, set<string>), Error>)
    requires ValidGraph(g) && InGraph(g, list)
    ensures r.Success? ==> visited <= r.value.1 <= visited + AllNames(g)
    decreases |AllNames(g) - visited|, |list|
  {
    if list == [] then Success((st, visited))
    else
      var i := list[0];
      var n := g[i].name;
      if n in visited then ReplacePackages(env, g, st, visited, list[1..])
      else
        Shrinks(AllNames(g), visited, n);
        var r1 :- ReplacePackages(env, g, st, visited + {n}, g[i].dependencies);
        Fewer(AllNames(g), visited, r1.1);
        var st2 :- ReplacePackage(env, g[i], r1.0);
        ReplacePackages(env, g, st2, r1.1, list[1..])
  }

  /** `replacePackage` for each package of a schedule, in order, stopping
      at the first failure. */
  function RunAll(env: Env, g: Graph, st: State, o: seq<nat>): (r: Result<State, Error>)
    requires InGraph(g, o)
    decreases |o|
  {
    if o == [] then Success(st)
    else
      var st1 :- ReplacePackage(env, g[o[0]], st);
      RunAll(env, g, st1, o[1..])
  }

  /** Running a schedule in two parts runs the first and then the second. */
  lemma {:induction false} RunAllAppend(env: Env, g: Graph, st: State, a: seq<nat>, b: seq<nat>)
    requires InGraph(g, a) && InGraph(g, b)
    ensures InGraph(g, a + b)
    ensures RunAll(env, g, st, a + b) ==
      match RunAll(env, g, st, a)
      case Success(st1) => RunAll(env, g, st1, b)
      case Failure(e) => Failure(e)
    decreases |a|
  {
    assert InGraph(g, a + b) by {
      forall k | 0 <= k < |a + b| ensures (a + b)[k] < |g| {
        if k >= |a| {
          assert (a + b)[k] == b[k - |a|];
        }
      }
    }
    if a == [] {
      assert a + b == b;
    } else {
      assert (a + b)[0] == a[0];
      assert (a + b)[1..] == a[1..] + b;
      match ReplacePackage(env, g[a[0]], st)
      case Success(st1) => RunAllAppend(env, g, st1, a[1..], b);
      case Failure(_) =>
    }
  }

  /** The outcome of running a schedule, paired with the visited names. */
  function WithVisited(r: Result<State, Error>, w: set<string>): Result<(State, set<string>), Error> {
    match r
    case Success(st) => Success((st, w))
    case Failure(e) => Failure(e)
  }

  /** The driver follows the schedule: `replacePackages` rewrites exactly
      the packages `Order` lists, in that order, and ends with the visited
      names `Order` gives. */
  lemma {:induction false} ReplacePackagesFollowsOrder(env: Env, g: Graph, st: State, visited: set<string>, list: seq<nat>)
    requires ValidGraph(g) && InGraph(g, list)
    ensures ReplacePackages(env, g, st, visited, list)
         == WithVisited(RunAll(env, g, st, Order(g, visited, list).0), Order(g, visited, list).1)
    decreases |AllNames(g) - visited|, |list|
  {
    if list != [] {
      var i := list[0];
      var n := g[i].name;
      if n in visited {
        ReplacePackagesFollowsOrder(env, g, st, visited, list[1..]);
      } else {
        Shrinks(AllNames(g), visited, n);
        var o1 := Order(g, visited + {n}, g[i].dependencies);
        Fewer(AllNames(g), visited, o1.1);
        var o2 := Order(g, o1.1, list[1..]);
        assert Order(g, visited, list) == (o1.0 + [i] + o2.0, o2.1);
        RunJoin(env, g, st, o1.0, i, o2.0);
        ReplacePackagesFollowsOrder(env, g, st, visited + {n}, g[i].dependencies);
        match RunAll(env, g, st, o1.0)
        case Failure(_) =>
        case Success(st1) =>
          match ReplacePackage(env, g[i], st1)
          case Failure(_) =>
          case Success(st2) =>
            ReplacePackagesFollowsOrder(env, g, st2, o1.1, list[1..]);
      }
    }
  }

  /** Running `a + [i] + b`: `a`, then package `i`, then `b`. */
  lemma RunJoin(env: Env, g: Graph, st: State, a: seq<nat>, i: nat, b: seq<nat>)
    requires InGraph(g, a) && i < |g| && InGraph(g, b)
    ensures InGraph(g, a + [i] + b)
    ensures RunAll(env, g, st, a + [i] + b) ==
      match RunAll(env, g, st, a)
      case Failure(e) => Failure(e)
      case Success(st1) =>
        match ReplacePackage(env, g[i], st1)
        case Failure(e) => Failure(e)
        case Success(st2) => RunAll(env, g, st2, b)
  {
    InGraphJoin(g, a, i, b);
    RunAllAppend(env, g, st, a + [i], b);
    RunAllAppend(env, g, st, a, [i]);
    match RunAll(env, g, st, a)
    case Failure(_) =>
    case Success(st1) =>
      assert [i][1..] == [];
  }
}
