/** The `files` autoloader: which listed files still need moving, where a
    moved file goes, and the namespace a file declares. */
module FilesAutoloader {
  import opened Wrappers
  import opened Strings
  import opened Syntax
  import opened Parsing
  import opened Packages
  import opened Collections

  /** The mutable part of a `files` autoloader object: whether `getFiles`
      has run (it records the files handler that `getTargetFilePath` needs),
      and the cache of detected namespaces by real path, where a stored
      `None` is PHP's stored `null`. */
  datatype FilesState = FilesState(initialized: bool, detected: map<string, Option<string>>)

  /** A fresh autoloader object. */
  const Fresh := FilesState(false, map[])

  /** `getSearchNamespace` of the `files` and `classmap` autoloaders always
      throws; only a namespace autoloader has one. */
  function SearchNamespace(a: Autoloader): (r: Result<string, Error>)
    ensures r.Success? <==> a.NamespaceLoader?
    ensures r.Success? ==> r.value == a.searchNamespace
    ensures r.Failure? ==> r.error == ConfigurationError
  {
    if a.NamespaceLoader? then Success(a.searchNamespace) else Failure(ConfigurationError)
  }

  /** One PSR path covers a listed file when, with its trailing slashes
      removed, it is the file's path or a whole leading segment of it. */
  predicate Covers(psrPath: string, file: string) {
    var p := TrimRight(psrPath, Slash);
    StartsWith(file, p + [Slash]) || file == p
  }

  /** The inner loop of `isInsidePsrPath`, over one autoloader's paths. */
  function AnyCovers(paths: seq<string>, file: string): (r: bool)
    ensures r <==> exists k :: 0 <= k < |paths| && Covers(paths[k], file)
  {
    if paths == [] then false
    else if Covers(paths[0], file) then true
    else
      var r := AnyCovers(paths[1..], file);
      assert r <==> exists k :: 1 <= k < |paths| && Covers(paths[k], file) by {
        if r {
          var k :| 0 <= k < |paths[1..]| && Covers(paths[1..][k], file);
          assert Covers(paths[k + 1], file);
        }
      }
      r
  }

  /** `isInsidePsrPath`: some path of some namespace autoloader of the
      package covers the file. */
  function IsInsidePsrPath(autoloaders: seq<Autoloader>, file: string): (r: bool)
    ensures r <==> exists i, k :: 0 <= i < |autoloaders| && autoloaders[i].NamespaceLoader?
                    && 0 <= k < |autoloaders[i].paths| && Covers(autoloaders[i].paths[k], file)
  {
    if autoloaders == [] then false
    else if autoloaders[0].NamespaceLoader? && AnyCovers(autoloaders[0].paths, file) then true
    else
      var r := IsInsidePsrPath(autoloaders[1..], file);
      assert r ==> exists i, k :: 1 <= i < |autoloaders| && autoloaders[i].NamespaceLoader?
                    && 0 <= k < |autoloaders[i].paths| && Covers(autoloaders[i].paths[k], file) by {
        if r {
          var i, k :| 0 <= i < |autoloaders[1..]| && autoloaders[1..][i].NamespaceLoader?
                    && 0 <= k < |autoloaders[1..][i].paths| && Covers(autoloaders[1..][i].paths[k], file);
          assert autoloaders[i + 1] == autoloaders[1..][i];
        }
      }
      r
  }

  /** A PSR path covers only whole segments: `src` does not cover
      `src2/x.php`, nor `srcx`. */
  lemma CoversWholeSegments(psrPath: string, c: char, rest: string)
    requires TrimRight(psrPath, Slash) != [] && c != Slash
    ensures !Covers(psrPath, TrimRight(psrPath, Slash) + [c] + rest)
  {
    var p := TrimRight(psrPath, Slash);
    var file := p + [c] + rest;
    assert file[|p|] == c;
    assert |file| > |p|;
  }

  /** A PSR path covers everything below it, whether or not it is written
      with trailing slashes. */
  lemma CoversBelow(psrPath: string, rest: string)
    ensures Covers(psrPath, TrimRight(psrPath, Slash) + [Slash] + rest)
    ensures Covers(psrPath + [Slash], TrimRight(psrPath, Slash) + [Slash] + rest)
  {
    var p := TrimRight(psrPath, Slash);
    assert (p + [Slash] + rest)[..|p| + 1] == p + [Slash];
    TrimRightExtra(psrPath, Slash);
  }

  /** The vendor directory of the package that `getFiles` searches. */
  function SourcePath(s: Settings, p: Package): (r: string)
    ensures StartsWith(r, s.workingDir)
    ensures EndsWith(r, DirectoryName(p))
  {
    var r := s.workingDir + "vendor/" + DirectoryName(p);
    assert r[..|s.workingDir|] == s.workingDir;
    assert r[|r| - |DirectoryName(p)|..] == DirectoryName(p);
    r
  }

  /** The path of a found file relative to the searched directory, as
      `getFiles` compares it. */
  function Relative(sourcePath: string, found: string): string {
    ReplaceAll(found, sourcePath + [Slash], "")
  }

  /** A found file `getFiles` keeps for the listed file `listed`. */
  ghost predicate Wanted(autoloaders: seq<Autoloader>, sourcePath: string, find: (string, string) -> seq<string>,
                         listed: string, x: string) {
    && !IsInsidePsrPath(autoloaders, listed)
    && x in find(sourcePath, Basename(listed))
    && Relative(sourcePath, x) == listed
  }

  /** A found file `getFiles` keeps for some listed file. */
  ghost predicate WantedAny(autoloaders: seq<Autoloader>, sourcePath: string, find: (string, string) -> seq<string>,
                            listed: seq<string>, x: string) {
    exists k :: 0 <= k < |listed| && Wanted(autoloaders, sourcePath, find, listed[k], x)
  }

  /** The files found for one listed file whose relative path is exactly the
      listed one. */
  function Matching(sourcePath: string, listed: string, found: seq<string>): (r: seq<string>)
    ensures forall x :: x in r <==> x in found && Relative(sourcePath, x) == listed
  {
    Filter(x => Relative(sourcePath, x) == listed, found)
  }

  /** The outer loop of `getFiles`, adding to the real paths kept so far. */
  function Collect(autoloaders: seq<Autoloader>, sourcePath: string, find: (string, string) -> seq<string>,
                   acc: seq<string>, listed: seq<string>): (r: seq<string>)
    ensures NoDup(acc) ==> NoDup(r)
    ensures forall x :: x in r <==> x in acc || WantedAny(autoloaders, sourcePath, find, listed, x)
    decreases |listed|
  {
    if listed == [] then acc
    else
      var file := listed[0];
      var acc1 := if IsInsidePsrPath(autoloaders, file) then acc
                  else AddAll(acc, Matching(sourcePath, file, find(sourcePath, Basename(file))));
      var r := Collect(autoloaders, sourcePath, find, acc1, listed[1..]);
      assert forall x :: x in r <==> x in acc || WantedAny(autoloaders, sourcePath, find, listed, x) by {
        forall x ensures x in r <==> x in acc || WantedAny(autoloaders, sourcePath, find, listed, x) {
          WantedAnyStep(autoloaders, sourcePath, find, listed, x);
        }
      }
      r
  }

  lemma WantedAnyStep(autoloaders: seq<Autoloader>, sourcePath: string, find: (string, string) -> seq<string>,
                      listed: seq<string>, x: string)
    requires listed != []
    ensures WantedAny(autoloaders, sourcePath, find, listed, x) <==>
      Wanted(autoloaders, sourcePath, find, listed[0], x) || WantedAny(autoloaders, sourcePath, find, listed[1..], x)
  {
    if WantedAny(autoloaders, sourcePath, find, listed[1..], x) {
      var k :| 0 <= k < |listed[1..]| && Wanted(autoloaders, sourcePath, find, listed[1..][k], x);
      assert listed[k + 1] == listed[1..][k];
    }
    if WantedAny(autoloaders, sourcePath, find, listed, x) && !Wanted(autoloaders, sourcePath, find, listed[0], x) {
      var k :| 0 <= k < |listed| && Wanted(autoloaders, sourcePath, find, listed[k], x);
      assert k != 0;
      assert listed[1..][k - 1] == listed[k];
    }
  }

  /** `getFiles`: the real paths of the found files that match a listed file
      exactly, for the listed files not already under a PSR path of the
      package, each once, in the order first found. It records the files
      handler, so the object is ready for `getTargetFilePath`. */
  function GetFiles(st: FilesState, s: Settings, p: Package, listed: seq<string>, find: (string, string) -> seq<string>)
    : (r: (FilesState, seq<string>))
    ensures r.0 == st.(initialized := true)
    ensures NoDup(r.1)
    ensures forall x :: x in r.1 <==> WantedAny(Autoloaders(p), SourcePath(s, p), find, listed, x)
  {
    (st.(initialized := true), Collect(Autoloaders(p), SourcePath(s, p), find, [], listed))
  }

  /** A listed file under a PSR path of its package contributes nothing,
      whatever the search finds. */
  lemma CoveredNotCollected(s: Settings, p: Package, listed: seq<string>, find: (string, string) -> seq<string>,
                            i: nat, x: string)
    requires i < |listed| && IsInsidePsrPath(Autoloaders(p), listed[i])
    requires x in GetFiles(FilesState(false, map[]), s, p, listed, find).1
    ensures exists k :: 0 <= k < |listed| && listed[k] != listed[i] && Relative(SourcePath(s, p), x) == listed[k]
  {
    var k :| 0 <= k < |listed| && Wanted(Autoloaders(p), SourcePath(s, p), find, listed[k], x);
    assert listed[k] != listed[i];
  }

  /** The position of the first top-level namespace statement. */
  function FirstNamespace(ast: seq<Node>): (r: Option<nat>)
    ensures r.Some? ==> r.value < |ast| && ast[r.value].Namespace?
    ensures r.Some? ==> forall j :: 0 <= j < r.value ==> !ast[j].Namespace?
    ensures r.None? ==> forall j :: 0 <= j < |ast| ==> !ast[j].Namespace?
  {
    FirstNamespaceFrom(ast, 0)
  }

  function FirstNamespaceFrom(ast: seq<Node>, i: nat): (r: Option<nat>)
    requires i <= |ast|
    ensures r.Some? ==> i <= r.value < |ast| && ast[r.value].Namespace?
    ensures r.Some? ==> forall j :: i <= j < r.value ==> !ast[j].Namespace?
    ensures r.None? ==> forall j :: i <= j < |ast| ==> !ast[j].Namespace?
    decreases |ast| - i
  {
    if i == |ast| then None
    else if ast[i].Namespace? then Some(i)
    else FirstNamespaceFrom(ast, i + 1)
  }

  /** The statement at `i` is the first top-level namespace statement. */
  predicate IsFirstNamespace(ast: seq<Node>, i: int) {
    0 <= i < |ast| && ast[i].Namespace? && forall j :: 0 <= j < i ==> !ast[j].Namespace?
  }

  /** The namespace a parsed file declares: the name of its first top-level
      namespace statement; none for an unnamed `namespace { }` block or
      when there is no namespace statement. */
  function DeclaredNamespace(ast: seq<Node>): (r: Option<string>)
    ensures forall i :: IsFirstNamespace(ast, i) ==>
      r == if ast[i].nsName.Some? then Some(ast[i].nsName.value.str) else None
    ensures (forall i :: 0 <= i < |ast| ==> !ast[i].Namespace?) ==> r.None?
  {
    match FirstNamespace(ast)
    case None => None
    case Some(i) =>
      if ast[i].nsName.Some? then Some(ast[i].nsName.value.str) else None
  }

  /** The detection itself: nothing for an unreadable file or one that does
      not parse, otherwise the namespace the file declares. */
  function Detect(parser: Parser, read: map<string, string>, realPath: string): (r: Option<string>)
    ensures realPath !in read ==> r.None?
    ensures realPath in read && parser.parse(read[realPath]).None? ==> r.None?
    ensures realPath in read && parser.parse(read[realPath]).Some? ==>
      r == DeclaredNamespace(parser.parse(read[realPath]).value)
  {
    if realPath !in read then None
    else match parser.parse(read[realPath])
      case None => None
      case Some(ast) => DeclaredNamespace(ast)
  }

  /** `getDetectedNamespace`: a cached namespace is returned as it is; a
      cached `null` is not (PHP's `isset` is false for it), so the file is
      read and parsed again; every detection is stored. */
  function GetDetectedNamespace(st: FilesState, parser: Parser, read: map<string, string>, realPath: string)
    : (r: (Option<string>, FilesState))
    ensures realPath in st.detected && st.detected[realPath].Some? ==> r == (st.detected[realPath], st)
    ensures !(realPath in st.detected && st.detected[realPath].Some?) ==>
      && r.0 == Detect(parser, read, realPath)
      && r.1 == st.(detected := st.detected[realPath := r.0])
  {
    if realPath in st.detected && st.detected[realPath].Some? then (st.detected[realPath], st)
    else
      var d := Detect(parser, read, realPath);
      (d, st.(detected := st.detected[realPath := d]))
  }

  /** Every namespace in the cache is what detection gives for the files as
      they are now. */
  predicate CacheAgrees(st: FilesState, parser: Parser, read: map<string, string>) {
    forall k :: k in st.detected && st.detected[k].Some? ==> st.detected[k] == Detect(parser, read, k)
  }

  /** While the files do not change, the cache is invisible: the answer is
      the detection itself, and the cache stays in agreement. */
  lemma CacheTransparent(st: FilesState, parser: Parser, read: map<string, string>, realPath: string)
    requires CacheAgrees(st, parser, read)
    ensures GetDetectedNamespace(st, parser, read, realPath).0 == Detect(parser, read, realPath)
    ensures CacheAgrees(GetDetectedNamespace(st, parser, read, realPath).1, parser, read)
  {
  }

  /** Where a namespaced file goes below the dependency directory: the
      namespace with `\` turned into the directory separator. */
  function NamespacePath(ns: string): (r: string)
    ensures Backslash !in r
    ensures |r| == |ns|
  {
    ReplaceAllChar(ns, Backslash, Slash);
    ReplaceAllCharGone(ns, Backslash, Slash);
    ReplaceAll(ns, [Backslash], [Slash])
  }

  /** The namespace path reads back as the namespace, for a namespace with
      no `/` of its own. */
  lemma NamespacePathBack(ns: string)
    requires Slash !in ns
    ensures ReplaceAll(NamespacePath(ns), [Slash], [Backslash]) == ns
  {
    ReplaceAllCharBack(ns, Backslash, Slash);
  }

  /** `getTargetFilePath`: an error before `getFiles` has run; otherwise a
      namespaced file goes to the dependency directory below its namespace
      path, and a global one to the classmap directory below the package
      directory, keeping its file name either way. */
  function GetTargetFilePath(st: FilesState, s: Settings, p: Package, parser: Parser, read: map<string, string>, file: string)
    : (r: Result<(string, FilesState), Error>)
    ensures r.Failure? <==> !st.initialized
    ensures r.Failure? ==> r.error == ConfigurationError
    ensures r.Success? ==>
      var (ns, st1) := GetDetectedNamespace(st, parser, read, file);
      && r.value.1 == st1
      && (ns.Some? ==> r.value.0 == s.depDirectory + NamespacePath(ns.value) + [Slash] + Basename(file))
      && (ns.None? ==> r.value.0 == s.classmapDirectory + DirectoryName(p) + [Slash] + Basename(file))
  {
    if !st.initialized then Failure(ConfigurationError)
    else
      var (ns, st1) := GetDetectedNamespace(st, parser, read, file);
      if ns.Some? then Success((s.depDirectory + NamespacePath(ns.value) + [Slash] + Basename(file), st1))
      else Success((s.classmapDirectory + DirectoryName(p) + [Slash] + Basename(file), st1))
  }

  /** The target of a namespaced file reads back as the dependency
      directory, the namespace (with `\` spelled as the separator), and the
      file name; the file name is the last segment. */
  lemma TargetOfNamespaced(st: FilesState, s: Settings, p: Package, parser: Parser, read: map<string, string>, file: string)
    requires st.initialized
    requires CacheAgrees(st, parser, read)
    requires Detect(parser, read, file).Some?
    requires Slash !in Detect(parser, read, file).value
    ensures var t := GetTargetFilePath(st, s, p, parser, read, file).value.0;
      var mid := t[|s.depDirectory|..|t| - |Basename(file)| - 1];
      && StartsWith(t, s.depDirectory)
      && EndsWith(t, [Slash] + Basename(file))
      && ReplaceAll(mid, [Slash], [Backslash]) == Detect(parser, read, file).value
  {
    CacheTransparent(st, parser, read, file);
    var ns := Detect(parser, read, file).value;
    var t := GetTargetFilePath(st, s, p, parser, read, file).value.0;
    assert t == s.depDirectory + NamespacePath(ns) + [Slash] + Basename(file);
    ReadsBack(s.depDirectory, ns, Basename(file), t);
  }

  /** A path built from a directory, a namespace path, a separator and a
      file name gives each piece back. */
  lemma ReadsBack(d: string, ns: string, b: string, t: string)
    requires Slash !in ns
    requires t == d + NamespacePath(ns) + [Slash] + b
    ensures |d| + 1 + |b| <= |t|
    ensures StartsWith(t, d)
    ensures EndsWith(t, [Slash] + b)
    ensures ReplaceAll(t[|d|..|t| - |b| - 1], [Slash], [Backslash]) == ns
  {
    var np := NamespacePath(ns);
    assert t[..|d|] == d;
    assert t[|t| - |b| - 1..] == [Slash] + b;
    assert t[|d|..|t| - |b| - 1] == np;
    NamespacePathBack(ns);
  }
}
