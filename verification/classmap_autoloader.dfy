/** The `classmap` autoloader: how its entries split into files and
    directories, which files it moves, and where a moved file goes. */
module ClassmapAutoloader {
  import opened Wrappers
  import opened Strings
  import opened Packages
  import opened Collections
  import FilesAutoloader

  /** An entry naming a single PHP file rather than a directory. */
  predicate IsPhpFile(entry: string) {
    EndsWith(entry, ".php")
  }

  /** An entry naming a directory. */
  predicate IsPathEntry(entry: string) {
    !IsPhpFile(entry)
  }

  /** `processConfig`, one entry at a time: a `.php` entry goes to the
      files, any other to the paths. */
  function ProcessConfigInto(files: seq<string>, paths: seq<string>, entries: seq<string>)
    : (r: (seq<string>, seq<string>))
    decreases |entries|
  {
    if entries == [] then (files, paths)
    else if IsPhpFile(entries[0]) then ProcessConfigInto(files + [entries[0]], paths, entries[1..])
    else ProcessConfigInto(files, paths + [entries[0]], entries[1..])
  }

  /** `processConfig` on a fresh autoloader. */
  function ProcessConfig(entries: seq<string>): (r: (seq<string>, seq<string>)) {
    ProcessConfigInto([], [], entries)
  }

  /** The entries split into the `.php` ones and the others, each in the
      order given, after what the lists already held. */
  lemma {:induction false} ProcessConfigIntoSplits(files: seq<string>, paths: seq<string>, entries: seq<string>)
    ensures ProcessConfigInto(files, paths, entries).0 == files + Filter(IsPhpFile, entries)
    ensures ProcessConfigInto(files, paths, entries).1 == paths + Filter(IsPathEntry, entries)
    decreases |entries|, 1
  {
    if entries != [] {
      if IsPhpFile(entries[0]) {
        FileEntrySplits(files, paths, entries);
      } else {
        PathEntrySplits(files, paths, entries);
      }
    }
  }

  /** The step of `ProcessConfigIntoSplits` for a leading `.php` entry. */
  lemma {:induction false} FileEntrySplits(files: seq<string>, paths: seq<string>, entries: seq<string>)
    requires entries != [] && IsPhpFile(entries[0])
    ensures ProcessConfigInto(files, paths, entries).0 == files + Filter(IsPhpFile, entries)
    ensures ProcessConfigInto(files, paths, entries).1 == paths + Filter(IsPathEntry, entries)
    decreases |entries|, 0
  {
    var e := entries[0];
    ProcessConfigIntoSplits(files + [e], paths, entries[1..]);
    assert Filter(IsPhpFile, entries) == [e] + Filter(IsPhpFile, entries[1..]);
    assert Filter(IsPathEntry, entries) == Filter(IsPathEntry, entries[1..]);
    assert files + [e] + Filter(IsPhpFile, entries[1..]) == files + ([e] + Filter(IsPhpFile, entries[1..]));
  }

  /** The step of `ProcessConfigIntoSplits` for a leading path entry. */
  lemma {:induction false} PathEntrySplits(files: seq<string>, paths: seq<string>, entries: seq<string>)
    requires entries != [] && !IsPhpFile(entries[0])
    ensures ProcessConfigInto(files, paths, entries).0 == files + Filter(IsPhpFile, entries)
    ensures ProcessConfigInto(files, paths, entries).1 == paths + Filter(IsPathEntry, entries)
    decreases |entries|, 0
  {
    var e := entries[0];
    ProcessConfigIntoSplits(files, paths + [e], entries[1..]);
    assert Filter(IsPathEntry, entries) == [e] + Filter(IsPathEntry, entries[1..]);
    assert Filter(IsPhpFile, entries) == Filter(IsPhpFile, entries[1..]);
    assert paths + [e] + Filter(IsPathEntry, entries[1..]) == paths + ([e] + Filter(IsPathEntry, entries[1..]));
  }

  /** Every entry lands in exactly one of the two lists: the files are the
      `.php` entries and the paths the rest, order kept, nothing lost. */
  lemma ProcessConfigPartitions(entries: seq<string>)
    ensures ProcessConfig(entries).0 == Filter(IsPhpFile, entries)
    ensures ProcessConfig(entries).1 == Filter(IsPathEntry, entries)
    ensures multiset(ProcessConfig(entries).0) + multiset(ProcessConfig(entries).1) == multiset(entries)
  {
    ProcessConfigIntoSplits([], [], entries);
    assert [] + Filter(IsPhpFile, entries) == Filter(IsPhpFile, entries);
    assert [] + Filter(IsPathEntry, entries) == Filter(IsPathEntry, entries);
    FilterSplits(IsPhpFile, IsPathEntry, entries);
  }

  /** The directory a path entry names below the package. */
  function DirOf(sourcePath: string, path: string): string {
    sourcePath + [Slash] + path
  }

  /** A file found by name for one of the listed files. */
  ghost predicate FoundByName(sourcePath: string, find: (string, string) -> seq<string>, files: seq<string>, x: string) {
    exists i :: 0 <= i < |files| && x in find(sourcePath, files[i])
  }

  /** A file listed below one of the path entries that is a directory. */
  ghost predicate FoundInDirectory(sourcePath: string, listing: map<string, seq<string>>, paths: seq<string>, x: string) {
    exists k :: 0 <= k < |paths| && DirOf(sourcePath, paths[k]) in listing && x in listing[DirOf(sourcePath, paths[k])]
  }

  lemma FoundByNameStep(sourcePath: string, find: (string, string) -> seq<string>, files: seq<string>, x: string)
    requires files != []
    ensures FoundByName(sourcePath, find, files, x) <==>
      x in find(sourcePath, files[0]) || FoundByName(sourcePath, find, files[1..], x)
  {
    if FoundByName(sourcePath, find, files[1..], x) {
      var i :| 0 <= i < |files[1..]| && x in find(sourcePath, files[1..][i]);
      assert files[i + 1] == files[1..][i];
    }
    if FoundByName(sourcePath, find, files, x) && x !in find(sourcePath, files[0]) {
      var i :| 0 <= i < |files| && x in find(sourcePath, files[i]);
      assert files[1..][i - 1] == files[i];
    }
  }

  lemma FoundInDirectoryStep(sourcePath: string, listing: map<string, seq<string>>, paths: seq<string>, x: string)
    requires paths != []
    ensures FoundInDirectory(sourcePath, listing, paths, x) <==>
      (DirOf(sourcePath, paths[0]) in listing && x in listing[DirOf(sourcePath, paths[0])])
      || FoundInDirectory(sourcePath, listing, paths[1..], x)
  {
    if FoundInDirectory(sourcePath, listing, paths[1..], x) {
      var k :| 0 <= k < |paths[1..]| && DirOf(sourcePath, paths[1..][k]) in listing
               && x in listing[DirOf(sourcePath, paths[1..][k])];
      assert paths[k + 1] == paths[1..][k];
    }
    if FoundInDirectory(sourcePath, listing, paths, x)
       && !(DirOf(sourcePath, paths[0]) in listing && x in listing[DirOf(sourcePath, paths[0])]) {
      var k :| 0 <= k < |paths| && DirOf(sourcePath, paths[k]) in listing && x in listing[DirOf(sourcePath, paths[k])];
      assert paths[1..][k - 1] == paths[k];
    }
  }

  /** The first loop of `getFiles`: the files found by each listed name. */
  function CollectFiles(sourcePath: string, find: (string, string) -> seq<string>, acc: seq<string>, files: seq<string>)
    : (r: seq<string>)
    ensures NoDup(acc) ==> NoDup(r)
    ensures forall x :: x in r <==> x in acc || FoundByName(sourcePath, find, files, x)
    decreases |files|
  {
    if files == [] then acc
    else
      var r := CollectFiles(sourcePath, find, AddAll(acc, find(sourcePath, files[0])), files[1..]);
      assert forall x :: x in r <==> x in acc || FoundByName(sourcePath, find, files, x) by {
        forall x ensures x in r <==> x in acc || FoundByName(sourcePath, find, files, x) {
          FoundByNameStep(sourcePath, find, files, x);
        }
      }
      r
  }

  /** The second loop of `getFiles`: everything listed below each path that
      is a directory; the others are skipped. */
  function CollectPaths(sourcePath: string, listing: map<string, seq<string>>, acc: seq<string>, paths: seq<string>)
    : (r: seq<string>)
    ensures NoDup(acc) ==> NoDup(r)
    ensures forall x :: x in r <==> x in acc || FoundInDirectory(sourcePath, listing, paths, x)
    decreases |paths|
  {
    if paths == [] then acc
    else
      var dir := DirOf(sourcePath, paths[0]);
      var acc1 := if dir in listing then AddAll(acc, listing[dir]) else acc;
      var r := CollectPaths(sourcePath, listing, acc1, paths[1..]);
      assert forall x :: x in r <==> x in acc || FoundInDirectory(sourcePath, listing, paths, x) by {
        forall x ensures x in r <==> x in acc || FoundInDirectory(sourcePath, listing, paths, x) {
          FoundInDirectoryStep(sourcePath, listing, paths, x);
        }
      }
      r
  }

  /** `getFiles`: the real paths of the files found for the listed names and
      below the listed directories, each once (a file reached twice keeps
      its first place), in the order first found. */
  function GetFiles(s: Settings, p: Package, files: seq<string>, paths: seq<string>,
                    find: (string, string) -> seq<string>, listing: map<string, seq<string>>): (r: seq<string>)
    ensures NoDup(r)
    ensures forall x :: x in r <==>
      FoundByName(FilesAutoloader.SourcePath(s, p), find, files, x)
      || FoundInDirectory(FilesAutoloader.SourcePath(s, p), listing, paths, x)
  {
    var src := FilesAutoloader.SourcePath(s, p);
    CollectPaths(src, listing, CollectFiles(src, find, [], files), paths)
  }

  /** The first path entry whose `directory/path` occurs in the file's path
      name. */
  function FirstSuffix(dirName: string, paths: seq<string>, pathname: string): (r: Option<nat>)
    ensures r.Some? ==> r.value < |paths| && Contains(pathname, dirName + [Slash] + paths[r.value])
    ensures r.Some? ==> forall j :: 0 <= j < r.value ==> !Contains(pathname, dirName + [Slash] + paths[j])
    ensures r.None? ==> forall j :: 0 <= j < |paths| ==> !Contains(pathname, dirName + [Slash] + paths[j])
  {
    FirstSuffixFrom(dirName, paths, pathname, 0)
  }

  function FirstSuffixFrom(dirName: string, paths: seq<string>, pathname: string, i: nat): (r: Option<nat>)
    requires i <= |paths|
    ensures r.Some? ==> i <= r.value < |paths| && Contains(pathname, dirName + [Slash] + paths[r.value])
    ensures r.Some? ==> forall j :: i <= j < r.value ==> !Contains(pathname, dirName + [Slash] + paths[j])
    ensures r.None? ==> forall j :: i <= j < |paths| ==> !Contains(pathname, dirName + [Slash] + paths[j])
    decreases |paths| - i
  {
    if i == |paths| then None
    else if Contains(pathname, dirName + [Slash] + paths[i]) then Some(i)
    else FirstSuffixFrom(dirName, paths, pathname, i + 1)
  }

  /** The suffix `getTargetFilePath` settles on: the first matching path
      entry, else the empty string. */
  function Suffix(dirName: string, paths: seq<string>, pathname: string): string {
    match FirstSuffix(dirName, paths, pathname)
    case None => ""
    case Some(i) => paths[i]
  }

  /** The part of the path that `getTargetFilePath` cuts out and replaces by
      one separator, as written: `/vendor/<directory>/`, followed by another
      separator and the suffix when there is one. */
  function VendorPathAsWritten(dirName: string, suffix: string): (r: string)
    ensures PhpEmpty(suffix) ==> r == "/vendor/" + dirName + "/"
    ensures !PhpEmpty(suffix) ==> r == "/vendor/" + dirName + "//" + suffix
  {
    var base := "/vendor/" + dirName + "/";
    if !PhpEmpty(suffix) then base + [Slash] + suffix else base
  }

  /** `getTargetFilePath` as written: the working directory, wherever it
      occurs in the path name, becomes the classmap directory of the
      package, and then the vendor part of the path collapses to a single
      separator. */
  function GetTargetFilePathAsWritten(s: Settings, p: Package, paths: seq<string>, pathname: string): string {
    var dirName := DirectoryName(p);
    var suffix := Suffix(dirName, paths, pathname);
    var target := ReplaceAll(pathname, s.workingDir, s.classmapDirectory + dirName + [Slash]);
    ReplaceAll(target, VendorPathAsWritten(dirName, suffix), [Slash])
  }

  /** The vendor part as intended: the suffix follows the separator that
      already closes `/vendor/<directory>/`, so the part is a piece of the
      path it is meant to cut out. */
  function VendorPath(dirName: string, suffix: string): (r: string)
    ensures PhpEmpty(suffix) ==> r == "/vendor/" + dirName + "/"
    ensures !PhpEmpty(suffix) ==> r == "/vendor/" + dirName + "/" + suffix
  {
    var base := "/vendor/" + dirName + "/";
    if !PhpEmpty(suffix) then base + suffix else base
  }

  /** `getTargetFilePath` with the intended vendor part. */
  function GetTargetFilePath(s: Settings, p: Package, paths: seq<string>, pathname: string): string {
    var dirName := DirectoryName(p);
    var suffix := Suffix(dirName, paths, pathname);
    var target := ReplaceAll(pathname, s.workingDir, s.classmapDirectory + dirName + [Slash]);
    ReplaceAll(target, VendorPath(dirName, suffix), [Slash])
  }

  /** When no path entry matches, the vendor part as written and as
      intended are the same, so the code and the corrected path agree: the
      doubled separator arises only with a suffix. */
  lemma AgreeWithoutSuffix(s: Settings, p: Package, paths: seq<string>, pathname: string)
    requires PhpEmpty(Suffix(DirectoryName(p), paths, pathname))
    ensures GetTargetFilePathAsWritten(s, p, paths, pathname) == GetTargetFilePath(s, p, paths, pathname)
  {
    var d := DirectoryName(p);
    var suffix := Suffix(d, paths, pathname);
    assert VendorPathAsWritten(d, suffix) == VendorPath(d, suffix);
  }

  /** The two replacements on a path of the form `<wd><v><rest>`: the
      working directory becomes `a/`, and the vendor part `/<v>` then
      collapses to one separator. */
  lemma Collapse(wd: string, a: string, v: string, rest: string)
    requires wd != []
    requires Absent(v + rest, wd)
    requires forall j: nat :: j < |a| ==> !OccursAt(a + ([Slash] + v) + rest, [Slash] + v, j)
    requires Absent(rest, [Slash] + v)
    ensures ReplaceAll(ReplaceAll(wd + (v + rest), wd, a + [Slash]), [Slash] + v, [Slash]) == a + [Slash] + rest
  {
    assert a + [Slash] + (v + rest) == a + ([Slash] + v) + rest;
    ReplaceLeading(wd, v + rest, a + [Slash]);
    ReplaceOnly(a, [Slash] + v, rest, [Slash]);
  }

  /** A file below the package's vendor directory, with no path entry
      matching it, moves to the same place below the package's classmap
      directory: `<wd>vendor/<dir>/<rest>` becomes `<classmap dir><dir>/<rest>`,
      as long as the working directory and the vendor part occur only
      where they are expected. */
  lemma TargetOfVendorFile(s: Settings, p: Package, paths: seq<string>, rest: string)
    requires s.workingDir != []
    requires PhpEmpty(Suffix(DirectoryName(p), paths, s.workingDir + "vendor/" + DirectoryName(p) + "/" + rest))
    requires Absent("vendor/" + DirectoryName(p) + "/" + rest, s.workingDir)
    requires forall j: nat :: j < |s.classmapDirectory + DirectoryName(p)| ==>
      !OccursAt(s.classmapDirectory + DirectoryName(p) + "/vendor/" + DirectoryName(p) + "/" + rest, "/vendor/" + DirectoryName(p) + "/", j)
    requires Absent(rest, "/vendor/" + DirectoryName(p) + "/")
    ensures GetTargetFilePath(s, p, paths, s.workingDir + "vendor/" + DirectoryName(p) + "/" + rest)
      == s.classmapDirectory + DirectoryName(p) + "/" + rest
  {
    var d := DirectoryName(p);
    var v := "vendor/" + d + "/";
    assert "/vendor/" + d + "/" == [Slash] + v;
    assert s.workingDir + "vendor/" + d + "/" + rest == s.workingDir + (v + rest);
    assert s.classmapDirectory + d + "/vendor/" + d + "/" + rest == s.classmapDirectory + d + ([Slash] + v) + rest;
    Collapse(s.workingDir, s.classmapDirectory + d, v, rest);
  }

  /** The code as written moves such a file to the same place: without a
      matching path entry the doubled separator does not arise. */
  lemma TargetOfVendorFileAsWritten(s: Settings, p: Package, paths: seq<string>, rest: string)
    requires s.workingDir != []
    requires PhpEmpty(Suffix(DirectoryName(p), paths, s.workingDir + "vendor/" + DirectoryName(p) + "/" + rest))
    requires Absent("vendor/" + DirectoryName(p) + "/" + rest, s.workingDir)
    requires forall j: nat :: j < |s.classmapDirectory + DirectoryName(p)| ==>
      !OccursAt(s.classmapDirectory + DirectoryName(p) + "/vendor/" + DirectoryName(p) + "/" + rest, "/vendor/" + DirectoryName(p) + "/", j)
    requires Absent(rest, "/vendor/" + DirectoryName(p) + "/")
    ensures GetTargetFilePathAsWritten(s, p, paths, s.workingDir + "vendor/" + DirectoryName(p) + "/" + rest)
      == s.classmapDirectory + DirectoryName(p) + "/" + rest
  {
    var path := s.workingDir + "vendor/" + DirectoryName(p) + "/" + rest;
    TargetOfVendorFile(s, p, paths, rest);
    AgreeWithoutSuffix(s, p, paths, path);
  }

  /** A file below a matching path entry of the package's vendor
      directory, `<wd>vendor/<dir>/<suffix><rest>`, moves to
      `<classmap dir><dir>/<rest>` once the vendor part is the intended one:
      the vendor directory and the suffix are both cut out. */
  lemma TargetOfSuffixedFile(s: Settings, p: Package, paths: seq<string>, suffix: string, rest: string)
    requires s.workingDir != []
    requires !PhpEmpty(suffix)
    requires Suffix(DirectoryName(p), paths, s.workingDir + "vendor/" + DirectoryName(p) + "/" + suffix + rest) == suffix
    requires Absent("vendor/" + DirectoryName(p) + "/" + suffix + rest, s.workingDir)
    requires forall j: nat :: j < |s.classmapDirectory + DirectoryName(p)| ==>
      !OccursAt(s.classmapDirectory + DirectoryName(p) + "/vendor/" + DirectoryName(p) + "/" + suffix + rest, "/vendor/" + DirectoryName(p) + "/" + suffix, j)
    requires Absent(rest, "/vendor/" + DirectoryName(p) + "/" + suffix)
    ensures GetTargetFilePath(s, p, paths, s.workingDir + "vendor/" + DirectoryName(p) + "/" + suffix + rest)
      == s.classmapDirectory + DirectoryName(p) + "/" + rest
  {
    var d := DirectoryName(p);
    var v := "vendor/" + d + "/" + suffix;
    assert "/vendor/" + d + "/" + suffix == [Slash] + v;
    assert s.workingDir + "vendor/" + d + "/" + suffix + rest == s.workingDir + (v + rest);
    assert s.classmapDirectory + d + "/vendor/" + d + "/" + suffix + rest == s.classmapDirectory + d + ([Slash] + v) + rest;
    Collapse(s.workingDir, s.classmapDirectory + d, v, rest);
  }

  /** As written, with a suffix the vendor part holds two separators in a
      row, so in a path without `//` nothing is cut out: the file stays
      below a `vendor/<directory>/<suffix>` segment inside the classmap
      directory. */
  lemma SuffixKeepsVendorPart(s: Settings, p: Package, paths: seq<string>, pathname: string)
    requires !PhpEmpty(Suffix(DirectoryName(p), paths, pathname))
    requires Absent(ReplaceAll(pathname, s.workingDir, s.classmapDirectory + DirectoryName(p) + [Slash]), "//")
    ensures GetTargetFilePathAsWritten(s, p, paths, pathname)
      == ReplaceAll(pathname, s.workingDir, s.classmapDirectory + DirectoryName(p) + [Slash])
  {
    var d := DirectoryName(p);
    var target := ReplaceAll(pathname, s.workingDir, s.classmapDirectory + d + [Slash]);
    var vp := VendorPathAsWritten(d, Suffix(d, paths, pathname));
    var k := |"/vendor/" + d|;
    assert k + 2 <= |vp| && vp[k..k + 2] == "//";
    forall j: nat ensures !OccursAt(target, vp, j) {
      OccursInside(target, vp, j, k, "//");
    }
  }

  /** Where `p` occurs, so does every piece of it. */
  lemma OccursInside(t: string, p: string, j: nat, k: nat, q: string)
    requires k + |q| <= |p| && p[k..k + |q|] == q
    ensures OccursAt(t, p, j) ==> OccursAt(t, q, j + k)
  {
    if OccursAt(t, p, j) {
      forall i | 0 <= i < |q| ensures t[j + k..j + k + |q|][i] == q[i] {
        assert q[i] == p[k..k + |q|][i] == p[k + i];
        assert p[k + i] == t[j..j + |p|][k + i];
      }
    }
  }
}
