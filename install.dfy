/**
  The package cache and link farm: `extract` unpacks a package archive into the
  packages directory, and `deactivate` tears a package's files out of an
  environment prefix, following the package's manifest (`info/files`).
 */
module Install {
  import opened Wrappers
  import opened PosixPath
  import opened Disk

  // ---------------------------------------------------------------------------
  // extract

  datatype ExtractError =
    | ArchiveUnreadable(archive: string)     // tarfile.open fails
    | DestinationBlocked(directory: string)  // a regular file stands where a directory must go

  /** `join(pkgs_dir, pkg + '.tar.bz2')` */
  function ArchiveOf(pkgsDir: string, pkg: string): string {
    Join(pkgsDir, pkg + ".tar.bz2")
  }

  /** `join(pkgs_dir, pkg)` */
  function PackageDir(pkgsDir: string, pkg: string): string {
    Join(pkgsDir, pkg)
  }

  /** Why `extract` raises, if it does: the archive cannot be opened (it is not a
      regular file, or its content is unreadable), or its destination cannot be
      created. */
  function ExtractFailure(files: set<Path>, pkgsDir: string, pkg: string, readable: bool): Option<ExtractError> {
    if !readable || !IsRegularFile(files, ArchiveOf(pkgsDir, pkg)) then
      Some(ArchiveUnreadable(ArchiveOf(pkgsDir, pkg)))
    else if !(Lineage(Components(PackageDir(pkgsDir, pkg))) !! files) then
      Some(DestinationBlocked(PackageDir(pkgsDir, pkg)))
    else
      None
  }

  /** `extract(pkgs_dir, pkg, cleanup)`. `readable` stands for whether the archive's
      content can be read by `tarfile`; the members it unpacks are not modelled,
      only the package directory they land in. */
  method Extract(fs: FileSystem, pkgsDir: string, pkg: string, cleanup: bool, readable: bool)
    returns (err: Option<ExtractError>)
    requires fs.Valid()
    modifies fs
    ensures fs.Valid()
    ensures err == ExtractFailure(old(fs.files), pkgsDir, pkg, readable)
    ensures err.Some? ==> fs.files == old(fs.files) && fs.dirs == old(fs.dirs)
    ensures err.None? ==>
              fs.files == old(fs.files) - (if cleanup then {Components(ArchiveOf(pkgsDir, pkg))} else {}) &&
              fs.dirs == old(fs.dirs) + Lineage(Components(PackageDir(pkgsDir, pkg)))
    ensures err.None? ==> (Components(ArchiveOf(pkgsDir, pkg)) in fs.files <==> !cleanup)
  {
    var dirpath := Join(pkgsDir, pkg);
    var bz2path := Join(pkgsDir, pkg + ".tar.bz2");
    // t = tarfile.open(bz2path)
    if !readable || !IsRegularFile(fs.files, bz2path) {
      return Some(ArchiveUnreadable(bz2path));
    }
    // t.extractall(path=dirpath)
    var made := fs.MakeDirs(dirpath);
    if !made {
      return Some(DestinationBlocked(dirpath));
    }
    if cleanup {
      var removed := fs.Unlink(bz2path);
      assert removed;
    }
    err := None;
  }

  /** Extracting the same package twice without cleanup: once the first extraction
      succeeds, the second succeeds too and leaves the filesystem as the first left it. */
  method ExtractTwice(fs: FileSystem, pkgsDir: string, pkg: string)
    returns (first: Option<ExtractError>, second: Option<ExtractError>)
    requires fs.Valid()
    modifies fs
    ensures fs.Valid()
    ensures first == ExtractFailure(old(fs.files), pkgsDir, pkg, true)
    ensures first.None? ==>
              second.None? &&
              fs.files == old(fs.files) &&
              fs.dirs == old(fs.dirs) + Lineage(Components(PackageDir(pkgsDir, pkg)))
  {
    first := Extract(fs, pkgsDir, pkg, false, true);
    var files1, dirs1 := fs.files, fs.dirs;
    second := Extract(fs, pkgsDir, pkg, false, true);
    if first.None? {
      assert fs.files == files1 && fs.dirs == dirs1;
    }
  }

  // ---------------------------------------------------------------------------
  // deactivate

  /** A manifest line that names a file: non-empty, no trailing separator. */
  predicate NamesFile(entry: string) {
    entry != [] && entry[|entry| - 1] != Sep
  }

  /** The files `deactivate` unlinks for a manifest, where they exist. */
  function Targets(prefix: string, manifest: seq<string>): set<Path>
    decreases |manifest|
  {
    if manifest == [] then {}
    else
      var entry := manifest[|manifest| - 1];
      Targets(prefix, manifest[..|manifest| - 1]) +
      (if NamesFile(entry) then {EntryPath(prefix, entry)} else {})
  }

  /** The directories `deactivate` records in `dst_dirs`. */
  function Candidates(prefix: string, manifest: seq<string>): set<string>
    decreases |manifest|
  {
    if manifest == [] then {}
    else Candidates(prefix, manifest[..|manifest| - 1]) + {DirectoryOf(prefix, manifest[|manifest| - 1])}
  }

  /** The unlinked files are exactly the listed file entries, each resolved as `join(prefix, entry)`. */
  lemma {:induction false} TargetsAreListedFiles(prefix: string, manifest: seq<string>)
    ensures forall x :: x in Targets(prefix, manifest) <==>
              exists e :: e in manifest && NamesFile(e) && EntryPath(prefix, e) == x
    decreases |manifest|
  {
    if manifest != [] {
      var init := manifest[..|manifest| - 1];
      TargetsAreListedFiles(prefix, init);
      assert manifest == init + [manifest[|manifest| - 1]];
    }
  }

  /** The recorded directories are exactly the directories of the listed entries:
      one per distinct `join(prefix, head)`, and no other ancestor. */
  lemma {:induction false} CandidatesAreEntryDirectories(prefix: string, manifest: seq<string>)
    ensures forall s :: s in Candidates(prefix, manifest) <==>
              exists e :: e in manifest && DirectoryOf(prefix, e) == s
    decreases |manifest|
  {
    if manifest != [] {
      var init := manifest[..|manifest| - 1];
      CandidatesAreEntryDirectories(prefix, init);
      assert manifest == init + [manifest[|manifest| - 1]];
    }
  }

  /** A top-level entry records the prefix itself, as `join(prefix, '')`. */
  lemma TopLevelEntryDirectory(prefix: string, entry: string)
    requires Sep !in entry
    ensures DirectoryOf(prefix, entry) == Join(prefix, "")
    ensures Components(DirectoryOf(prefix, entry)) == Components(prefix)
  {
    assert SepEnd(entry) == 0;
    ComponentsJoin(prefix, "");
  }

  /** Two packages whose manifests share no path: tearing one down leaves every
      file of the other in place. */
  lemma DeactivateSparesDisjointPackage(prefix: string, mine: seq<string>, theirs: seq<string>, files: set<Path>)
    requires forall e1, e2 :: e1 in mine && e2 in theirs ==> EntryPath(prefix, e1) != EntryPath(prefix, e2)
    ensures Targets(prefix, theirs) * files <= files - Targets(prefix, mine)
  {
    TargetsAreListedFiles(prefix, mine);
    TargetsAreListedFiles(prefix, theirs);
  }

  predicate Distinct(s: seq<string>) {
    forall i, j :: 0 <= i < j < |s| ==> s[i] != s[j]
  }

  /** Non-increasing length: the order of `sorted(..., key=len, reverse=True)`. */
  predicate LongestFirst(s: seq<string>) {
    forall i, j :: 0 <= i < j < |s| ==> |s[i]| >= |s[j]|
  }

  /** A longest string of a non-empty set. */
  method Longest(strs: set<string>) returns (d: string)
    requires strs != {}
    ensures d in strs
    ensures forall e :: e in strs ==> |e| <= |d|
  {
    d :| d in strs;
    var rest := strs - {d};
    while rest != {}
      invariant rest <= strs && d in strs
      invariant forall e :: e in strs && e !in rest ==> |e| <= |d|
      decreases rest
    {
      var e :| e in rest;
      if |e| > |d| {
        d := e;
      }
      rest := rest - {e};
    }
  }

  /** `sorted(strs, key=len, reverse=True)`: every string once, longest first.
      Strings of equal length come in no particular order, as set iteration
      order is unspecified. */
  method SortByLengthDesc(strs: set<string>) returns (order: seq<string>)
    ensures forall s :: s in order <==> s in strs
    ensures Distinct(order)
    ensures LongestFirst(order)
  {
    order := [];
    var rest := strs;
    while rest != {}
      invariant rest <= strs
      invariant forall s :: s in order <==> s in strs && s !in rest
      invariant Distinct(order)
      invariant LongestFirst(order)
      invariant forall i, e :: 0 <= i < |order| && e in rest ==> |e| <= |order[i]|
      decreases rest
    {
      var d := Longest(rest);
      order := order + [d];
      rest := rest - {d};
    }
  }

  /** For clean manifest entries, a recorded directory is tried strictly before
      every recorded directory that contains it. */
  lemma NestedDirectoryTriedFirst(prefix: string, order: seq<string>, inner: string, outer: string, i: nat, j: nat)
    requires LongestFirst(order)
    requires i < |order| && j < |order|
    requires Clean(inner) && Clean(outer)
    requires order[i] == DirectoryOf(prefix, inner) && order[j] == DirectoryOf(prefix, outer)
    requires var ci, co := Components(DirectoryOf(prefix, inner)), Components(DirectoryOf(prefix, outer));
             |co| < |ci| && ci[..|co|] == co
    ensures i < j
  {
    DeeperDirectoryIsLonger(prefix, inner, outer);
  }

  /** The clean-entry condition is needed: for the entries `x//////a/f` and
      `x/a/b/g` the length order tries the containing directory first. */
  lemma DoubledSeparatorParentTriedFirst(prefix: string, order: seq<string>, i: nat, j: nat)
    requires LongestFirst(order)
    requires i < |order| && j < |order|
    requires order[i] == DirectoryOf(prefix, "x/a/b/g") && order[j] == DirectoryOf(prefix, "x//////a/f")
    ensures |Components(order[j])| < |Components(order[i])| &&
            Components(order[i])[..|Components(order[j])|] == Components(order[j])
    ensures j < i
  {
    DoubledSeparatorParentIsLonger(prefix);
    LongerTriedFirst(order, i, j);
  }

  /** In a longest-first order a strictly longer string comes first. */
  lemma LongerTriedFirst(order: seq<string>, i: nat, j: nat)
    requires LongestFirst(order)
    requires i < |order| && j < |order| && |order[i]| < |order[j]|
    ensures j < i
  {
  }

  lemma TargetsStep(prefix: string, manifest: seq<string>, i: nat)
    requires i < |manifest|
    ensures Targets(prefix, manifest[..i + 1]) ==
            Targets(prefix, manifest[..i]) + (if NamesFile(manifest[i]) then {EntryPath(prefix, manifest[i])} else {})
    ensures Candidates(prefix, manifest[..i + 1]) == Candidates(prefix, manifest[..i]) + {DirectoryOf(prefix, manifest[i])}
  {
    assert manifest[..i + 1][..i] == manifest[..i];
  }

  /** The effect of one `os.unlink(join(join(prefix, head), tail))` on the files:
      the entry's file goes, if it is there. */
  lemma UnlinkRemovesEntry(prefix: string, entry: string, before: set<Path>, after: set<Path>, ok: bool)
    requires var dst := Destination(prefix, entry);
             ok == IsRegularFile(before, dst) &&
             after == (if ok then before - {Components(dst)} else before)
    ensures after == before - (if NamesFile(entry) then {EntryPath(prefix, entry)} else {})
  {
    DestinationResolves(prefix, entry);
    DestinationShape(prefix, entry);
  }

  /** The first loop of `deactivate`: unlink every listed file, recording the
      directory of every entry. */
  method UnlinkListed(fs: FileSystem, envPrefix: string, manifest: seq<string>) returns (dstDirs: set<string>)
    requires fs.Valid()
    modifies fs
    ensures fs.Valid()
    ensures fs.files == old(fs.files) - Targets(envPrefix, manifest)
    ensures fs.dirs == old(fs.dirs)
    ensures dstDirs == Candidates(envPrefix, manifest)
  {
    dstDirs := {};
    for i := 0 to |manifest|
      invariant fs.Valid()
      invariant dstDirs == Candidates(envPrefix, manifest[..i])
      invariant fs.files == old(fs.files) - Targets(envPrefix, manifest[..i])
      invariant fs.dirs == old(fs.dirs)
    {
      var entry := manifest[i];
      var (fdn, fbn) := Split(entry);
      var dstDir := Join(envPrefix, fdn);
      dstDirs := dstDirs + {dstDir};
      var dst := Join(dstDir, fbn);
      // an OSError (the file might not exist) is only logged
      var unlinked := fs.Unlink(dst);
      UnlinkRemovesEntry(envPrefix, entry, old(fs.files) - Targets(envPrefix, manifest[..i]), fs.files, unlinked);
      TargetsStep(envPrefix, manifest, i);
    }
    assert manifest[..|manifest|] == manifest;
  }

  /** The second loop of `deactivate`: try `rmdir` on each directory in turn. */
  method RemoveDirectories(fs: FileSystem, order: seq<string>)
    requires fs.Valid()
    modifies fs
    ensures fs.Valid()
    ensures fs.files == old(fs.files)
    ensures fs.dirs == RmdirAll(fs.files, old(fs.dirs), order)
  {
    for j := 0 to |order|
      invariant fs.Valid()
      invariant fs.files == old(fs.files)
      invariant fs.dirs == RmdirAll(fs.files, old(fs.dirs), order[..j])
    {
      // an OSError (missing or not empty) is only logged
      var removed := fs.Rmdir(order[j]);
      assert order[..j + 1][..j] == order[..j];
    }
    assert order[..|order|] == order;
  }

  /** `deactivate(pkgs_dir, pkg, env_prefix)` for the manifest read from
      `pkgs_dir/pkg/info/files`. Returns the directories in the order `rmdir` was
      tried on them. */
  method Deactivate(fs: FileSystem, envPrefix: string, manifest: seq<string>) returns (tried: seq<string>)
    requires fs.Valid()
    modifies fs
    ensures fs.Valid()
    // exactly the listed files go, whether or not some were already missing
    ensures fs.files == old(fs.files) - Targets(envPrefix, manifest)
    // each recorded directory is tried once, longest path first
    ensures forall s :: s in tried <==> s in Candidates(envPrefix, manifest)
    ensures Distinct(tried) && LongestFirst(tried)
    ensures fs.dirs == RmdirAll(fs.files, old(fs.dirs), tried)
    // a directory goes only if it was recorded and was empty when its rmdir ran
    ensures fs.dirs <= old(fs.dirs)
    ensures forall d :: d in old(fs.dirs) && d !in fs.dirs ==>
              exists k :: 0 <= k < |tried| && Components(tried[k]) == d &&
                          tried[k] in Candidates(envPrefix, manifest) &&
                          d in RmdirAll(fs.files, old(fs.dirs), tried[..k]) &&
                          !HasChildIn(fs.files, RmdirAll(fs.files, old(fs.dirs), tried[..k]), d)
  {
    var dstDirs := UnlinkListed(fs, envPrefix, manifest);
    tried := SortByLengthDesc(dstDirs);
    RemoveDirectories(fs, tried);
    RmdirAllRemovesOnlyEmpty(fs.files, old(fs.dirs), tried);
  }
}
