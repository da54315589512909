/**
  The part of the filesystem the link-farm code touches: which paths are regular
  files and which are directories, and the two system calls the teardown makes,
  `os.unlink` and `os.rmdir`, with their failure cases.
 */
module Disk {
  import opened PosixPath

  /** A resolved path: its components, read from the root (`[]` is the root). */
  type Path = seq<string>

  predicate IsChildOf(x: Path, d: Path) {
    x != [] && x[..|x| - 1] == d
  }

  /** `d` has an entry directly inside it. */
  predicate HasChildIn(files: set<Path>, dirs: set<Path>, d: Path) {
    exists x :: x in files + dirs && IsChildOf(x, d)
  }

  /** What every directory tree satisfies: the root is a directory, nothing is both
      a file and a directory, and every entry other than the root sits in a
      directory. */
  predicate TreeShaped(files: set<Path>, dirs: set<Path>) {
    [] in dirs && files !! dirs &&
    (forall x :: x in files ==> x != [] && x[..|x| - 1] in dirs) &&
    (forall x :: x in dirs && x != [] ==> x[..|x| - 1] in dirs)
  }

  /** `s` names an existing regular file, so that `os.unlink(s)` and `open(s)`
      succeed; a string that is empty or ends in a separator is refused
      (ENOENT, ENOTDIR, EISDIR). */
  predicate IsRegularFile(files: set<Path>, s: string) {
    s != [] && s[|s| - 1] != Sep && Components(s) in files
  }

  /** `os.rmdir(s)` succeeds when `s` names an existing directory other than the
      root that has nothing in it; a missing or non-empty directory is refused
      (ENOENT, ENOTDIR, ENOTEMPTY, EBUSY). */
  predicate RmdirSucceeds(files: set<Path>, dirs: set<Path>, s: string) {
    Components(s) != [] && Components(s) in dirs && !HasChildIn(files, dirs, Components(s))
  }

  /** The directory set after one `os.rmdir(s)` whose error, if any, is swallowed. */
  function RmdirStep(files: set<Path>, dirs: set<Path>, s: string): set<Path> {
    if RmdirSucceeds(files, dirs, s) then dirs - {Components(s)} else dirs
  }

  /** The directory set after trying `os.rmdir` on each string of `order` in turn,
      swallowing every error. */
  function RmdirAll(files: set<Path>, dirs: set<Path>, order: seq<string>): set<Path>
    decreases |order|
  {
    if order == [] then dirs
    else RmdirStep(files, RmdirAll(files, dirs, order[..|order| - 1]), order[|order| - 1])
  }

  /** Removing an empty directory keeps the tree a tree. */
  lemma RmdirStepKeepsTree(files: set<Path>, dirs: set<Path>, s: string)
    requires TreeShaped(files, dirs)
    ensures TreeShaped(files, RmdirStep(files, dirs, s))
  {
    if RmdirSucceeds(files, dirs, s) {
      var d := Components(s);
      var dirs' := dirs - {d};
      forall x | x in files
        ensures x[..|x| - 1] in dirs'
      {
        assert !IsChildOf(x, d);
      }
      forall x | x in dirs' && x != []
        ensures x[..|x| - 1] in dirs'
      {
        assert !IsChildOf(x, d);
      }
    }
  }

  /** The rmdir sweep only removes directories, and each one it removes was named
      at some position of `order` and was empty at the moment that `rmdir` ran; it
      is still empty at the end, and the tree stays a tree. */
  lemma {:induction false} RmdirAllRemovesOnlyEmpty(files: set<Path>, dirs: set<Path>, order: seq<string>)
    ensures RmdirAll(files, dirs, order) <= dirs
    ensures forall d :: d in dirs && d !in RmdirAll(files, dirs, order) ==>
              exists k :: 0 <= k < |order| && Components(order[k]) == d &&
                          d in RmdirAll(files, dirs, order[..k]) &&
                          !HasChildIn(files, RmdirAll(files, dirs, order[..k]), d)
    ensures forall d :: d in dirs && d !in RmdirAll(files, dirs, order) ==>
              !HasChildIn(files, RmdirAll(files, dirs, order), d)
    ensures TreeShaped(files, dirs) ==> TreeShaped(files, RmdirAll(files, dirs, order))
    decreases |order|
  {
    if order != [] {
      var init, last := order[..|order| - 1], order[|order| - 1];
      RmdirAllRemovesOnlyEmpty(files, dirs, init);
      var before := RmdirAll(files, dirs, init);
      var after := RmdirStep(files, before, last);
      assert after == RmdirAll(files, dirs, order);
      if TreeShaped(files, dirs) {
        RmdirStepKeepsTree(files, before, last);
      }
      forall d | d in dirs && d !in after
        ensures exists k :: 0 <= k < |order| && Components(order[k]) == d &&
                            d in RmdirAll(files, dirs, order[..k]) &&
                            !HasChildIn(files, RmdirAll(files, dirs, order[..k]), d)
        ensures !HasChildIn(files, after, d)
      {
        if d in before {
          var k := |order| - 1;
          assert order[..k] == init;
          assert Components(order[k]) == d;
        } else {
          var k :| 0 <= k < |init| && Components(init[k]) == d &&
                   d in RmdirAll(files, dirs, init[..k]) &&
                   !HasChildIn(files, RmdirAll(files, dirs, init[..k]), d);
          assert order[..k] == init[..k] && order[k] == init[k];
        }
      }
    }
  }

  /** All directories from the root down to `d`, `d` included. */
  function Lineage(d: Path): set<Path> {
    set k | 0 <= k <= |d| :: d[..k]
  }

  /** Creating a directory and its missing ancestors keeps the tree a tree. */
  lemma LineageKeepsTree(files: set<Path>, dirs: set<Path>, d: Path)
    requires TreeShaped(files, dirs) && Lineage(d) !! files
    ensures TreeShaped(files, dirs + Lineage(d))
  {
    var dirs' := dirs + Lineage(d);
    assert d[..0] in Lineage(d);
    forall x | x in dirs' && x != []
      ensures x[..|x| - 1] in dirs'
    {
      if x !in dirs {
        var k :| 0 <= k <= |d| && x == d[..k];
        assert x[..|x| - 1] == d[..k - 1];
      }
    }
  }

  /** The filesystem the link farm lives in, updated in place by system calls. */
  class FileSystem {
    var files: set<Path>
    var dirs: set<Path>

    ghost predicate Valid()
      reads this
    {
      TreeShaped(files, dirs)
    }

    constructor (files: set<Path>, dirs: set<Path>)
      requires TreeShaped(files, dirs)
      ensures Valid() && this.files == files && this.dirs == dirs
    {
      this.files := files;
      this.dirs := dirs;
    }

    /** `os.unlink(s)`; `ok` is false where Python raises `OSError`. */
    method Unlink(s: string) returns (ok: bool)
      requires Valid()
      modifies this
      ensures Valid()
      ensures ok == IsRegularFile(old(files), s)
      ensures files == (if ok then old(files) - {Components(s)} else old(files))
      ensures dirs == old(dirs)
    {
      ok := IsRegularFile(files, s);
      if ok {
        files := files - {Components(s)};
      }
    }

    /** The directory creation `tarfile.extractall(path=s)` performs: `s` and its missing ancestors;
        `ok` is false, and nothing is created, when one of them is a regular file. */
    method MakeDirs(s: string) returns (ok: bool)
      requires Valid()
      modifies this
      ensures Valid()
      ensures ok == (Lineage(Components(s)) !! old(files))
      ensures dirs == (if ok then old(dirs) + Lineage(Components(s)) else old(dirs))
      ensures files == old(files)
    {
      ok := Lineage(Components(s)) !! files;
      if ok {
        LineageKeepsTree(files, dirs, Components(s));
        dirs := dirs + Lineage(Components(s));
      }
    }

    /** `os.rmdir(s)`; `ok` is false where Python raises `OSError`. */
    method Rmdir(s: string) returns (ok: bool)
      requires Valid()
      modifies this
      ensures Valid()
      ensures ok == RmdirSucceeds(old(files), old(dirs), s)
      ensures dirs == RmdirStep(old(files), old(dirs), s)
      ensures files == old(files)
    {
      RmdirStepKeepsTree(files, dirs, s);
      ok := RmdirSucceeds(files, dirs, s);
      if ok {
        dirs := dirs - {Components(s)};
      }
    }
  }
}
