# conda link-farm teardown and environment rename, in Dafny

This project models two small pieces of conda.

- `conda/install.py`: `extract` unpacks a package archive `pkgs_dir/pkg.tar.bz2` into
  the package cache directory `pkgs_dir/pkg`. `deactivate` tears a package's link farm
  out of an environment prefix. It reads the package manifest (`info/files`), unlinks
  every listed file, each resolved as `join(env_prefix, entry)` (an absolute entry
  stands for itself), and records each entry's directory. It then tries
  `rmdir` on every recorded directory, longest path string first. Errors for missing
  files and for missing or non-empty directories are swallowed.
- `conda/cli/main_rename.py`: `conda rename` checks the source environment and the
  destination. It then walks a fixed action list, `clone(source, destination)` and then
  `rm_rf(source)`. In a dry run it prints one line per action. Otherwise it runs the
  actions, inside `rename_context` when `--force` is given.

Files:

- `wrappers.dfy`: `Option` and `Result`.
- `posix_path.dfy` (module `PosixPath`): `os.path.join` and `os.path.split` on strings.
  It also gives the resolved path a string names, as the sequence of its non-empty
  components.
- `disk.dfy` (module `Disk`): the filesystem as a class `FileSystem` with two sets of
  resolved paths, `files` and `dirs`. The system calls `os.unlink` and `os.rmdir` are
  methods that fail on a missing or wrong kind of entry (other errors are listed under
  "Left out"). The directory creation that `extractall` performs
  is the method `MakeDirs`. `RmdirAll` gives the directory
  set after an `rmdir` sweep, as a function.
- `install.dfy` (module `Install`): `Extract`, `Deactivate` (split into its two loops),
  `sorted(..., key=len, reverse=True)`, and the lemmas about the teardown.
- `main_rename.dfy` (module `MainRename`): `ValidateSrc` and `ValidateDestination` as
  functions. The class `Host` holds which paths exist (with their file identity, as
  `os.stat` reports it), the printed lines and a trace of events. Its methods `Run`,
  `CloneAndRemove` and `Execute` are the imperative part.

Three behaviours of the code are worth stating plainly:

- `deactivate` tries only the immediate parent directory of each manifest entry. An
  ancestor that holds no listed file directly is never tried, even when it becomes
  empty. `CandidatesAreEntryDirectories` states this.
- Directories are tried in order of the length of their path string. The child-first
  order is proved for clean entries, meaning entries with no leading, trailing or
  doubled separator (`NestedDirectoryTriedFirst`). A doubled separator can break it:
  for the entries `x//////a/f` and `x/a/b/g`, the directory `x//////a` is tried before
  `x/a/b`, and its `rmdir` then fails because the directory is not empty
  (`DoubledSeparatorParentTriedFirst`).
- A dry run of `clone_and_remove` prints two lines, one for `clone` and one for
  `rm_rf`. In a real run `clone_and_remove` prints nothing of its own.

## Model

| member | source | states |
|---|---|---|
| `PosixPath.SepEnd` | conda/install.py:52 | the split point of `os.path.split` lies right after the last separator: no separator follows it |
| `PosixPath.ComponentsJoin` | conda/install.py:53-55 | `join(a, b)` names `b` alone when `b` is absolute, otherwise `b` read below `a` |
| `PosixPath.SplitTail` | conda/install.py:52 | the tail of `os.path.split` holds no separator, and it is empty exactly when the entry is empty or ends with a separator |
| `PosixPath.SplitComponents` | conda/install.py:52 | head and tail together name the same path as the entry |
| `PosixPath.SplitAbsolute` | conda/install.py:52 | the head is absolute exactly when the entry is |
| `PosixPath.DestinationResolves` | conda/install.py:52-55 | the unlinked `join(join(prefix, head), tail)` resolves to `join(prefix, entry)`, and the recorded `join(prefix, head)` is that file's parent directory |
| `PosixPath.DestinationShape` | conda/install.py:55-57 | the unlinked string ends in a file name exactly when the manifest entry does |
| `PosixPath.CleanSpelledByComponents` | conda/install.py:61 | a clean relative path is spelled by its components joined with separators, which ties string length to depth |
| `PosixPath.SplitHead` | conda/install.py:52 | the head of `os.path.split(h + '/' + t)` is `h` when `h` ends in a name and `t` holds no separator |
| `PosixPath.DoubledSeparatorParentIsLonger` | conda/install.py:52-53 | for the entries `x//////a/f` and `x/a/b/g`, the first recorded directory contains the second and is nevertheless the longer string |
| `PosixPath.DeeperDirectoryIsLonger` | conda/install.py:52-61 | for clean entries, a recorded directory strictly inside another recorded directory has the longer path string |
| `Disk.FileSystem.Unlink` | conda/install.py:56-59 | `os.unlink` removes the named regular file and nothing else; it fails, changing nothing, for a missing file or a string that is empty or ends with a separator |
| `Disk.FileSystem.Rmdir` | conda/install.py:62-65 | `os.rmdir` removes the named directory only if it exists, is not the root and is empty; otherwise it fails and changes nothing |
| `Disk.FileSystem.MakeDirs` | conda/install.py:30 | creating the extraction directory adds it and its ancestors; it fails, changing nothing, when a regular file is on the way |
| `Disk.RmdirStepKeepsTree` | conda/install.py:63 | removing an empty directory keeps the filesystem a tree |
| `Disk.LineageKeepsTree` | conda/install.py:30 | creating a directory with its ancestors keeps the filesystem a tree |
| `Disk.RmdirAllRemovesOnlyEmpty` | conda/install.py:61-65 | the `rmdir` sweep only removes directories; each removed directory was named at some position of the order and was present and empty at the moment that `rmdir` ran; the tree stays a tree |
| `Install.Extract` | conda/install.py:22-33 | on success the package directory `pkgs_dir/pkg` exists, and the archive is removed if and only if `cleanup` is set; nothing else changes; on failure (archive missing or unreadable, destination blocked) nothing changes |
| `Install.ExtractTwice` | conda/install.py:22-33 | after a first successful extraction without cleanup, a second one succeeds too and leaves the files and directories as the first left them |
| `Install.TargetsAreListedFiles` | conda/install.py:51-57 | the files the teardown removes are exactly the listed file entries, each resolved as `join(prefix, entry)` |
| `Install.CandidatesAreEntryDirectories` | conda/install.py:50-54 | the recorded directories are exactly the directories of the listed entries, each recorded once; no other ancestor is recorded |
| `Install.TopLevelEntryDirectory` | conda/install.py:52-53 | a top-level entry records the prefix itself, as `join(prefix, '')` |
| `Install.DeactivateSparesDisjointPackage` | conda/install.py:51-57 | tearing down one package leaves in place every file of another package whose manifest shares no path with it |
| `Install.UnlinkRemovesEntry` | conda/install.py:55-59 | one unlink removes the entry's file if it is there; a missing file or a directory entry leaves the files unchanged |
| `Install.Longest` | conda/install.py:61 | returns a longest string of a non-empty set |
| `Install.SortByLengthDesc` | conda/install.py:61 | `sorted(dst_dirs, key=len, reverse=True)` holds every recorded directory exactly once, in non-increasing length |
| `Install.NestedDirectoryTriedFirst` | conda/install.py:61 | for clean entries, a directory is tried strictly before every recorded directory that contains it |
| `Install.DoubledSeparatorParentTriedFirst` | conda/install.py:61 | in any longest-first order, the directory `x//////a` is tried before `x/a/b`, which it contains |
| `Install.UnlinkListed` | conda/install.py:50-59 | the first loop removes exactly the listed files that exist, keeps going past missing ones, and records exactly the entries' directories |
| `Install.RemoveDirectories` | conda/install.py:61-65 | the second loop tries `rmdir` on every directory in order, swallowing each error |
| `Install.Deactivate` | conda/install.py:44-65 | after the teardown the files are the old files minus the listed ones; each recorded directory is tried once, longest first; a directory is removed only if it was recorded and was empty when its `rmdir` ran; the tree stays a tree |
| `MainRename.SameFile` | conda/cli/main_rename.py:95-98 | `samefile` compares file identities, and raises when either path does not exist |
| `MainRename.ValidateSrc` | conda/cli/main_rename.py:83-100 | existence is checked first; the base environment is refused whatever the active prefix; the active environment is refused only when an active prefix is set; otherwise the source prefix is returned |
| `MainRename.ValidateDestination` | conda/cli/main_rename.py:103-107 | the destination is accepted exactly when it does not exist or `--force` is given |
| `MainRename.UnsetActivePrefixIgnored` | conda/cli/main_rename.py:97 | an unset active prefix and an empty one give the same verdict |
| `MainRename.SplitCommaJoin` | conda/cli/main_rename.py:136 | the comma-joined argument list of a dry-run line splits back into the arguments when none holds a comma |
| `MainRename.DryRunLineIdentifiesAction` | conda/cli/main_rename.py:136 | two actions whose arguments hold no comma print the same dry-run line only if they are the same action |
| `MainRename.Host.Run` | conda/cli/main_rename.py:137-138 | running `clone` creates the destination unless the clone raises; running `rm_rf` removes the path; `clone_and_remove` prints nothing of its own |
| `MainRename.Host.CloneAndRemove` | conda/cli/main_rename.py:121-138 | a dry run prints one line per action, clone then `rm_rf`, and changes nothing; in a real run `clone_and_remove` prints nothing of its own, and it clones before it removes the source; a failed clone leaves the source in place |
| `MainRename.Host.Execute` | conda/cli/main_rename.py:110-145 | both ends are validated before anything is printed or run, source first; a dry run prints the two action lines and leaves the filesystem unchanged; a real run prints nothing of its own and leaves the destination in place of the source; a raised clone leaves the filesystem unchanged; `rename_context` wraps the actions only with `--force`, and is left even when the clone raises; success returns 0 |

## Left out

- `activate` (conda/install.py:36-41): its body only calls `sfx_activate`, and `sfx` is not part of this model. The model states no behaviour for it.
- Reading the manifest: `yield_lines(join(dist_path, 'info/files'))` is not part of this model. `Deactivate` takes the manifest lines as a parameter.
- Logging (conda/install.py:59, 65): the `log.debug` calls are dropped. Line 65 logs `dst`, the last file of the first loop, where `path` was meant; this changes no behaviour outside the log.
- `Extract`: the members of the archive are not modelled. An extraction creates the package directory and its ancestors. A corrupt archive is a `readable` flag that fails before anything is written, so a partially written extraction is not modelled. An empty archive, which would not create the directory, is not modelled either.
- Path resolution: only separators are interpreted. `.` and `..` components and symbolic links are not. A relative path string is read from the root, so the working directory is not modelled.
- `Disk.FileSystem.Unlink`: it fails only on a missing entry, a directory, or a string that is empty or ends with a separator. Errors on an existing file (EACCES, EPERM, EROFS, EBUSY) are not modelled. So `Install.Deactivate` and `Install.UnlinkListed` promise that every listed file goes, where the code would leave in place a file whose `unlink` it swallowed for such an error.
- `Disk.FileSystem.Rmdir`: errors other than a missing directory, a non-directory, a non-empty directory and the root (permissions, for example) are not modelled.
- `MainRename.ValidateSrc`: `str(Path(context.target_prefix))` normalises the string in Python. The model returns the target prefix as given.
- `validate_prefix_exists` and `validate_new_prefix`: their bodies are not part of this model. They are modelled as existence checks. Resolving a destination name to a prefix under the environments directory is not modelled, so the destination is taken as a prefix.
- `rename_context`: its body is not part of this model. It shows up only as enter and exit events around the actions. Moving an existing destination aside and rolling back on failure are not modelled.
- `install.clone`: its body is not part of this model. Its outcome is a parameter: it raises, or it creates the destination with a new file identity. `clone_env`, dependency filtering, record resolution, topological ordering and prefix rewriting are not part of this model.
- `rm_rf`: modelled as removing the prefix from the set of existing paths. The contents of the tree are not modelled.
- `context.quiet` and `context.json`: they are keyword arguments of the clone action and are not printed, so they are not modelled.
- `configure_parser` in both command files and the `deprecated` decorators: argument parsing and help text only.
- conda_env/cli/main_rename.py: a thin wrapper that prints a name and calls `clone_env`. It is not modelled.
- Output of `install.clone` and `rename_context`: these print progress of their own (the clone action passes `quiet` and `json` for this). That output is not modelled. `stdout` holds only what `clone_and_remove` prints itself.
- `MainRename.Host.CloneAndRemove` and `MainRename.Host.Execute`: prefix nesting is not modelled, because the set of existing paths is flat. So the survival of the destination after `rm_rf(source)` is claimed only for a destination outside the source. When the destination lies inside the source (`conda rename -p /e/a /e/a/b`), `rm_rf` deletes the new clone along with the source.
