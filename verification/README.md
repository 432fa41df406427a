# Classic upload: glob rebasing and glob-field validation

A Dafny model of the classic upload strategy of the Google Cloud Storage
plugin for Jenkins (`ClassicUpload`). A user configures an Ant-style glob that
may contain `$NAME` build variables. At build time the strategy does four things:

1. It substitutes the variables from the build environment.
2. If the resolved glob starts with `/`, it moves the workspace up to the
   filesystem root and drops exactly one leading character of the glob.
3. It lists the files that match the glob.
4. It returns the upload specification (root and matched files), or null when
   nothing matched. An I/O or interruption failure is wrapped into an upload
   exception.

At configuration time, the form check on the glob field refuses an empty glob
and a glob that still contains `$` once the built-in variables are resolved.

Files:

- `file_paths.dfy` (module `FilePaths`): the parent chain of a file path as
  `getParent` exposes it. A `Hierarchy` is a parent function plus a
  natural-number depth that every step to a parent decreases, because paths are
  acyclic. `RootOf` is the root above a path. The lemmas say that this root is
  parentless, reachable, unique and idempotent. `Components` is a concrete
  hierarchy in which a path is its list of directory names and `/` is `[]`.
- `classic_upload.dfy` (module `Storage`): the upload step as a datatype, its
  construction, the `getRoot` loop, the rebasing rule (`Rebase`),
  `getInclusions`, the form check and the scenarios.

The collaborators are parameters of the model:

- the build environment, which may raise `IOException` or `InterruptedException`;
- `Util.replaceMacro`;
- `FilePath.list`, which returns the matches in order or raises one of those
  two exceptions;
- `Resolve.resolveBuiltin`.

The log line that `getInclusions` writes is returned as a value. It records
which message was written and with which arguments. The message text is not
modelled.

Only one leading character is stripped, so `//foo` is listed as `/foo` and
the pattern can still start with `/` (`Storage.DoubleSlashKeepsOne`). At build
time a glob that still holds `$` is not refused: it is handed to the listing
with the `$` in its pattern (`Storage.UnresolvedMarkerReachesListing`). Only
the form check refuses it.

## Model

| member | source | states |
|---|---|---|
| `FilePaths.RootOf` | src/main/java/com/google/jenkins/plugins/storage/ClassicUpload.java:112-121 | following parents from any path ends, and it ends at a path whose parent is null |
| `FilePaths.RootOfReachable` | src/main/java/com/google/jenkins/plugins/storage/ClassicUpload.java:115-121 | the root of a path can be reached from it by repeated `getParent` |
| `FilePaths.RootOfUnique` | src/main/java/com/google/jenkins/plugins/storage/ClassicUpload.java:115-121 | any parentless path reached from `p` by repeated `getParent` is the root of `p`, so the loop's answer is unique |
| `FilePaths.RootOfAncestor` | src/main/java/com/google/jenkins/plugins/storage/ClassicUpload.java:116-119 | every path the loop passes through has the same root as the workspace |
| `FilePaths.RootOfFixedPoint` | src/main/java/com/google/jenkins/plugins/storage/ClassicUpload.java:115-121 | a path is its own root exactly when it has no parent, and taking the root twice equals taking it once |
| `Storage.GetRoot` | src/main/java/com/google/jenkins/plugins/storage/ClassicUpload.java:115-121 | the loop terminates and returns a parentless path that is reachable from the workspace and is its root |
| `Storage.NewClassicUpload` | src/main/java/com/google/jenkins/plugins/storage/ClassicUpload.java:48-62 | construction succeeds exactly when the glob is non-null; it keeps the base fields, and the details string is the glob given |
| `Storage.Rebase` | src/main/java/com/google/jenkins/plugins/storage/ClassicUpload.java:84-90 | the effective root lies below the same filesystem root as the workspace, and the pattern is never longer than the resolved glob |
| `Storage.RebaseAbsolute` | src/main/java/com/google/jenkins/plugins/storage/ClassicUpload.java:84-89 | a glob starting with `/` is listed from the workspace's root, which is parentless and reachable; the pattern is the glob less exactly its first character (`"/" + pattern == glob`, length one less) |
| `Storage.RebaseRelative` | src/main/java/com/google/jenkins/plugins/storage/ClassicUpload.java:84-92 | any other glob is listed from the unchanged workspace with the unchanged glob |
| `Storage.DoubleSlashKeepsOne` | src/main/java/com/google/jenkins/plugins/storage/ClassicUpload.java:86-89 | a glob `//rest` is listed as `/rest`: only one separator is dropped, and the pattern is still absolute |
| `Storage.UnresolvedMarkerReachesListing` | src/main/java/com/google/jenkins/plugins/storage/ClassicUpload.java:72-92 | a resolved glob that still contains `$` is not refused at build time: the pattern handed to the listing still contains `$` |
| `Storage.GetInclusions` | src/main/java/com/google/jenkins/plugins/storage/ClassicUpload.java:69-108 | an environment or listing failure gives an upload exception carrying that failure and no log line. Otherwise the listing is made at the rebased root with the rebased pattern. An empty listing gives null and logs "no artifacts" with that pattern. A non-empty listing gives an upload spec of the rebased root and the listing in order, and logs the count and the unresolved glob. A returned spec is non-empty and lies below the workspace's root |
| `Storage.DoCheckSourceGlobWithVars` | src/main/java/com/google/jenkins/plugins/storage/ClassicUpload.java:159-185 | EmptyGlob exactly when the pre-resolved input is empty; BadGlobChar `$` exactly when it is non-empty and contains `$`; ok exactly when it is non-empty and has no `$` |
| `Storage.ValidatedGlobRebases` | src/main/java/com/google/jenkins/plugins/storage/ClassicUpload.java:84-92 | if the form check accepts a glob and the build resolves it to the same string, the pattern handed to the listing contains no `$`, and it is empty only when the glob is exactly `/` |
| `Storage.ScenarioAbsoluteGlob` | src/main/java/com/google/jenkins/plugins/storage/ClassicUpload.java:84-90 | workspace `/home/build/ws` with glob `/tmp/out/*.log` is listed from `/` as `tmp/out/*.log` |
| `Storage.ScenarioRelativeGlob` | src/main/java/com/google/jenkins/plugins/storage/ClassicUpload.java:84-92 | workspace `/home/build/ws` with glob `**/*.jar` is listed from the workspace with the glob unchanged |
| `Storage.ScenarioUnresolvedVariable` | src/main/java/com/google/jenkins/plugins/storage/ClassicUpload.java:168-173 | an input `build-$UNRESOLVED.txt` that the resolver leaves unchanged is refused with BadGlobChar `$` |

## Left out

- `hudson.FilePath` is not part of this model. `getParent` is taken to be any function that strictly decreases a natural-number depth, and the remote channel a path belongs to is not modelled.
- `FilePath.list` is not modelled. Ant-glob matching touches the filesystem, so the listing is a function parameter.
- `Util.replaceMacro` and `Resolve.resolveBuiltin` are library code that is not part of this model. They are function parameters.
- `Storage.DoCheckSourceGlobWithVars`: the `IOException` that the callback declares is not modelled, because the resolver is a pure function parameter.
- The build listener's log and the `Messages` texts are left out. Only which message is logged, with its arguments, is kept.
- `module.prefix` and `UploadModule` are not modelled (foreign code). The model also does not cover what happens if the module is null.
- `AbstractUpload`, `UploadSpec` and the cloud upload itself are not part of this model. The constructor's call to the base class is modelled only as storing the three base fields.
- The Stapler and Jenkins annotations, descriptor registration and `getDisplayName` are left out. They are framework plumbing.
- Windows drive-letter roots are not modelled. The code only recognises a leading `/`.
- Each `getParent` call in the loop is one evaluation of a pure function. The model does not capture that the Java code calls it twice per step and allocates a new path object each time.
