# norns-sc-installer, modelled in Dafny

The installer puts SuperCollider extension files (plugins, class files, help
files) onto a norns device. `run()` unpacks a downloaded zip archive into a
staging directory called `ignore`. It indexes the base names of the
non-directory entries already present under the paths to check (regular
files, but also symbolic links, devices and pipes, since the test is only
"not a directory"). Then it walks the staged tree and hands every
non-directory entry whose base name is not in the index to `copyFile`, aiming
at one flat target directory. `copyFile` looks at its source with `os.Stat`,
which follows a symbolic link, and refuses a source that is not then a regular
file: a device, a pipe, a dangling link or a link to something that is not a
regular file. It copies by hard link where the system allows it and dst does
not exist yet, and by a truncating content copy otherwise.

This project models that core on an explicit file system value:

- `FileTree` is a map from clean paths to nodes (`Directory`, `Regular(ino)`,
  `Irregular`) plus a map from inode numbers to byte sequences. It gives
  `os.MkdirAll`, `os.OpenFile(O_CREATE|O_TRUNC)`/`os.Create`, writes and
  `os.Link` as functions on that value. Several paths can share one inode, as
  a hard link does.
- `Paths` holds `filepath.Clean`, `filepath.Join`, `filepath.Base` and
  `filepath.Dir` on `/`-separated strings, and the ZipSlip guard of the
  extractor (`Join(dest, name)` must start with `Clean(dest) + "/"`).
- `Copy` holds `copyFile` and `copyFileContents` as functions. The answers of
  the operating system that the file map does not decide are a `CopyFaults`
  parameter: a refused link, a failed open, create, write, sync or close.
- `Unzip` holds the `extractAndWriteFile` closure and the loop of `unzip` over
  already decoded entries.
- `ExistenceIndex` holds the loop over the paths to check. A `filepath.Walk`
  is the sequence of events it hands its callback. The index is a map from
  base name to path.
- `Merge` holds the walk over the staged tree that skips indexed base names
  and copies the rest to `to/Base(p)`.
- `Disk` is a class whose one field is the file system. Its methods run the
  same operations step by step, with loops where the program has loops. Each
  method is proved to end in the state, and with the result, that the
  functional model gives.

The main properties proved are these:

- The guard's exact meaning: an accepted entry lies strictly inside the
  destination, and the guard's limits are shown.
- Confinement: unzip adds paths only inside the destination or along it, and
  the merge writes only `to/Base(p)` for unindexed base names.
- The index is sound and complete for the counted visits, and the last visit
  wins.
- Fail-fast unzip against fail-soft merge.
- The outcomes of `copyFile`, including the link-first behaviour.

## Model

| member | source | states |
|---|---|---|
| Paths.Clean | main.go:180 | filepath.Clean as segment resolution: split at separators, drop empty and "." segments, let ".." remove the kept segment before it (or stay at the start of a relative path, or vanish at the root), and render the rest, "." when nothing is left; Paths.CleanIdempotent and Paths.GuardIff state what it means |
| Paths.Join | main.go:177 | filepath.Join (and path.Join at main.go:87): the non-empty elements joined by a separator and cleaned, "" when both are empty; Paths.JoinChild states that joining a proper name b gives a path with base b whose directory is the cleaned first element |
| Paths.Dir | main.go:187 | filepath.Dir: everything up to the last separator, cleaned; Paths.JoinChild states that Dir of Join(to, b) is Clean(to), the directory MkdirAll makes before the create |
| Paths.Base | main.go:83 | the base name is never empty, and it is "/" or contains no separator |
| Paths.GuardIff | main.go:177-182 | for a destination whose clean form is not "." or "/", an entry passes the guard exactly when its joined segments strictly extend the destination's segments |
| Paths.GuardConfines | main.go:177-182 | when the destination is not made only of "..", an accepted entry resolves to the destination's segments followed by at least one proper name, so it lies strictly inside the destination |
| Paths.DegenerateDestRejectsAll | main.go:177-182 | when Clean(dest) is "." or "/", every entry is rejected |
| Paths.ParentDestLetsEntryOut | main.go:177-182 | under destination "..", the entry "../x" joins to "../../x" and is still accepted, so the guard does not confine such a destination |
| Paths.OneNameDest | main.go:177 | a destination that is one proper name, like the staging directory, is relative and its clean segments are just that name |
| Paths.ParentEntryRejected | main.go:177-182 | under a one-name destination, the entry "../x" joins to x beside the destination and is refused |
| Paths.CollapsingEntryRejected | main.go:177-182 | under a one-name destination, the entries "", "." and "a/.." join back to the destination itself and are refused |
| Paths.InnerEntryAccepted | main.go:177-182 | under a one-name destination d, the entry "a/b" is accepted and lands at d/a/b |
| Paths.ReturningEntryAccepted | main.go:177-182 | the guard judges the resolved path, not the name: "../d/b" under d is accepted and lands at d/b |
| Paths.LiteralNames | main.go:177 | the literal entry names "", ".", "a/..", "../x" and "a/b" split into the segments the lemmas above take |
| Paths.IgnoreDestExamples | main.go:177-182 | with the staging directory "ignore" as destination, "../x" (joined to "x"), "", "." and "a/.." are refused and "a/b" is accepted |
| Paths.CleanIdempotent | main.go:180 | Clean of a clean path gives it back |
| Paths.JoinChild | main.go:83-87 | for a proper name b, Join(to, b) has base name b and directory Clean(to), and its segments are Clean(to)'s plus b |
| Paths.JoinChildInjective | main.go:83-87 | two different proper base names never share a flattened target |
| FileTree.MkdirAll | main.go:163 | os.MkdirAll never changes file contents or allocates an inode; FileTree.MkdirAllFacts and FileTree.MkdirAllCompletes state which directories it adds |
| FileTree.MkdirAllFacts | main.go:163 | MkdirAll removes and rebinds nothing, keeps the file system valid, and adds only directories named by prefixes of the path's clean segments |
| FileTree.MkdirAllCompletes | main.go:185 | when no prefix of the path is held by a non-directory, MkdirAll leaves every prefix a directory, the path included |
| FileTree.CreateTrunc | main.go:189 | the create succeeds exactly when the parent is a directory and the path is absent or a regular file |
| FileTree.CreateTruncFacts | main.go:189 | an opened file is a regular file with empty contents (O_TRUNC); only that path may be new and only its inode changes |
| FileTree.Link | main.go:243 | os.Link, allowed for a regular src, an absent dst that is not "." or "/", and an existing parent directory: dst becomes a second name of src's node, and file contents and the inode counter do not change |
| FileTree.LinkFacts | main.go:243 | after a link, dst is a regular file with the source's contents and nothing existing is rebound |
| Copy.CopyContents | main.go:254-275 | copyFileContents keeps the file system well formed (every regular path names a stored inode); Copy.CopyContentsOutcome and Copy.CopyContentsFrame state its results |
| Copy.CopyContentsFrame | main.go:254-275 | copyFileContents changes nothing but dst: other paths keep their nodes and only dst's inode gets new contents |
| Copy.CopyContentsOutcome | main.go:254-275 | a success leaves dst holding exactly the source's bytes; once dst is opened, it holds a prefix of the source's bytes; a Close error is reported exactly when nothing failed before it; an open or create error changes nothing |
| Copy.CopyFile | main.go:220-248 | copyFile keeps the file system well formed; Copy.CopyFileRefusals, Copy.CopyFileSuccess, Copy.CopyFileLinksFirst and Copy.CopyFileFallsBackToCopy state its outcomes |
| Copy.CopyFileRefusals | main.go:220-242 | a missing source, a source that is not a regular file and an existing destination that is not a regular file are each an error that changes nothing; a destination that already is the source's inode is a success that changes nothing |
| Copy.CopyFileFrame | main.go:220-248 | copyFile changes nothing but dst |
| Copy.CopyFileNewNode | main.go:243-260 | a destination copyFile creates is either a second name of the source's inode (the link) or a fresh inode (os.Create) |
| Copy.CopyFileSuccess | main.go:220-248 | a success of copyFile means the source was a regular file and dst is now a regular file holding exactly its bytes, whether linked, copied or already the same file |
| Copy.CopyFileLinksFirst | main.go:243-245 | the hard link is tried first: with dst absent, its parent a directory and the link allowed, copyFile succeeds with dst a second name of the source's inode and no file contents changed |
| Copy.CopyFileFallsBackToCopy | main.go:243-246 | when the link fails, because the system refuses it or because dst already names another regular file, dst is truncated and holds a prefix of the source's bytes; the result is success exactly when no write, sync or close fault occurs, and a Close error exactly when only Close failed |
| Unzip.ExtractAndWrite | main.go:166-205 | extractAndWriteFile: open, guard, then MkdirAll for a directory entry or MkdirAll of the parent, create and copy for a file entry; Unzip.RejectedEntryWritesNothing, Unzip.ExtractedFileHoldsEntryBytes and Unzip.FileEntryConfined state its results |
| Unzip.UnzipAll | main.go:152-215 | unzip after the archive is open: MkdirAll(dest), then the entries in order until the first error; Unzip.UnzipStopsAtFirstFailure, Unzip.UnzipSuccessMeansAllAccepted and Unzip.UnzipConfined state its results |
| Unzip.RejectedEntryWritesNothing | main.go:166-182 | an entry that cannot be opened or fails the guard leaves the file system unchanged, and the guard's error carries the joined path |
| Unzip.ExtractedFileHoldsEntryBytes | main.go:184-204 | a file entry written without error lies at its joined path in an existing directory and holds exactly the entry's bytes; a read error leaves the bytes read before it |
| Unzip.DirectoryEntryOnlyMakesDirectories | main.go:184-185 | a directory entry changes no contents, and everything it adds is a directory |
| Unzip.FileEntryConfined | main.go:186-203 | an accepted file lands strictly inside dest; its new parent directories lie inside dest or above it; only its own inode changes |
| Unzip.ExtractConfined | main.go:166-205 | one entry adds only paths inside dest or dest's own ancestors, and changes only the contents of a file inside dest |
| Unzip.UnzipStopsAtFirstFailure | main.go:207-212 | entries are handled in archive order; the first failing entry ends the loop, its own effect stays, and the later entries are never looked at |
| Unzip.IllegalEntryAbortsWithoutWriting | main.go:180-182 | a guard failure aborts the extraction with the file system exactly as the earlier entries left it |
| Unzip.UnzipSuccessMeansAllAccepted | main.go:207-214 | a successful unzip opened every entry, and every entry passed the guard |
| Unzip.ExtractFromPreserves | main.go:207-212 | the loop keeps the file system valid and never deletes or rebinds a path |
| Unzip.UnzipConfined | main.go:152-215 | for a destination not made only of "..", every path unzip adds lies inside dest or is one of dest's ancestors, and every file whose contents change is named by a path inside dest |
| ExistenceIndex.IndexOf | main.go:52-72 | the existence index as a fold over the roots and their walks; ExistenceIndex.IndexIsLastEligible and ExistenceIndex.EligibleIff tie it to the reference definition |
| ExistenceIndex.BuildIndex | main.go:52-72 | the loop over the paths to check builds exactly the index of the functional model |
| ExistenceIndex.IndexIsLastEligible | main.go:52-72 | the index is the eligible paths recorded in walk order, each under its base name |
| ExistenceIndex.EligibleIff | main.go:54-67 | a path is eligible exactly when some root's walk reaches it as a counted visit before any error of that root |
| ExistenceIndex.IndexEntriesAreCountedVisits | main.go:59-65 | every index entry is a path filed under its own base name, reached as a non-directory visit whose absolute path does not contain "/ignore/", before any error of its root |
| ExistenceIndex.IndexHasEveryCountedVisit | main.go:59-65 | every counted visit before its root's first error has its base name in the index |
| ExistenceIndex.IgnoredPathNeverRecorded | main.go:59-65 | a path every visit of which is a directory or lies under "/ignore/" is never a value of the index |
| ExistenceIndex.IndexKeepsLastVisit | main.go:64 | among eligible paths sharing a base name, the last one walked is the one kept |
| ExistenceIndex.WalkErrorIsLocal | main.go:55-57 | a walk error drops only the rest of its own root: earlier roots, the events before it and all later roots are recorded |
| Merge.MergeFile | main.go:82-94 | the walk callback on a non-directory entry keeps the file system well formed; Merge.MergeFileNote states which entries it skips and where it copies the others |
| Merge.MergeWalk | main.go:77-96 | the walk over the staged tree keeps the file system well formed; Merge.MergeVisitsEveryFile, Merge.MergeStopsOnWalkError and Merge.MergeWalkFrame state its results |
| Merge.MergeAll | main.go:76-96 | os.MkdirAll(to) followed by the walk; Merge.MergeConfined, Merge.NewFileIsInstalled and Merge.MergeOfIndexedChangesNothing state its results |
| Merge.MergeFileNote | main.go:82-93 | the callback on a staged non-directory entry skips it exactly when its base name is indexed and otherwise copies it to Join(to, Base(p)) |
| Merge.MergeVisitsEveryFile | main.go:77-96 | a failed copy does not stop the walk: every staged non-directory entry reached before the first walk error gets one note, in order, which is the note for that file |
| Merge.MergeStopsOnWalkError | main.go:78-81 | the walk reports stopping exactly when it met a walk error |
| Merge.MergeWalkFrame | main.go:77-96 | the walk only adds copy destinations, rebinds nothing, and changes only contents that a destination names |
| Merge.IndexedNamesAreNotTargets | main.go:84-87 | no copy destination is to/b for an indexed base name b |
| Merge.MergeConfined | main.go:76-96 | the merge adds only directories along the target path and destinations to/Base(p) of unindexed staged files; nothing is rebound; only contents reachable from a destination change |
| Merge.MergeSkipsIndexed | main.go:84-85 | for an indexed base name b, to/b keeps its old node, and if it was absent no file appears there |
| Merge.MergeWalkAppend | main.go:77-96 | walking a stretch with no walk error and then the rest gives the same state and stop flag as walking both, with the notes concatenated in order |
| Merge.LaterWalkKeepsInode | main.go:82-93 | the rest of the walk leaves dst's node and its inode's bytes alone when no path it reads or writes names that inode |
| Merge.MergeCopyLands | main.go:82-93 | copy correctness over the whole walk: the note for staged entry p is note number \|StagedFiles(pre)\| and is the note for p; when it reports a successful copy to to/Base(p), and no later staged entry or destination is that path or another name of p's or its file, then after the walk to/Base(p) is a regular file holding exactly the bytes p held when it was copied |
| Merge.NewFileIsInstalled | main.go:76-96 | a new plugin: with nothing indexed and no fault, one staged file whose to/b is absent, under a target path no file blocks, gives one successful note, no stop, and to/b holding exactly the file's bytes |
| Merge.MergeOfIndexedChangesNothing | main.go:76-96 | when every staged base name is indexed, as on a second install of the same archive with the target among the paths to check, the merge leaves the file system as MkdirAll(to) left it and writes one skip note per staged entry, in order, naming the indexed path |
| Merge.CollidingStagedFilesRewriteFirst | main.go:83-89 | when two staged files share a base name, the first is linked to to/b, and the second is copied without fault, then to/b and the first staged file both hold the second file's bytes |
| Disk.Disk.constructor | main.go:43 | the disk starts with the given file system |
| Disk.Disk.CopyFileContents | main.go:254-275 | the step-by-step copy ends in the state and error of the copyFileContents model |
| Disk.Disk.CopyFile | main.go:220-248 | the step-by-step copyFile ends in the state and error of the copyFile model |
| Disk.Disk.ExtractAndWriteFile | main.go:166-205 | extracting one entry ends in the state and error of the extractAndWriteFile model |
| Disk.Disk.Unzip | main.go:152-215 | the extraction loop ends in the state and with the first failure of the unzip model |
| Disk.Disk.MergeFile | main.go:82-94 | the walk callback ends in the state and note of the callback model |
| Disk.Disk.Merge | main.go:76-99 | the merge loop ends in the state, notes and stop flag of the merge model |
| Disk.Disk.Run | main.go:43-101 | run() stops with no index and no copy when unzip fails; otherwise it builds the index of the paths to check and ends in the state of the merge model on the unzipped file system |

## Left out

- Downloading the archive, the URL, temporary file names and `downloadAndUnzip`
  (main.go:104-138) are network and clock I/O. The model starts from the
  decoded zip entries.
- Command-line flags and `arrayFlags` (main.go:16-41) are parsing. The roots
  to check, the target directory and the walks are parameters.
- Zip decoding is out of scope: an entry is a name, a directory flag and a
  body that is intact, broken after some bytes, or unopenable.
- The panics in the deferred `Close` calls of the zip reader, the entry
  stream and the extracted file (main.go:157-161, 171-175, 193-197) are not
  modelled. The extraction loop ends only on returned errors.
- The staging `os.Mkdir("ignore")` and `os.RemoveAll("ignore")`
  (main.go:44-45) are left out. The model neither creates nor removes the
  staging directory beyond what unzip's MkdirAll does.
- The commented-out `ex` helper (main.go:140-150) is not part of this model.
- Printing to stdout is left out. Merge notes (`Skipped`, `Copied` with its
  error) stand in for the messages.
- Permission modes are not modelled. This covers `0644` on directories, the
  entry modes and the effect of missing execute bits on later creates.
- `filepath.Abs` is not modelled. The walks carry each visit's absolute path
  as an input, and Abs's ignored error is not modelled.
- `filepath.ToSlash` is not modelled; paths use `/` only.
- Walks are inputs, not derived from the file system. This covers the staged
  tree walk and each root's walk: order, lexical sorting and the events
  `filepath.Walk` produces. Symbolic links and `Lstat` are therefore not
  modelled, and a non-directory that is not a regular file is `Irregular`.
- Copy.CopyFile: refuses every `Irregular` source or destination. The program's
  `os.Stat` follows symbolic links, so it links or copies a symbolic link
  whose target is a regular file (the target's inode and bytes), and judges a
  destination link by its target. The model has no link targets, so for such
  a link it reports a non-regular source or destination instead.
- `os.SameFile` is modelled as equal inode numbers. Devices are not modelled:
  a link refused for crossing devices is a `CopyFaults` answer.
- FileTree.MkdirAllFacts: `os.MkdirAll` is modelled on the clean form of its
  path. Go's MkdirAll recurses on the raw string, so for a `-to` flag such as
  `a/../b` with `a` absent, the program also creates `a`. The model creates
  only `b`. Because of this, Merge.MergeConfined's "directories along the
  target path" means the prefixes of Clean(to). It does not cover such a
  `-to`. Unzip's MkdirAll of dest (main.go:163) gets the raw dest string,
  which is clean only because run() passes "ignore" (main.go:136); its other
  calls pass results of Join and Dir, which are clean.
- Errors of `os.MkdirAll` are ignored by every caller, and the model ignores
  them too: MkdirAll stops at a prefix held by a non-directory, and the
  following create fails.
- Paths.ParentDestLetsEntryOut: the guard does not confine a destination made
  only of ".." segments. Because of this, Unzip.UnzipConfined and
  Paths.GuardConfines require such destinations to be excluded. The program
  itself always extracts into "ignore".
- ExistenceIndex.IndexEntriesAreCountedVisits: "under ignore" is the
  program's substring test for "/ignore/" on the absolute path. A file to
  check under any directory called ignore is excluded too, not only the
  staging tree. The model follows the code here, not an identity test on the
  staging root.
- Merge.CollidingStagedFilesRewriteFirst: the merge does not keep the staged
  tree unchanged. When two staged files share a base name and the first was
  hard-linked, the truncating copy of the second rewrites the first staged
  file too. The model follows the code.
- There is no concurrency: the program is single-threaded.
