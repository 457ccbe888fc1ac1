/** The installer's operations as they run: each one changes the file system
    held by a Disk step by step, and each is proved to end in the state (and
    with the result) that the functional model of the same operation gives. */
module Disk {
  import opened Wrappers
  import opened Paths
  import opened FileTree
  import C = Copy
  import U = Unzip
  import X = ExistenceIndex
  import M = Merge

  /** The directory run() stages the archive in. */
  const Staging: string := "ignore"

  class Disk {
    var fs: Fs

    constructor (fs0: Fs)
      ensures fs == fs0
    {
      fs := fs0;
    }

    /** copyFileContents: open src, create or truncate dst, copy, sync, and
        let the deferred Close report its error only if nothing failed. */
    method CopyFileContents(src: string, dst: string, f: C.CopyFaults) returns (err: Option<C.CopyError>)
      requires Valid(fs) && IsRegularAt(fs, src)
      modifies this
      ensures C.CopyResult(fs, err) == C.CopyContents(old(fs), src, dst, f)
    {
      if f.openSrc {
        return Some(C.OpenSource);
      }
      if f.createDst {
        return Some(C.CreateDestination);
      }
      var out := CreateTrunc(fs, dst);
      if out.OpenFailed? {
        return Some(C.CreateDestination);
      }
      var bytes := C.Written(out.fs.data[fs.tree[src].ino], f.writeStopsAt);
      fs := Append(out.fs, out.ino, bytes);
      if f.writeStopsAt.Some? {
        err := Some(C.WriteFailed);
      } else if f.sync {
        err := Some(C.SyncFailed);
      } else {
        err := None;
      }
      if err.None? && f.close {
        err := Some(C.CloseFailed);
      }
    }

    /** copyFile: stat both ends, refuse non-regular files, accept the same
        file as done, then link, and copy the contents if the link fails. */
    method CopyFile(src: string, dst: string, f: C.CopyFaults) returns (err: Option<C.CopyError>)
      requires Valid(fs)
      modifies this
      ensures C.CopyResult(fs, err) == C.CopyFile(old(fs), src, dst, f)
    {
      if src !in fs.tree {
        return Some(C.StatSource);
      }
      if !fs.tree[src].Regular? {
        return Some(C.NonRegularSource);
      }
      if dst in fs.tree {
        if !fs.tree[dst].Regular? {
          return Some(C.NonRegularDestination);
        }
        if fs.tree[dst].ino == fs.tree[src].ino {
          return None;
        }
      } else if f.statDst {
        return Some(C.StatDestination);
      }
      if !f.link && CanLink(fs, src, dst) {
        fs := Link(fs, src, dst);
        return None;
      }
      err := CopyFileContents(src, dst, f);
    }

    /** The extractAndWriteFile closure of unzip. */
    method ExtractAndWriteFile(dest: string, e: U.ZipEntry) returns (err: Option<U.ExtractError>)
      modifies this
      ensures U.EntryResult(fs, err) == U.ExtractAndWrite(old(fs), dest, e)
    {
      if e.body.Unopenable? {
        return Some(U.OpenEntry);
      }
      var path := Join(dest, e.name);
      if !HasPrefix(path, Clean(dest) + "/") {
        return Some(U.IllegalPath(path));
      }
      if e.isDir {
        fs := MkdirAll(fs, path);
        return None;
      }
      fs := MkdirAll(fs, Dir(path));
      var out := CreateTrunc(fs, path);
      if out.OpenFailed? {
        return Some(U.CreateFile);
      }
      match e.body
      case Intact(bytes) =>
        fs := Append(out.fs, out.ino, bytes);
        err := None;
      case Broken(bytes) =>
        fs := Append(out.fs, out.ino, bytes);
        err := Some(U.ReadEntry);
    }

    /** unzip(src, dest) on the decoded entries: make dest, then extract the
        entries in archive order, returning the first error. */
    method Unzip(dest: string, entries: seq<U.ZipEntry>) returns (failure: Option<U.Failure>)
      modifies this
      ensures U.UnzipResult(fs, failure) == U.UnzipAll(old(fs), dest, entries)
    {
      fs := MkdirAll(fs, dest);
      var i := 0;
      while i < |entries|
        invariant 0 <= i <= |entries|
        invariant U.ExtractFrom(fs, dest, entries, i) == U.UnzipAll(old(fs), dest, entries)
      {
        U.ExtractFromUnfold(fs, dest, entries, i);
        var err := ExtractAndWriteFile(dest, entries[i]);
        if err.Some? {
          return Some(U.Failure(i, err.value));
        }
        i := i + 1;
      }
      failure := None;
    }

    /** The walk callback of the merge on a non-directory entry p. */
    method MergeFile(index: map<string, string>, to: string, p: string, f: C.CopyFaults) returns (note: M.Note)
      requires Valid(fs)
      modifies this
      ensures (fs, note) == M.MergeFile(old(fs), index, to, p, f)
    {
      var b := Base(p);
      if b in index {
        note := M.Skipped(p, index[b]);
      } else {
        var dst := Join(to, b);
        var err := CopyFile(p, dst, f);
        note := M.Copied(p, dst, err);
      }
    }

    /** The merge of run(): make the target directory, then walk the staged
        files, skipping indexed base names and copying the others. */
    method Merge(index: map<string, string>, to: string, events: seq<X.WalkEvent>, faults: seq<C.CopyFaults>)
      returns (notes: seq<M.Note>, stopped: bool)
      requires Valid(fs) && |faults| == |events|
      modifies this
      ensures M.MergeResult(fs, notes, stopped) == M.MergeAll(old(fs), index, to, events, faults)
    {
      M.MergeAllUnfold(fs, index, to, events, faults);
      fs := MkdirAll(fs, to);
      ghost var target := M.MergeWalk(fs, index, to, events, faults);
      notes := [];
      var rest, restFaults := events, faults;
      while rest != []
        invariant |restFaults| == |rest| && Valid(fs)
        invariant var w := M.MergeWalk(fs, index, to, rest, restFaults);
          M.MergeResult(w.fs, notes + w.notes, w.stopped) == target
        decreases |rest|
      {
        var ev := rest[0];
        if ev.WalkError? {
          M.MergeWalkStopsAtError(fs, index, to, rest, restFaults);
          assert notes + [] == notes;
          return notes, true;
        }
        if ev.isDir {
          M.MergeWalkSkipsDirectory(fs, index, to, rest, restFaults);
        } else {
          M.MergeWalkStep(fs, index, to, rest, restFaults, notes);
          var note := MergeFile(index, to, ev.path, restFaults[0]);
          notes := notes + [note];
        }
        rest, restFaults := rest[1..], restFaults[1..];
      }
      stopped := false;
      assert notes + [] == notes;
    }

    /** run(), after the download: unzip the archive into the staging
        directory and stop on its error; otherwise build the existence index
        from the walks of the paths to check and merge the staged files into
        to. */
    method Run(entries: seq<U.ZipEntry>, checks: seq<seq<X.WalkEvent>>, to: string,
               staged: seq<X.WalkEvent>, faults: seq<C.CopyFaults>)
      returns (failure: Option<U.Failure>, index: map<string, string>, notes: seq<M.Note>)
      requires Valid(fs) && |faults| == |staged|
      modifies this
      ensures var u := U.UnzipAll(old(fs), Staging, entries);
        && failure == u.failure
        && (failure.Some? ==> fs == u.fs && index == map[] && notes == [])
        && (failure.None? ==>
              && Valid(u.fs) && index == X.IndexOf(checks)
              && fs == M.MergeAll(u.fs, index, to, staged, faults).fs
              && notes == M.MergeAll(u.fs, index, to, staged, faults).notes)
    {
      MkdirAllFacts(fs, Staging);
      U.ExtractFromPreserves(MkdirAll(fs, Staging), Staging, entries, 0);
      failure := Unzip(Staging, entries);
      if failure.Some? {
        return failure, map[], [];
      }
      index := X.BuildIndex(checks);
      var stopped;
      notes, stopped := Merge(index, to, staged, faults);
    }
  }
}
