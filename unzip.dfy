/** unzip(src, dest) and its extractAndWriteFile closure, over an archive that
    is already decoded into its entries. */
module Unzip {
  import opened Wrappers
  import opened Paths
  import opened FileTree

  /** What reading an entry gives: all its bytes, a failure of f.Open(), or a
      stream that fails after the bytes given (a corrupt or truncated entry). */
  datatype Body = Intact(bytes: seq<byte>) | Unopenable | Broken(readable: seq<byte>)

  datatype ZipEntry = ZipEntry(name: string, isDir: bool, body: Body)

  datatype ExtractError = OpenEntry | IllegalPath(path: string) | CreateFile | ReadEntry

  datatype EntryResult = EntryResult(fs: Fs, err: Option<ExtractError>)

  datatype Failure = Failure(index: nat, err: ExtractError)

  datatype UnzipResult = UnzipResult(fs: Fs, failure: Option<Failure>)

  /** An entry that opens and whose joined path passes the guard. */
  predicate Accepted(dest: string, e: ZipEntry) {
    !e.body.Unopenable? && PassesZipSlipGuard(dest, e.name)
  }

  /** The file branch: make the parent directories, create or truncate the
      file, then copy the entry's stream into it. */
  function WriteEntryFile(fs: Fs, path: string, body: Body): (r: EntryResult)
    requires !body.Unopenable?
  {
    var fs1 := MkdirAll(fs, Dir(path));
    match CreateTrunc(fs1, path)
    case OpenFailed => EntryResult(fs1, Some(CreateFile))
    case Opened(fs2, ino) =>
      match body
      case Intact(bytes) => EntryResult(Append(fs2, ino, bytes), None)
      case Broken(bytes) => EntryResult(Append(fs2, ino, bytes), Some(ReadEntry))
  }

  /** extractAndWriteFile: open the entry, join and check its path, then make
      the directory, or make the parent directories and write the file. */
  function ExtractAndWrite(fs: Fs, dest: string, e: ZipEntry): EntryResult {
    if e.body.Unopenable? then EntryResult(fs, Some(OpenEntry))
    else if !PassesZipSlipGuard(dest, e.name) then EntryResult(fs, Some(IllegalPath(Join(dest, e.name))))
    else if e.isDir then EntryResult(MkdirAll(fs, Join(dest, e.name)), None)
    else WriteEntryFile(fs, Join(dest, e.name), e.body)
  }

  /** The loop of unzip over the entries from index i on, for a per-entry
      step: the first error ends it, and what was written stays. */
  function Run(step: (Fs, ZipEntry) -> EntryResult, fs: Fs, entries: seq<ZipEntry>, i: nat): (r: UnzipResult)
    requires i <= |entries|
    ensures r.failure.Some? ==> i <= r.failure.value.index < |entries|
    decreases |entries| - i
  {
    if i == |entries| then UnzipResult(fs, None)
    else
      var s := step(fs, entries[i]);
      if s.err.Some? then UnzipResult(s.fs, Some(Failure(i, s.err.value)))
      else Run(step, s.fs, entries, i + 1)
  }

  /** The step unzip runs: extractAndWriteFile with dest fixed. */
  function ExtractStep(dest: string): (Fs, ZipEntry) -> EntryResult {
    (fs, e) => ExtractAndWrite(fs, dest, e)
  }

  function ExtractFrom(fs: Fs, dest: string, entries: seq<ZipEntry>, i: nat): UnzipResult
    requires i <= |entries|
  {
    Run(ExtractStep(dest), fs, entries, i)
  }

  /** unzip: make dest (its error ignored), then extract every entry in order. */
  function UnzipAll(fs: Fs, dest: string, entries: seq<ZipEntry>): UnzipResult {
    ExtractFrom(MkdirAll(fs, dest), dest, entries, 0)
  }

  /** A clean path strictly inside dest: dest's segments, then proper names. */
  predicate InsideDest(dest: string, q: string) {
    var d := CleanSegs(dest);
    var s := CleanSegs(q);
    && q == Clean(q) && Rooted(q) == Rooted(dest)
    && |s| > |d| && s[..|d|] == d
    && forall i :: |d| <= i < |s| ==> ProperName(s[i])
  }

  /** dest itself or one of the directories above it, as MkdirAll makes them. */
  predicate AncestorOfDest(dest: string, q: string) {
    var d := CleanSegs(dest);
    var s := CleanSegs(q);
    q == Clean(q) && Rooted(q) == Rooted(dest) && 0 < |s| <= |d| && s == d[..|s|]
  }

  // ---------------------------------------------------------------------------
  // One entry

  /** A rejected entry writes nothing: an entry that cannot be opened, or whose
      joined path fails the guard, leaves the file system as it was. */
  lemma RejectedEntryWritesNothing(fs: Fs, dest: string, e: ZipEntry)
    requires Valid(fs)
    requires e.body.Unopenable? || !PassesZipSlipGuard(dest, e.name)
    ensures var r := ExtractAndWrite(fs, dest, e);
      r.fs == fs && r.err.Some? &&
      (!e.body.Unopenable? ==> r.err == Some(IllegalPath(Join(dest, e.name))))
  {
  }

  /** A file entry that is extracted without error leaves exactly its bytes at
      its joined path, whatever was there before (O_TRUNC), inside a parent
      directory that exists; a broken entry leaves the bytes read before the
      failure. */
  lemma ExtractedFileHoldsEntryBytes(fs: Fs, dest: string, e: ZipEntry)
    requires Valid(fs) && !e.isDir
    ensures var r := ExtractAndWrite(fs, dest, e); var path := Join(dest, e.name);
      Valid(r.fs) && ((r.err == None || r.err == Some(ReadEntry)) ==>
        && PassesZipSlipGuard(dest, e.name)
        && IsRegularAt(r.fs, path) && IsDirectoryAt(r.fs, Dir(path))
        && Content(r.fs, path) == (if e.body.Intact? then e.body.bytes else e.body.readable)
        && (r.err == None <==> e.body.Intact?))
  {
    var r := ExtractAndWrite(fs, dest, e);
    var path := Join(dest, e.name);
    ExtractPreserves(fs, dest, e);
    if (r.err == None || r.err == Some(ReadEntry)) {
      assert r == WriteEntryFile(fs, path, e.body);
      var fs1 := MkdirAll(fs, Dir(path));
      MkdirAllFacts(fs, Dir(path));
      var o := CreateTrunc(fs1, path);
      assert o.Opened?;
      CreateTruncFacts(fs1, path);
      AppendFacts(o.fs, o.ino, if e.body.Intact? then e.body.bytes else e.body.readable);
      assert IsDirectoryAt(fs1, Dir(path));
    }
  }

  /** A directory entry only makes directories: no contents change and every
      new path is a directory. */
  lemma DirectoryEntryOnlyMakesDirectories(fs: Fs, dest: string, e: ZipEntry)
    requires Valid(fs) && e.isDir
    ensures var r := ExtractAndWrite(fs, dest, e);
      && r.fs.data == fs.data
      && forall q :: q in r.fs.tree && q !in fs.tree ==> r.fs.tree[q] == Directory
  {
    MkdirAllFacts(fs, Join(dest, e.name));
  }

  /** The segments of an accepted entry's path, cut at any length, name dest,
      an ancestor of dest, or a path inside dest. */
  lemma PrefixPlacement(dest: string, r: seq<string>, k: nat)
    requires CleanStack(r, Rooted(dest))
    requires var d := CleanSegs(dest);
      |r| > |d| && r[..|d|] == d && forall i :: |d| <= i < |r| ==> ProperName(r[i])
    requires 0 < k <= |r|
    ensures var q := Render(Rooted(dest), r[..k]);
      InsideDest(dest, q) || AncestorOfDest(dest, q)
    ensures k > |CleanSegs(dest)| ==> InsideDest(dest, Render(Rooted(dest), r[..k]))
  {
    var d := CleanSegs(dest);
    var q := Render(Rooted(dest), r[..k]);
    PrefixClean(r, Rooted(dest), k);
    RenderSegs(Rooted(dest), r[..k]);
    assert CleanSegs(q) == r[..k];
    if k <= |d| {
      assert r[..k] == r[..|d|][..k] == d[..k];
    } else {
      assert r[..k][..|d|] == r[..|d|];
    }
  }

  /** The joined path of an accepted entry, in segments: dest's segments
      followed by at least one proper name. */
  lemma AcceptedPathSegments(dest: string, name: string)
    requires !OnlyParents(CleanSegs(dest)) && PassesZipSlipGuard(dest, name)
    ensures var path := Join(dest, name); var segs := JoinedSegs(dest, name); var d := CleanSegs(dest);
      && path == Render(Rooted(dest), segs)
      && CleanSegs(path) == segs && Rooted(path) == Rooted(dest)
      && CleanStack(segs, Rooted(dest))
      && |segs| > |d| && segs[..|d|] == d
      && (forall i :: |d| <= i < |segs| ==> ProperName(segs[i]))
  {
    GuardConfines(dest, name);
    JoinedSegsClean(dest, name);
    assert dest != "";
    JoinResolves(dest, name);
    RenderSegs(Rooted(dest), JoinedSegs(dest, name));
  }

  /** Confinement of one accepted directory entry. */
  lemma DirectoryEntryConfined(fs: Fs, dest: string, name: string)
    requires !OnlyParents(CleanSegs(dest)) && PassesZipSlipGuard(dest, name)
    ensures var r := MkdirAll(fs, Join(dest, name));
      forall q :: q in r.tree && q !in fs.tree ==> InsideDest(dest, q) || AncestorOfDest(dest, q)
  {
    var path := Join(dest, name);
    var segs := JoinedSegs(dest, name);
    AcceptedPathSegments(dest, name);
    var r := MkdirAll(fs, path);
    MkdirAllFacts(fs, path);
    forall q | q in r.tree && q !in fs.tree
      ensures InsideDest(dest, q) || AncestorOfDest(dest, q)
    {
      var k :| 0 < k <= |segs| && q == Render(Rooted(dest), segs[..k]);
      PrefixPlacement(dest, segs, k);
    }
  }

  /** Every directory MkdirAll makes on the way to an accepted file's parent
      lies inside dest or above it. */
  lemma ParentPlacement(dest: string, name: string)
    requires !OnlyParents(CleanSegs(dest)) && PassesZipSlipGuard(dest, name)
    ensures var d := Dir(Join(dest, name));
      forall k :: 0 < k <= |CleanSegs(d)| ==>
        var q := Render(Rooted(d), CleanSegs(d)[..k]);
        InsideDest(dest, q) || AncestorOfDest(dest, q)
  {
    var path := Join(dest, name);
    var segs := JoinedSegs(dest, name);
    var rooted := Rooted(dest);
    AcceptedPathSegments(dest, name);
    var parent := segs[..|segs| - 1];
    var b := segs[|segs| - 1];
    assert Dir(path) == Render(rooted, parent) by {
      assert segs == parent + [b];
      DirOfChild(rooted, parent, b);
    }
    PrefixClean(segs, rooted, |segs| - 1);
    RenderSegs(rooted, parent);
    ParentPrefixesPlaced(dest, segs, parent);
  }

  /** The proper prefixes of an accepted path's segments lie inside dest or
      above it. */
  lemma ParentPrefixesPlaced(dest: string, segs: seq<string>, parent: seq<string>)
    requires CleanStack(segs, Rooted(dest))
    requires var d := CleanSegs(dest);
      |segs| > |d| && segs[..|d|] == d && forall i :: |d| <= i < |segs| ==> ProperName(segs[i])
    requires parent == segs[..|segs| - 1]
    ensures forall k :: 0 < k <= |parent| ==>
      var q := Render(Rooted(dest), parent[..k]);
      InsideDest(dest, q) || AncestorOfDest(dest, q)
  {
    forall k | 0 < k <= |parent|
      ensures var q := Render(Rooted(dest), parent[..k]); InsideDest(dest, q) || AncestorOfDest(dest, q)
    {
      assert parent[..k] == segs[..k];
      PrefixPlacement(dest, segs, k);
    }
  }

  /** Confinement of one accepted file entry: its parents lie under dest or
      above it, the file itself inside dest. */
  lemma FileEntryConfined(fs: Fs, dest: string, name: string, body: Body)
    requires Valid(fs) && !body.Unopenable?
    requires !OnlyParents(CleanSegs(dest)) && PassesZipSlipGuard(dest, name)
    ensures var path := Join(dest, name); var r := WriteEntryFile(fs, path, body);
      && Grows(fs, r.fs)
      && InsideDest(dest, path)
      && (forall q :: q in r.fs.tree && q !in fs.tree ==> InsideDest(dest, q) || AncestorOfDest(dest, q))
      && (forall i :: i in fs.data && r.fs.data[i] != fs.data[i] ==>
            path in r.fs.tree && r.fs.tree[path] == Regular(i))
  {
    var path := Join(dest, name);
    WriteEntryFileFacts(fs, path, body);
    AcceptedPathSegments(dest, name);
    PrefixPlacement(dest, JoinedSegs(dest, name), |JoinedSegs(dest, name)|);
    ParentPlacement(dest, name);
  }

  /** The paths one entry adds and the contents it changes all lie under dest
      (new directories may also be dest's own ancestors). */
  lemma ExtractConfined(fs: Fs, dest: string, e: ZipEntry)
    requires Valid(fs) && !OnlyParents(CleanSegs(dest))
    ensures var r := ExtractAndWrite(fs, dest, e);
      && Grows(fs, r.fs)
      && (forall q :: q in r.fs.tree && q !in fs.tree ==> InsideDest(dest, q) || AncestorOfDest(dest, q))
      && (forall i :: i in fs.data && r.fs.data[i] != fs.data[i] ==>
            var path := Join(dest, e.name);
            path in r.fs.tree && r.fs.tree[path] == Regular(i) && InsideDest(dest, path))
  {
    ExtractPreserves(fs, dest, e);
    if Accepted(dest, e) {
      if e.isDir {
        DirectoryEntryConfined(fs, dest, e.name);
      } else {
        FileEntryConfined(fs, dest, e.name, e.body);
      }
    }
  }

  // ---------------------------------------------------------------------------
  // The loop

  /** One turn of the loop: extract entry i, then stop on its error or go on. */
  lemma ExtractFromUnfold(fs: Fs, dest: string, entries: seq<ZipEntry>, i: nat)
    requires i < |entries|
    ensures var step := ExtractAndWrite(fs, dest, entries[i]);
      ExtractFrom(fs, dest, entries, i) ==
        if step.err.Some? then UnzipResult(step.fs, Some(Failure(i, step.err.value)))
        else ExtractFrom(step.fs, dest, entries, i + 1)
  {
  }

  /** Running the loop on a prefix of the entries agrees with the full run
      as soon as either run fails inside the prefix. */
  lemma {:induction false} RunPrefixFails(step: (Fs, ZipEntry) -> EntryResult, fs: Fs, entries: seq<ZipEntry>, i: nat, n: nat)
    requires i <= n <= |entries|
    ensures var r := Run(step, fs, entries, i);
      var p := Run(step, fs, entries[..n], i);
      (r.failure.Some? && r.failure.value.index < n) || p.failure.Some? ==> p == r
    decreases n - i
  {
    if i < n {
      assert entries[..n][i] == entries[i];
      var s := step(fs, entries[i]);
      if s.err.None? {
        RunPrefixFails(step, s.fs, entries, i + 1, n);
      }
    }
  }

  /** When the loop gets through a prefix of the entries, the full run goes on
      from the state the prefix left. */
  lemma {:induction false} RunPrefixContinues(step: (Fs, ZipEntry) -> EntryResult, fs: Fs, entries: seq<ZipEntry>, i: nat, n: nat)
    requires i <= n <= |entries|
    ensures var p := Run(step, fs, entries[..n], i);
      p.failure.None? ==> Run(step, fs, entries, i) == Run(step, p.fs, entries, n)
    decreases n - i
  {
    if i < n {
      assert entries[..n][i] == entries[i];
      var s := step(fs, entries[i]);
      if s.err.None? {
        RunPrefixContinues(step, s.fs, entries, i + 1, n);
      }
    }
  }

  /** Extraction handles entries in archive order and stops at the first
      failing entry k: every entry before k was extracted, entry k's own effect
      (if any) stays in place with no rollback, and the entries after k are
      never looked at. */
  lemma UnzipStopsAtFirstFailure(fs: Fs, dest: string, entries: seq<ZipEntry>)
    ensures var r := UnzipAll(fs, dest, entries);
      r.failure.Some? ==>
        var k := r.failure.value.index;
        var before := UnzipAll(fs, dest, entries[..k]);
        && k < |entries|
        && before.failure == None
        && ExtractAndWrite(before.fs, dest, entries[k]) == EntryResult(r.fs, Some(r.failure.value.err))
        && UnzipAll(fs, dest, entries[..k + 1]) == r
  {
    var r := UnzipAll(fs, dest, entries);
    var fs0 := MkdirAll(fs, dest);
    if r.failure.Some? {
      var k := r.failure.value.index;
      var step := ExtractStep(dest);
      RunPrefixFails(step, fs0, entries, 0, k);
      RunPrefixContinues(step, fs0, entries, 0, k);
      RunPrefixFails(step, fs0, entries, 0, k + 1);
      var before := UnzipAll(fs, dest, entries[..k]);
      assert before.failure == None;
      RunPrefixFails(step, fs0, entries[..k + 1], 0, k);
      RunPrefixContinues(step, fs0, entries[..k + 1], 0, k);
      assert entries[..k + 1][..k] == entries[..k];
    }
  }

  /** An entry rejected by the guard aborts the whole extraction, and the file
      system is left as the earlier entries made it: nothing of the rejected
      entry is written. */
  lemma IllegalEntryAbortsWithoutWriting(fs: Fs, dest: string, entries: seq<ZipEntry>)
    ensures var r := UnzipAll(fs, dest, entries);
      r.failure.Some? && r.failure.value.err.IllegalPath? ==>
        var k := r.failure.value.index;
        && !PassesZipSlipGuard(dest, entries[k].name)
        && r.failure.value.err.path == Join(dest, entries[k].name)
        && r.fs == UnzipAll(fs, dest, entries[..k]).fs
  {
    UnzipStopsAtFirstFailure(fs, dest, entries);
  }

  /** An entry extracted without error was opened and passed the guard. */
  lemma ExtractedEntryWasAccepted(fs: Fs, dest: string, e: ZipEntry)
    ensures ExtractAndWrite(fs, dest, e).err.None? ==> Accepted(dest, e)
  {
  }

  /** Every entry of the list was opened and passed the guard. */
  predicate AllAccepted(dest: string, entries: seq<ZipEntry>)
    decreases |entries|
  {
    entries == [] || (Accepted(dest, entries[0]) && AllAccepted(dest, entries[1..]))
  }

  lemma {:induction false} AllAcceptedEach(dest: string, entries: seq<ZipEntry>)
    requires AllAccepted(dest, entries)
    ensures forall j :: 0 <= j < |entries| ==> Accepted(dest, entries[j])
    decreases |entries|
  {
    if entries != [] {
      AllAcceptedEach(dest, entries[1..]);
      forall j | 0 < j < |entries| ensures Accepted(dest, entries[j]) {
        assert entries[j] == entries[1..][j - 1];
      }
    }
  }

  /** A run without failure opened every entry and every entry passed the guard. */
  lemma {:induction false} ExtractFromAllAccepted(fs: Fs, dest: string, entries: seq<ZipEntry>, i: nat)
    requires i <= |entries|
    ensures ExtractFrom(fs, dest, entries, i).failure.None? ==> AllAccepted(dest, entries[i..])
    decreases |entries| - i
  {
    if i < |entries| {
      var step := ExtractAndWrite(fs, dest, entries[i]);
      ExtractFromUnfold(fs, dest, entries, i);
      if step.err.None? {
        ExtractedEntryWasAccepted(fs, dest, entries[i]);
        ExtractFromAllAccepted(step.fs, dest, entries, i + 1);
        assert entries[i..][1..] == entries[i + 1..];
      }
    }
  }

  lemma UnzipSuccessMeansAllAccepted(fs: Fs, dest: string, entries: seq<ZipEntry>)
    ensures UnzipAll(fs, dest, entries).failure.None? ==>
      forall j :: 0 <= j < |entries| ==> Accepted(dest, entries[j])
  {
    ExtractFromAllAccepted(MkdirAll(fs, dest), dest, entries, 0);
    if UnzipAll(fs, dest, entries).failure.None? {
      assert entries[0..] == entries;
      AllAcceptedEach(dest, entries);
    }
  }

  /** The file branch keeps the file system valid and only grows it: the new
      paths are the parent directories MkdirAll makes and the file itself, and
      only the file's inode gets new contents. */
  lemma WriteEntryFileFacts(fs: Fs, path: string, body: Body)
    requires Valid(fs) && !body.Unopenable?
    ensures var r := WriteEntryFile(fs, path, body); var d := Dir(path);
      && Valid(r.fs) && Grows(fs, r.fs)
      && (forall q :: q in r.fs.tree && q !in fs.tree ==>
            q == path || exists k :: 0 < k <= |CleanSegs(d)| && q == Render(Rooted(d), CleanSegs(d)[..k]))
      && (forall i :: i in fs.data && r.fs.data[i] != fs.data[i] ==>
            path in r.fs.tree && r.fs.tree[path] == Regular(i))
  {
    var fs1 := MkdirAll(fs, Dir(path));
    MkdirAllFacts(fs, Dir(path));
    var o := CreateTrunc(fs1, path);
    if o.Opened? {
      CreateTruncFacts(fs1, path);
      AppendFacts(o.fs, o.ino, if body.Intact? then body.bytes else body.readable);
      GrowsTransitive(fs, fs1, o.fs);
      GrowsTransitive(fs, o.fs, WriteEntryFile(fs, path, body).fs);
    }
  }

  /** One entry keeps the file system valid, never deletes or rebinds a path
      and never frees contents. */
  lemma ExtractPreserves(fs: Fs, dest: string, e: ZipEntry)
    requires Valid(fs)
    ensures var r := ExtractAndWrite(fs, dest, e); Valid(r.fs) && Grows(fs, r.fs)
  {
    if Accepted(dest, e) {
      if e.isDir {
        MkdirAllFacts(fs, Join(dest, e.name));
      } else {
        WriteEntryFileFacts(fs, Join(dest, e.name), e.body);
      }
    }
  }

  /** The loop keeps the file system valid, never deletes or rebinds a path
      and never frees contents. */
  lemma {:induction false} ExtractFromPreserves(fs: Fs, dest: string, entries: seq<ZipEntry>, i: nat)
    requires Valid(fs) && i <= |entries|
    ensures var r := ExtractFrom(fs, dest, entries, i); Valid(r.fs) && Grows(fs, r.fs)
    decreases |entries| - i
  {
    if i < |entries| {
      var step := ExtractAndWrite(fs, dest, entries[i]);
      ExtractFromUnfold(fs, dest, entries, i);
      ExtractPreserves(fs, dest, entries[i]);
      if step.err.None? {
        ExtractFromPreserves(step.fs, dest, entries, i + 1);
        GrowsTransitive(fs, step.fs, ExtractFrom(fs, dest, entries, i).fs);
      }
    }
  }

  /** Confinement of the loop, by induction over the entries. */
  lemma {:induction false} ExtractFromConfined(fs: Fs, dest: string, entries: seq<ZipEntry>, i: nat)
    requires Valid(fs) && i <= |entries| && !OnlyParents(CleanSegs(dest))
    ensures var r := ExtractFrom(fs, dest, entries, i);
      && Grows(fs, r.fs)
      && (forall q :: q in r.fs.tree && q !in fs.tree ==> InsideDest(dest, q) || AncestorOfDest(dest, q))
      && (forall n :: n in fs.data && r.fs.data[n] != fs.data[n] ==>
            exists q :: q in r.fs.tree && r.fs.tree[q] == Regular(n) && InsideDest(dest, q))
    decreases |entries| - i
  {
    ExtractFromPreserves(fs, dest, entries, i);
    if i < |entries| {
      var step := ExtractAndWrite(fs, dest, entries[i]);
      ExtractFromUnfold(fs, dest, entries, i);
      ExtractPreserves(fs, dest, entries[i]);
      ExtractConfined(fs, dest, entries[i]);
      if step.err.Some? {
        forall n | n in fs.data && step.fs.data[n] != fs.data[n]
          ensures exists q :: q in step.fs.tree && step.fs.tree[q] == Regular(n) && InsideDest(dest, q)
        {
          var path := Join(dest, entries[i].name);
          assert step.fs.tree[path] == Regular(n);
        }
      } else {
        var r := ExtractFrom(step.fs, dest, entries, i + 1);
        ExtractFromConfined(step.fs, dest, entries, i + 1);
        ExtractFromPreserves(step.fs, dest, entries, i + 1);
        forall n | n in fs.data && r.fs.data[n] != fs.data[n]
          ensures exists q :: q in r.fs.tree && r.fs.tree[q] == Regular(n) && InsideDest(dest, q)
        {
          if step.fs.data[n] != fs.data[n] {
            var path := Join(dest, entries[i].name);
            assert r.fs.tree[path] == step.fs.tree[path] == Regular(n);
          }
        }
      }
    }
  }

  /** Traversal safety of unzip: for a destination that is not made only of
      "..", every path the extraction adds lies inside dest or is one of dest's
      own ancestors, and every file whose contents change is reachable from a
      path inside dest. Existing paths are never rebound. */
  lemma UnzipConfined(fs: Fs, dest: string, entries: seq<ZipEntry>)
    requires Valid(fs) && !OnlyParents(CleanSegs(dest))
    ensures var r := UnzipAll(fs, dest, entries);
      && Grows(fs, r.fs)
      && (forall q :: q in r.fs.tree && q !in fs.tree ==> InsideDest(dest, q) || AncestorOfDest(dest, q))
      && (forall n :: n in fs.data && r.fs.data[n] != fs.data[n] ==>
            exists q :: q in r.fs.tree && r.fs.tree[q] == Regular(n) && InsideDest(dest, q))
  {
    var fs0 := MkdirAll(fs, dest);
    var d := CleanSegs(dest);
    MkdirAllFacts(fs, dest);
    CleanSegsClean(dest);
    forall q | q in fs0.tree && q !in fs.tree ensures AncestorOfDest(dest, q) {
      var k :| 0 < k <= |d| && q == Render(Rooted(dest), d[..k]);
      PrefixClean(d, Rooted(dest), k);
      RenderSegs(Rooted(dest), d[..k]);
    }
    ExtractFromConfined(fs0, dest, entries, 0);
    ExtractFromPreserves(fs0, dest, entries, 0);
    GrowsTransitive(fs, fs0, UnzipAll(fs, dest, entries).fs);
  }
}
