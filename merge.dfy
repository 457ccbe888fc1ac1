/** The merge walk of run(): every non-directory entry staged under "ignore"
    is handed to copyFile for the target directory under its base name, unless
    an entry of that base name was found by the existence index, in which case
    it is skipped. copyFile then refuses the entries that are not regular
    files; the model has no link targets, so it refuses every symbolic link
    among them, where the program follows one that leads to a regular file. */
module Merge {
  import opened Wrappers
  import opened Paths
  import opened FileTree
  import opened Copy
  import opened ExistenceIndex

  /** What the walk reports for one staged file: skipped because the index
      already holds a file of the same base name, or copied to dst with
      copyFile's outcome. */
  datatype Note =
    | Skipped(path: string, existing: string)
    | Copied(path: string, dst: string, err: Option<CopyError>)

  /** The file system after the walk, one note per staged file in walk order,
      and whether the walk ended on an error. */
  datatype MergeResult = MergeResult(fs: Fs, notes: seq<Note>, stopped: bool)

  /** The walk callback on a non-directory entry: copy it to to/Base(p)
      unless its base name is indexed. */
  function MergeFile(fs: Fs, index: map<string, string>, to: string, p: string, f: CopyFaults): (r: (Fs, Note))
    requires Valid(fs)
    ensures Valid(r.0)
  {
    var b := Base(p);
    if b in index then (fs, Skipped(p, index[b]))
    else
      var c := CopyFile(fs, p, Join(to, b), f);
      (c.fs, Copied(p, Join(to, b), c.err))
  }

  /** filepath.Walk over the staged tree, as the sequence of what it hands the
      callback: directories are passed over, a walk error is returned by the
      callback and ends the walk, and a failed copy is only reported. faults[k]
      is the operating system's behaviour for the copy of events[k]. */
  function MergeWalk(fs: Fs, index: map<string, string>, to: string, events: seq<WalkEvent>, faults: seq<CopyFaults>): (r: MergeResult)
    requires Valid(fs) && |faults| == |events|
    ensures Valid(r.fs)
    decreases |events|
  {
    if events == [] then MergeResult(fs, [], false)
    else if events[0].WalkError? then MergeResult(fs, [], true)
    else if events[0].isDir then MergeWalk(fs, index, to, events[1..], faults[1..])
    else
      var s := MergeFile(fs, index, to, events[0].path, faults[0]);
      var rest := MergeWalk(s.0, index, to, events[1..], faults[1..]);
      rest.(notes := [s.1] + rest.notes)
  }

  /** The tail of run(): os.MkdirAll(to), then the walk. */
  function MergeAll(fs: Fs, index: map<string, string>, to: string, events: seq<WalkEvent>, faults: seq<CopyFaults>): MergeResult
    requires Valid(fs) && |faults| == |events|
  {
    MkdirAllFacts(fs, to);
    MergeWalk(MkdirAll(fs, to), index, to, events, faults)
  }

  // ---------------------------------------------------------------------------
  // Reference definitions

  /** The non-directory entries the walk reaches, in order, before its first
      error. */
  function StagedFiles(events: seq<WalkEvent>): seq<string>
    decreases |events|
  {
    if events == [] || events[0].WalkError? then []
    else (if events[0].isDir then [] else [events[0].path]) + StagedFiles(events[1..])
  }

  /** The destinations the merge may write: to/Base(p) for every staged file
      whose base name is not indexed. */
  function Targets(index: map<string, string>, to: string, files: seq<string>): set<string>
    decreases |files|
  {
    if files == [] then {}
    else (if Base(files[0]) in index then {} else {Join(to, Base(files[0]))}) + Targets(index, to, files[1..])
  }

  /** The note the callback writes for staged file p. */
  predicate NoteFor(index: map<string, string>, to: string, p: string, n: Note) {
    && n.path == p
    && (n.Skipped? <==> Base(p) in index)
    && (n.Skipped? ==> n.existing == index[Base(p)])
    && (n.Copied? ==> n.dst == Join(to, Base(p)))
  }

  predicate HasWalkError(events: seq<WalkEvent>) {
    exists k :: 0 <= k < |events| && events[k].WalkError?
  }

  // ---------------------------------------------------------------------------
  // Properties

  lemma MergeFileNote(fs: Fs, index: map<string, string>, to: string, p: string, f: CopyFaults)
    requires Valid(fs)
    ensures NoteFor(index, to, p, MergeFile(fs, index, to, p, f).1)
  {
  }

  lemma MergeWalkUnfold(fs: Fs, index: map<string, string>, to: string, events: seq<WalkEvent>, faults: seq<CopyFaults>)
    requires Valid(fs) && |faults| == |events|
    requires events != [] && events[0].Visit? && !events[0].isDir
    ensures var s := MergeFile(fs, index, to, events[0].path, faults[0]);
      var rest := MergeWalk(s.0, index, to, events[1..], faults[1..]);
      MergeWalk(fs, index, to, events, faults) == rest.(notes := [s.1] + rest.notes)
  {
  }

  lemma MergeAllUnfold(fs: Fs, index: map<string, string>, to: string, events: seq<WalkEvent>, faults: seq<CopyFaults>)
    requires Valid(fs) && |faults| == |events|
    ensures Valid(MkdirAll(fs, to))
    ensures MergeAll(fs, index, to, events, faults) == MergeWalk(MkdirAll(fs, to), index, to, events, faults)
  {
    MkdirAllFacts(fs, to);
  }

  /** One step of the walk seen from a loop that has already written notes:
      handling the first file and walking the rest gives the same result. */
  lemma MergeWalkStep(fs: Fs, index: map<string, string>, to: string, events: seq<WalkEvent>, faults: seq<CopyFaults>, notes: seq<Note>)
    requires Valid(fs) && |faults| == |events|
    requires events != [] && events[0].Visit? && !events[0].isDir
    ensures var s := MergeFile(fs, index, to, events[0].path, faults[0]);
      var w := MergeWalk(fs, index, to, events, faults);
      var w' := MergeWalk(s.0, index, to, events[1..], faults[1..]);
      MergeResult(w'.fs, (notes + [s.1]) + w'.notes, w'.stopped) == MergeResult(w.fs, notes + w.notes, w.stopped)
  {
    MergeWalkUnfold(fs, index, to, events, faults);
    var s := MergeFile(fs, index, to, events[0].path, faults[0]);
    var w' := MergeWalk(s.0, index, to, events[1..], faults[1..]);
    assert notes + ([s.1] + w'.notes) == (notes + [s.1]) + w'.notes;
  }

  lemma MergeWalkStopsAtError(fs: Fs, index: map<string, string>, to: string, events: seq<WalkEvent>, faults: seq<CopyFaults>)
    requires Valid(fs) && |faults| == |events|
    requires events != [] && events[0].WalkError?
    ensures MergeWalk(fs, index, to, events, faults) == MergeResult(fs, [], true)
  {
  }

  lemma MergeWalkSkipsDirectory(fs: Fs, index: map<string, string>, to: string, events: seq<WalkEvent>, faults: seq<CopyFaults>)
    requires Valid(fs) && |faults| == |events|
    requires events != [] && events[0].Visit? && events[0].isDir
    ensures MergeWalk(fs, index, to, events, faults) == MergeWalk(fs, index, to, events[1..], faults[1..])
  {
  }

  /** xs and ys have the same length and rel holds at every position. */
  predicate Pairwise<A, B>(rel: (A, B) -> bool, xs: seq<A>, ys: seq<B>)
    decreases |xs|
  {
    && |ys| == |xs|
    && (xs != [] ==> rel(xs[0], ys[0]) && Pairwise(rel, xs[1..], ys[1..]))
  }

  lemma {:induction false} PairwiseEach<A, B>(rel: (A, B) -> bool, xs: seq<A>, ys: seq<B>, k: nat)
    requires Pairwise(rel, xs, ys) && k < |xs|
    ensures rel(xs[k], ys[k])
    decreases k
  {
    if k > 0 {
      PairwiseEach(rel, xs[1..], ys[1..], k - 1);
      assert xs[1..][k - 1] == xs[k] && ys[1..][k - 1] == ys[k];
    }
  }

  /** One note per file, in order, each the note for its file. */
  predicate NotesFor(index: map<string, string>, to: string, files: seq<string>, notes: seq<Note>) {
    Pairwise((p, n) => NoteFor(index, to, p, n), files, notes)
  }

  lemma {:induction false} MergeWalkNotes(fs: Fs, index: map<string, string>, to: string, events: seq<WalkEvent>, faults: seq<CopyFaults>)
    requires Valid(fs) && |faults| == |events|
    ensures NotesFor(index, to, StagedFiles(events), MergeWalk(fs, index, to, events, faults).notes)
    decreases |events|
  {
    if events != [] && !events[0].WalkError? {
      if events[0].isDir {
        MergeWalkNotes(fs, index, to, events[1..], faults[1..]);
        MergeWalkSkipsDirectory(fs, index, to, events, faults);
        assert StagedFiles(events) == StagedFiles(events[1..]);
      } else {
        var p := events[0].path;
        var s := MergeFile(fs, index, to, p, faults[0]);
        MergeWalkNotes(s.0, index, to, events[1..], faults[1..]);
        var rest := MergeWalk(s.0, index, to, events[1..], faults[1..]);
        var files := StagedFiles(events[1..]);
        assert StagedFiles(events) == [p] + files;
        MergeWalkUnfold(fs, index, to, events, faults);
        MergeFileNote(fs, index, to, p, faults[0]);
        assert ([s.1] + rest.notes)[1..] == rest.notes;
        assert ([p] + files)[1..] == files;
      }
    }
  }

  /** A failed copy does not stop the walk: every staged file reached before
      the first walk error gets exactly one note, in order, skipped exactly
      when its base name is indexed and otherwise copied to to/Base(p). */
  lemma MergeVisitsEveryFile(fs: Fs, index: map<string, string>, to: string, events: seq<WalkEvent>, faults: seq<CopyFaults>)
    requires Valid(fs) && |faults| == |events|
    ensures var r := MergeWalk(fs, index, to, events, faults);
      && |r.notes| == |StagedFiles(events)|
      && (forall k :: 0 <= k < |r.notes| ==> NoteFor(index, to, StagedFiles(events)[k], r.notes[k]))
  {
    var r := MergeWalk(fs, index, to, events, faults);
    MergeWalkNotes(fs, index, to, events, faults);
    forall k | 0 <= k < |r.notes| ensures NoteFor(index, to, StagedFiles(events)[k], r.notes[k]) {
      PairwiseEach((p, n) => NoteFor(index, to, p, n), StagedFiles(events), r.notes, k);
    }
  }

  /** The walk reports stopping exactly when it met a walk error. */
  lemma {:induction false} MergeStopsOnWalkError(fs: Fs, index: map<string, string>, to: string, events: seq<WalkEvent>, faults: seq<CopyFaults>)
    requires Valid(fs) && |faults| == |events|
    ensures MergeWalk(fs, index, to, events, faults).stopped <==> HasWalkError(events)
    decreases |events|
  {
    if events != [] && !events[0].WalkError? {
      var next := if events[0].isDir then fs else MergeFile(fs, index, to, events[0].path, faults[0]).0;
      MergeStopsOnWalkError(next, index, to, events[1..], faults[1..]);
      assert MergeWalk(fs, index, to, events, faults).stopped == MergeWalk(next, index, to, events[1..], faults[1..]).stopped;
      if HasWalkError(events) {
        var k :| 0 <= k < |events| && events[k].WalkError?;
        assert events[1..][k - 1] == events[k];
      }
      if HasWalkError(events[1..]) {
        var k :| 0 <= k < |events[1..]| && events[1..][k].WalkError?;
        assert events[k + 1].WalkError?;
      }
    } else if events != [] {
      assert events[0].WalkError?;
    }
  }

  /** fs' extends fs by paths in t only, and changes the contents only of
      inodes that some path in t names in fs'. */
  predicate ChangedWithin(fs: Fs, fs': Fs, t: set<string>) {
    && Grows(fs, fs')
    && (forall q :: q in fs'.tree && q !in fs.tree ==> q in t)
    && (forall n :: n in fs.data && fs'.data[n] != fs.data[n] ==>
          exists q :: q in t && IsRegularAt(fs', q) && fs'.tree[q].ino == n)
  }

  lemma ChangedWithinTransitive(a: Fs, b: Fs, c: Fs, t1: set<string>, t2: set<string>)
    requires ChangedWithin(a, b, t1) && ChangedWithin(b, c, t2)
    ensures ChangedWithin(a, c, t1 + t2)
  {
    GrowsTransitive(a, b, c);
    forall n | n in a.data && c.data[n] != a.data[n]
      ensures exists q :: q in t1 + t2 && IsRegularAt(c, q) && c.tree[q].ino == n
    {
      if b.data[n] != a.data[n] {
        var q :| q in t1 && IsRegularAt(b, q) && b.tree[q].ino == n;
        assert IsRegularAt(c, q) && c.tree[q].ino == n;
      }
    }
  }

  /** One callback changes nothing when the base name is indexed and only
      to/Base(p) otherwise. */
  lemma MergeFileFrame(fs: Fs, index: map<string, string>, to: string, p: string, f: CopyFaults)
    requires Valid(fs)
    ensures ChangedWithin(fs, MergeFile(fs, index, to, p, f).0,
      if Base(p) in index then {} else {Join(to, Base(p))})
  {
    if Base(p) !in index {
      CopyFileFrame(fs, p, Join(to, Base(p)), f);
    }
  }

  /** The walk only adds the copies' destinations, rebinds nothing, and
      changes the contents only of inodes that a destination names
      afterwards. */
  lemma {:induction false} MergeWalkFrame(fs: Fs, index: map<string, string>, to: string, events: seq<WalkEvent>, faults: seq<CopyFaults>)
    requires Valid(fs) && |faults| == |events|
    ensures ChangedWithin(fs, MergeWalk(fs, index, to, events, faults).fs, Targets(index, to, StagedFiles(events)))
    decreases |events|
  {
    if events != [] && !events[0].WalkError? {
      var p := events[0].path;
      var files := StagedFiles(events[1..]);
      if events[0].isDir {
        MergeWalkFrame(fs, index, to, events[1..], faults[1..]);
        MergeWalkSkipsDirectory(fs, index, to, events, faults);
        assert StagedFiles(events) == files;
      } else {
        var s := MergeFile(fs, index, to, p, faults[0]);
        MergeFileFrame(fs, index, to, p, faults[0]);
        MergeWalkFrame(s.0, index, to, events[1..], faults[1..]);
        MergeWalkUnfold(fs, index, to, events, faults);
        ChangedWithinTransitive(fs, s.0, MergeWalk(s.0, index, to, events[1..], faults[1..]).fs,
          if Base(p) in index then {} else {Join(to, Base(p))}, Targets(index, to, files));
        assert StagedFiles(events) == [p] + files;
        assert ([p] + files)[1..] == files;
      }
    } else {
      assert MergeWalk(fs, index, to, events, faults).fs == fs;
    }
  }

  /** A staged file whose base name is indexed is never copied: when base
      names are proper names, no destination of the merge is to/b for an
      indexed b. */
  lemma {:induction false} IndexedNamesAreNotTargets(index: map<string, string>, to: string, files: seq<string>, b: string)
    requires b in index && ProperName(b)
    requires forall k :: 0 <= k < |files| ==> ProperName(Base(files[k]))
    ensures Join(to, b) !in Targets(index, to, files)
    decreases |files|
  {
    if files != [] {
      if Base(files[0]) !in index {
        JoinChildInjective(to, b, Base(files[0]));
      }
      IndexedNamesAreNotTargets(index, to, files[1..], b);
    }
  }

  /** The merge as a whole: it adds directories along the target path and the
      copies' destinations, each of them to/Base(p) for a staged file p whose
      base name is not indexed; nothing existing is rebound; only contents
      reachable from a destination change; and to/b for an indexed b keeps
      its old node, or does not become a file. */
  lemma MergeConfined(fs: Fs, index: map<string, string>, to: string, events: seq<WalkEvent>, faults: seq<CopyFaults>)
    requires Valid(fs) && |faults| == |events|
    ensures var r := MergeAll(fs, index, to, events, faults);
      var t := Targets(index, to, StagedFiles(events));
      && Grows(fs, r.fs)
      && (forall q :: q in r.fs.tree && q !in fs.tree ==>
            q in t || (r.fs.tree[q] == Directory &&
              exists k :: 0 < k <= |CleanSegs(to)| && q == Render(Rooted(to), CleanSegs(to)[..k])))
      && (forall n :: n in fs.data && r.fs.data[n] != fs.data[n] ==>
            exists q :: q in t && IsRegularAt(r.fs, q) && r.fs.tree[q].ino == n)
  {
    var fs0 := MkdirAll(fs, to);
    MkdirAllFacts(fs, to);
    MergeWalkFrame(fs0, index, to, events, faults);
    GrowsTransitive(fs, fs0, MergeAll(fs, index, to, events, faults).fs);
  }

  /** An indexed base name is skipped: to/b keeps whatever node it had, and
      if it was absent no file is created there. */
  lemma MergeSkipsIndexed(fs: Fs, index: map<string, string>, to: string, events: seq<WalkEvent>, faults: seq<CopyFaults>, b: string)
    requires Valid(fs) && |faults| == |events|
    requires b in index && ProperName(b)
    requires forall k :: 0 <= k < |StagedFiles(events)| ==> ProperName(Base(StagedFiles(events)[k]))
    ensures var r := MergeAll(fs, index, to, events, faults);
      && (Join(to, b) in fs.tree ==> Join(to, b) in r.fs.tree && r.fs.tree[Join(to, b)] == fs.tree[Join(to, b)])
      && (Join(to, b) !in fs.tree ==> !IsRegularAt(r.fs, Join(to, b)))
  {
    MergeConfined(fs, index, to, events, faults);
    IndexedNamesAreNotTargets(index, to, StagedFiles(events), b);
  }

  /** Staged files sharing a base name are not kept apart: when the first is
      linked into to/b and the second is then copied without fault, the copy
      truncates and rewrites the inode the link shares, so both to/b and the
      first staged file end up holding the second file's bytes. */
  lemma CollidingStagedFilesRewriteFirst(fs: Fs, index: map<string, string>, to: string,
                                         p1: string, p2: string, a1: string, a2: string, f1: CopyFaults, f2: CopyFaults)
    requires Valid(fs) && IsRegularAt(fs, p1) && IsRegularAt(fs, p2) && fs.tree[p1].ino != fs.tree[p2].ino
    requires Base(p1) == Base(p2) && Base(p1) !in index
    requires CanLink(fs, p1, Join(to, Base(p1))) && !f1.link && !f1.statDst
    requires !f2.openSrc && !f2.createDst && f2.writeStopsAt.None? && !f2.sync && !f2.close
    ensures var r := MergeWalk(fs, index, to, [Visit(p1, false, a1), Visit(p2, false, a2)], [f1, f2]);
      var dst := Join(to, Base(p1));
      && r.notes == [Copied(p1, dst, None), Copied(p2, dst, None)]
      && IsRegularAt(r.fs, dst) && Content(r.fs, dst) == Content(fs, p2)
      && IsRegularAt(r.fs, p1) && Content(r.fs, p1) == Content(fs, p2)
  {
    var dst := Join(to, Base(p1));
    var events := [Visit(p1, false, a1), Visit(p2, false, a2)];
    var faults := [f1, f2];
    LinkFacts(fs, p1, dst);
    var fs1 := Link(fs, p1, dst);
    assert CopyFile(fs, p1, dst, f1) == CopyResult(fs1, None);
    assert MergeFile(fs, index, to, p1, f1) == (fs1, Copied(p1, dst, None));
    assert !CanLink(fs1, p2, dst);
    assert CopyFile(fs1, p2, dst, f2) == CopyContents(fs1, p2, dst, f2);
    var c := CopyContents(fs1, p2, dst, f2);
    CreateTruncFacts(fs1, dst);
    assert c.err == None;
    CopyContentsOutcome(fs1, p2, dst, f2);
    CopyContentsFrame(fs1, p2, dst, f2);
    assert c.fs.tree[p1] == fs1.tree[p1] == fs1.tree[dst] == c.fs.tree[dst];
    MergeWalkUnfold(fs, index, to, events, faults);
    assert events[1..] == [Visit(p2, false, a2)] && faults[1..] == [f2];
    MergeWalkUnfold(fs1, index, to, events[1..], faults[1..]);
    assert MergeWalk(c.fs, index, to, events[1..][1..], faults[1..][1..]) == MergeResult(c.fs, [], false);
  }
  // ---------------------------------------------------------------------------
  // What the copies leave behind

  /** No walk error, one event at a time. */
  predicate ErrorFree(events: seq<WalkEvent>)
    decreases |events|
  {
    events == [] || (!events[0].WalkError? && ErrorFree(events[1..]))
  }

  lemma {:induction false} ErrorFreeOf(events: seq<WalkEvent>)
    requires !HasWalkError(events)
    ensures ErrorFree(events)
    decreases |events|
  {
    if events != [] {
      assert !events[0].WalkError?;
      assert !HasWalkError(events[1..]) by {
        forall k | 0 <= k < |events[1..]| ensures !events[1..][k].WalkError? {
          assert events[1..][k] == events[k + 1];
        }
      }
      ErrorFreeOf(events[1..]);
    }
  }

  /** The walk over pre and then, separately, over rest from where it left the
      file system: the notes of both, in order. */
  function WalkInTwo(fs: Fs, index: map<string, string>, to: string,
                     pre: seq<WalkEvent>, rest: seq<WalkEvent>,
                     fpre: seq<CopyFaults>, frest: seq<CopyFaults>): (r: MergeResult)
    requires Valid(fs) && |fpre| == |pre| && |frest| == |rest|
    ensures Valid(r.fs)
  {
    var w := MergeWalk(fs, index, to, pre, fpre);
    var v := MergeWalk(w.fs, index, to, rest, frest);
    MergeResult(v.fs, w.notes + v.notes, v.stopped)
  }

  /** The walk over a stretch without walk errors, then over the rest, is the
      walk over both: the notes are concatenated in order. */
  lemma MergeWalkAppend(fs: Fs, index: map<string, string>, to: string,
                        pre: seq<WalkEvent>, rest: seq<WalkEvent>,
                        fpre: seq<CopyFaults>, frest: seq<CopyFaults>)
    requires Valid(fs) && |fpre| == |pre| && |frest| == |rest| && !HasWalkError(pre)
    ensures var w := MergeWalk(fs, index, to, pre, fpre);
      var v := MergeWalk(w.fs, index, to, rest, frest);
      MergeWalk(fs, index, to, pre + rest, fpre + frest) == MergeResult(v.fs, w.notes + v.notes, v.stopped)
  {
    ErrorFreeOf(pre);
    ErrorFreeWalkAppend(fs, index, to, pre, rest, fpre, frest);
  }

  lemma {:induction false} ErrorFreeWalkAppend(fs: Fs, index: map<string, string>, to: string,
                                               pre: seq<WalkEvent>, rest: seq<WalkEvent>,
                                               fpre: seq<CopyFaults>, frest: seq<CopyFaults>)
    requires Valid(fs) && |fpre| == |pre| && |frest| == |rest| && ErrorFree(pre)
    ensures MergeWalk(fs, index, to, pre + rest, fpre + frest) == WalkInTwo(fs, index, to, pre, rest, fpre, frest)
    decreases |pre|
  {
    if pre == [] {
      assert pre + rest == rest && fpre + frest == frest;
    } else {
      var events, faults := pre + rest, fpre + frest;
      assert events[1..] == pre[1..] + rest && faults[1..] == fpre[1..] + frest;
      if pre[0].isDir {
        ErrorFreeWalkAppend(fs, index, to, pre[1..], rest, fpre[1..], frest);
      } else {
        var s := MergeFile(fs, index, to, pre[0].path, fpre[0]);
        ErrorFreeWalkAppend(s.0, index, to, pre[1..], rest, fpre[1..], frest);
        var w' := MergeWalk(s.0, index, to, pre[1..], fpre[1..]);
        var v := MergeWalk(w'.fs, index, to, rest, frest);
        assert [s.1] + (w'.notes + v.notes) == ([s.1] + w'.notes) + v.notes;
      }
    }
  }

  /** The paths the merge of some staged files reads or writes: the files
      themselves and the destinations of those whose base name is not
      indexed. */
  function Touched(index: map<string, string>, to: string, files: seq<string>): set<string>
    decreases |files|
  {
    if files == [] then {}
    else
      var here := if Base(files[0]) in index then {files[0]} else {files[0], Join(to, Base(files[0]))};
      here + Touched(index, to, files[1..])
  }

  /** No path of xs names inode n. */
  predicate Avoids(fs: Fs, n: nat, xs: set<string>) {
    forall x :: x in xs && x in fs.tree ==> fs.tree[x] != Regular(n)
  }

  /** x and y are two names of one regular file. */
  predicate SharesInode(fs: Fs, x: string, y: string) {
    IsRegularAt(fs, x) && IsRegularAt(fs, y) && fs.tree[x].ino == fs.tree[y].ino
  }

  /** One callback on files[0] leaves inode n alone when no path it reads or
      writes names n, and the paths of the later files still do not name n. */
  lemma MergeFileKeepsInode(fs: Fs, index: map<string, string>, to: string, files: seq<string>,
                            f: CopyFaults, dst: string, n: nat)
    requires Valid(fs) && files != []
    requires dst in fs.tree && fs.tree[dst] == Regular(n)
    requires Avoids(fs, n, Touched(index, to, files))
    ensures var r := MergeFile(fs, index, to, files[0], f).0;
      && dst in r.tree && r.tree[dst] == Regular(n) && n in r.data && r.data[n] == fs.data[n]
      && Avoids(r, n, Touched(index, to, files[1..]))
  {
    var q := files[0];
    if Base(q) !in index {
      var t := Join(to, Base(q));
      var r := MergeFile(fs, index, to, q, f).0;
      assert t in Touched(index, to, files) && q in Touched(index, to, files);
      CopyFileFrame(fs, q, t, f);
      if t !in fs.tree {
        CopyFileNewNode(fs, q, t, f);
      }
      assert t in r.tree ==> r.tree[t] != Regular(n);
    }
  }

  /** The rest of the walk leaves a file alone when none of the paths it
      reads or writes names that file's inode: dst keeps its node and the
      inode keeps its bytes. */
  lemma {:induction false} LaterWalkKeepsInode(fs: Fs, index: map<string, string>, to: string,
                                               events: seq<WalkEvent>, faults: seq<CopyFaults>, dst: string, n: nat)
    requires Valid(fs) && |faults| == |events|
    requires dst in fs.tree && fs.tree[dst] == Regular(n)
    requires Avoids(fs, n, Touched(index, to, StagedFiles(events)))
    ensures var r := MergeWalk(fs, index, to, events, faults).fs;
      dst in r.tree && r.tree[dst] == Regular(n) && n in fs.data && n in r.data && r.data[n] == fs.data[n]
    decreases |events|
  {
    if events == [] {
    } else if events[0].WalkError? {
      MergeWalkStopsAtError(fs, index, to, events, faults);
    } else if events[0].isDir {
      MergeWalkSkipsDirectory(fs, index, to, events, faults);
      assert StagedFiles(events) == StagedFiles(events[1..]);
      LaterWalkKeepsInode(fs, index, to, events[1..], faults[1..], dst, n);
    } else {
      var q := events[0].path;
      var files := StagedFiles(events);
      assert files == [q] + StagedFiles(events[1..]);
      assert files[1..] == StagedFiles(events[1..]);
      var s := MergeFile(fs, index, to, q, faults[0]);
      MergeWalkUnfold(fs, index, to, events, faults);
      MergeFileKeepsInode(fs, index, to, files, faults[0], dst, n);
      LaterWalkKeepsInode(s.0, index, to, events[1..], faults[1..], dst, n);
    }
  }

  /** The walk that reaches staged file p after the events pre: its note for p
      is note number |StagedFiles(pre)|, written by the callback on the state
      mid that pre left, and the rest of the walk starts from the state that
      callback left. */
  lemma MergeWalkAround(fs: Fs, index: map<string, string>, to: string,
                        pre: seq<WalkEvent>, p: string, a: string, post: seq<WalkEvent>,
                        fpre: seq<CopyFaults>, f: CopyFaults, fpost: seq<CopyFaults>)
    requires Valid(fs) && |fpre| == |pre| && |fpost| == |post| && !HasWalkError(pre)
    ensures var r := MergeWalk(fs, index, to, pre + [Visit(p, false, a)] + post, fpre + [f] + fpost);
      var s := MergeFile(MergeWalk(fs, index, to, pre, fpre).fs, index, to, p, f);
      var k := |StagedFiles(pre)|;
      && k < |r.notes| && r.notes[k] == s.1
      && r.fs == MergeWalk(s.0, index, to, post, fpost).fs
  {
    var tail, ftail := [Visit(p, false, a)] + post, [f] + fpost;
    assert pre + [Visit(p, false, a)] + post == pre + tail;
    assert fpre + [f] + fpost == fpre + ftail;
    MergeWalkAppend(fs, index, to, pre, tail, fpre, ftail);
    var w := MergeWalk(fs, index, to, pre, fpre);
    MergeVisitsEveryFile(fs, index, to, pre, fpre);
    MergeWalkUnfold(w.fs, index, to, tail, ftail);
    assert tail[1..] == post && ftail[1..] == fpost;
    var s := MergeFile(w.fs, index, to, p, f);
    var v := MergeWalk(s.0, index, to, post, fpost);
    assert (w.notes + ([s.1] + v.notes))[|w.notes|] == s.1;
  }

  /** After a successful copy of p to dst on mid, no path that is neither dst
      nor another name of p or of dst in mid names dst's inode. */
  lemma CopyLeavesOthersApart(mid: Fs, p: string, dst: string, f: CopyFaults, xs: set<string>)
    requires Valid(mid) && CopyFile(mid, p, dst, f).err == None
    requires forall x :: x in xs ==> x != dst && !SharesInode(mid, x, p) && !SharesInode(mid, x, dst)
    ensures var c := CopyFile(mid, p, dst, f);
      IsRegularAt(mid, p) && IsRegularAt(c.fs, dst) && Content(c.fs, dst) == Content(mid, p)
      && Avoids(c.fs, c.fs.tree[dst].ino, xs)
  {
    var c := CopyFile(mid, p, dst, f);
    CopyFileSuccess(mid, p, dst, f);
    CopyFileFrame(mid, p, dst, f);
    var n := c.fs.tree[dst].ino;
    if dst !in mid.tree {
      CopyFileNewNode(mid, p, dst, f);
    }
    forall x | x in xs && x in c.fs.tree
      ensures c.fs.tree[x] != Regular(n)
    {
      assert x in mid.tree && c.fs.tree[x] == mid.tree[x];
    }
  }

  /** Copy correctness, lifted to the walk. Staged file p is reached after the
      events pre, where the file system is mid; its note is note number
      |StagedFiles(pre)|. When that note reports a successful copy to
      dst = to/Base(p), and no later staged file or destination is dst or
      another name of the file p or dst named in mid, then after the whole
      walk dst is a regular file holding exactly the bytes p held when it was
      copied. */
  lemma MergeCopyLands(fs: Fs, index: map<string, string>, to: string,
                       pre: seq<WalkEvent>, p: string, a: string, post: seq<WalkEvent>,
                       fpre: seq<CopyFaults>, f: CopyFaults, fpost: seq<CopyFaults>)
    requires Valid(fs) && |fpre| == |pre| && |fpost| == |post| && !HasWalkError(pre)
    requires var mid := MergeWalk(fs, index, to, pre, fpre).fs; var dst := Join(to, Base(p));
      forall x :: x in Touched(index, to, StagedFiles(post)) ==>
        x != dst && !SharesInode(mid, x, p) && !SharesInode(mid, x, dst)
    ensures var r := MergeWalk(fs, index, to, pre + [Visit(p, false, a)] + post, fpre + [f] + fpost);
      var mid := MergeWalk(fs, index, to, pre, fpre).fs; var dst := Join(to, Base(p));
      var k := |StagedFiles(pre)|;
      && k < |r.notes| && NoteFor(index, to, p, r.notes[k])
      && (r.notes[k] == Copied(p, dst, None) ==>
            IsRegularAt(mid, p) && IsRegularAt(r.fs, dst) && Content(r.fs, dst) == Content(mid, p))
  {
    var mid := MergeWalk(fs, index, to, pre, fpre).fs;
    var dst := Join(to, Base(p));
    MergeWalkAround(fs, index, to, pre, p, a, post, fpre, f, fpost);
    MergeFileNote(mid, index, to, p, f);
    var s := MergeFile(mid, index, to, p, f);
    if s.1 == Copied(p, dst, None) {
      CopyLeavesOthersApart(mid, p, dst, f, Touched(index, to, StagedFiles(post)));
      LaterWalkKeepsInode(s.0, index, to, post, fpost, dst, s.0.tree[dst].ino);
    }
  }

  /** The target to/b of a proper name b is not one of the directories
      MkdirAll(to) makes, nor "." or "/". */
  lemma TargetBelowTo(to: string, b: string, k: nat)
    requires ProperName(b) && 0 < k <= |CleanSegs(to)|
    ensures var dst := Join(to, b);
      dst != Render(Rooted(to), CleanSegs(to)[..k]) && dst != "." && dst != "/"
  {
    var d := CleanSegs(to);
    JoinChild(to, b);
    CleanSegsClean(to);
    assert CleanStack(d + [b], Rooted(to));
    RenderSegs(Rooted(to), d + [b]);
    PrefixClean(d, Rooted(to), k);
    RenderSegs(Rooted(to), d[..k]);
    if Join(to, b) == "." || Join(to, b) == "/" {
      RenderDegenerate(Rooted(to), d + [b]);
    }
  }

  /** After MkdirAll(to), on a target path no file blocks, a staged file can
      be linked to a to/b that did not exist. */
  lemma FreshTargetLinkable(fs: Fs, to: string, p: string)
    requires Valid(fs) && IsRegularAt(fs, p) && ProperName(Base(p))
    requires Join(to, Base(p)) !in fs.tree
    requires forall k :: 0 < k <= |CleanSegs(to)| ==>
      IsDirectoryAt(fs, Render(Rooted(to), CleanSegs(to)[..k])) || Render(Rooted(to), CleanSegs(to)[..k]) !in fs.tree
    ensures Valid(MkdirAll(fs, to)) && CanLink(MkdirAll(fs, to), p, Join(to, Base(p)))
    ensures Content(MkdirAll(fs, to), p) == Content(fs, p)
  {
    var b := Base(p);
    var dst := Join(to, b);
    var d := CleanSegs(to);
    var m := MkdirAll(fs, to);
    MkdirAllFacts(fs, to);
    MkdirAllCompletes(fs, to);
    JoinChild(to, b);
    if dst in m.tree {
      var k :| 0 < k <= |d| && dst == Render(Rooted(to), d[..k]);
      TargetBelowTo(to, b, k);
    }
    if d != [] {
      TargetBelowTo(to, b, |d|);
      assert d[..|d|] == d;
    }
  }

  /** A walk of one staged file that nothing indexes and that can be linked
      without fault: the file is linked to to/Base(p). */
  lemma SingleFileLinked(m: Fs, to: string, p: string, a: string, f: CopyFaults)
    requires Valid(m) && CanLink(m, p, Join(to, Base(p)))
    requires f == CopyFaults(false, false, false, false, None, false, false)
    ensures var dst := Join(to, Base(p));
      MergeWalk(m, map[], to, [Visit(p, false, a)], [f]) == MergeResult(Link(m, p, dst), [Copied(p, dst, None)], false)
  {
    var dst := Join(to, Base(p));
    assert CopyFile(m, p, dst, f) == CopyResult(Link(m, p, dst), None);
    assert MergeFile(m, map[], to, p, f) == (Link(m, p, dst), Copied(p, dst, None));
    MergeWalkUnfold(m, map[], to, [Visit(p, false, a)], [f]);
    assert [Visit(p, false, a)][1..] == [] && [f][1..] == [];
  }

  /** The scenario of a new plugin: with nothing indexed and no fault, a
      staged file whose destination to/b does not exist yet, under a target
      path that no file blocks, is linked there, and to/b then holds exactly
      its bytes. */
  lemma NewFileIsInstalled(fs: Fs, to: string, p: string, a: string, f: CopyFaults)
    requires Valid(fs) && IsRegularAt(fs, p) && ProperName(Base(p))
    requires f == CopyFaults(false, false, false, false, None, false, false)
    requires Join(to, Base(p)) !in fs.tree
    requires forall k :: 0 < k <= |CleanSegs(to)| ==>
      IsDirectoryAt(fs, Render(Rooted(to), CleanSegs(to)[..k])) || Render(Rooted(to), CleanSegs(to)[..k]) !in fs.tree
    ensures var r := MergeAll(fs, map[], to, [Visit(p, false, a)], [f]);
      var dst := Join(to, Base(p));
      && r.notes == [Copied(p, dst, None)] && !r.stopped
      && IsRegularAt(r.fs, dst) && Content(r.fs, dst) == Content(fs, p)
  {
    var m := MkdirAll(fs, to);
    FreshTargetLinkable(fs, to, p);
    LinkFacts(m, p, Join(to, Base(p)));
    MergeAllUnfold(fs, map[], to, [Visit(p, false, a)], [f]);
    SingleFileLinked(m, to, p, a, f);
  }

  /** The walk over staged files whose base names are all indexed copies
      nothing: the file system is left as it was, and every note is a skip. */
  lemma {:induction false} MergeWalkAllIndexed(fs: Fs, index: map<string, string>, to: string,
                                               events: seq<WalkEvent>, faults: seq<CopyFaults>)
    requires Valid(fs) && |faults| == |events|
    requires forall k :: 0 <= k < |StagedFiles(events)| ==> Base(StagedFiles(events)[k]) in index
    ensures MergeWalk(fs, index, to, events, faults).fs == fs
    decreases |events|
  {
    if events == [] {
    } else if events[0].WalkError? {
      MergeWalkStopsAtError(fs, index, to, events, faults);
    } else {
      var files := StagedFiles(events);
      var rest := StagedFiles(events[1..]);
      if events[0].isDir {
        MergeWalkSkipsDirectory(fs, index, to, events, faults);
        assert files == rest;
      } else {
        assert files == [events[0].path] + rest;
        assert Base(files[0]) in index;
        forall k | 0 <= k < |rest| ensures Base(rest[k]) in index {
          assert rest[k] == files[k + 1];
        }
        MergeWalkUnfold(fs, index, to, events, faults);
      }
      MergeWalkAllIndexed(fs, index, to, events[1..], faults[1..]);
    }
  }

  /** When every staged base name is already indexed, for instance when the
      same archive is merged a second time with the target among the paths to
      check, the merge changes nothing beyond making the target directory,
      and it skips every staged file in order, naming the indexed file. */
  lemma MergeOfIndexedChangesNothing(fs: Fs, index: map<string, string>, to: string,
                                     events: seq<WalkEvent>, faults: seq<CopyFaults>)
    requires Valid(fs) && |faults| == |events|
    requires forall k :: 0 <= k < |StagedFiles(events)| ==> Base(StagedFiles(events)[k]) in index
    ensures var r := MergeAll(fs, index, to, events, faults); var files := StagedFiles(events);
      && r.fs == MkdirAll(fs, to)
      && |r.notes| == |files|
      && forall k :: 0 <= k < |files| ==> r.notes[k] == Skipped(files[k], index[Base(files[k])])
  {
    MergeAllUnfold(fs, index, to, events, faults);
    MergeWalkAllIndexed(MkdirAll(fs, to), index, to, events, faults);
    MergeVisitsEveryFile(MkdirAll(fs, to), index, to, events, faults);
  }
}
