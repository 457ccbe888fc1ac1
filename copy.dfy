/** copyFile and copyFileContents: the decision chain that reproduces one staged
    file at its destination, by hard link when the system allows it and by a
    truncating content copy otherwise. */
module Copy {
  import opened Wrappers
  import opened FileTree

  /** The operating system's answers that the file map does not decide: a stat
      of the destination failing for a reason other than absence, a refused
      link (another device, no permission), failures to open or create, a write
      that stops after some bytes, and failing Sync or Close. */
  datatype CopyFaults = CopyFaults(
    statDst: bool, link: bool, openSrc: bool, createDst: bool,
    writeStopsAt: Option<nat>, sync: bool, close: bool)

  datatype CopyError =
    | StatSource | NonRegularSource | StatDestination | NonRegularDestination
    | OpenSource | CreateDestination | WriteFailed | SyncFailed | CloseFailed

  datatype CopyResult = CopyResult(fs: Fs, err: Option<CopyError>)

  /** Nothing changes but the destination: other paths keep their nodes, and
      only the inode that dst names afterwards may have new contents. */
  predicate OnlyDestinationChanged(fs: Fs, fs': Fs, dst: string) {
    && Valid(fs') && Grows(fs, fs')
    && (forall q :: q in fs'.tree && q != dst ==> q in fs.tree)
    && (forall i :: i in fs.data && !(IsRegularAt(fs', dst) && fs'.tree[dst].ino == i) ==>
          fs'.data[i] == fs.data[i])
  }

  /** The bytes a copy leaves behind: all of them, or the part written before
      the write failed. */
  function Written(bytes: seq<byte>, stop: Option<nat>): (w: seq<byte>)
    ensures w <= bytes
    ensures stop.None? ==> w == bytes
  {
    match stop
    case None => bytes
    case Some(n) => if n < |bytes| then bytes[..n] else bytes
  }

  /** copyFileContents(src, dst): open src, create or truncate dst, copy what
      src then holds, sync, and close dst; the error of Close is reported only
      when nothing failed before it. */
  function CopyContents(fs: Fs, src: string, dst: string, f: CopyFaults): (r: CopyResult)
    requires Valid(fs) && IsRegularAt(fs, src)
    ensures Valid(r.fs)
  {
    if f.openSrc then CopyResult(fs, Some(OpenSource))
    else if f.createDst then CopyResult(fs, Some(CreateDestination))
    else
      match CreateTrunc(fs, dst)
      case OpenFailed => CopyResult(fs, Some(CreateDestination))
      case Opened(fs1, ino) =>
        CreateTruncFacts(fs, dst);
        AppendFacts(fs1, ino, Written(fs1.data[fs.tree[src].ino], f.writeStopsAt));
        var fs2 := Append(fs1, ino, Written(fs1.data[fs.tree[src].ino], f.writeStopsAt));
        var err := if f.writeStopsAt.Some? then Some(WriteFailed) else if f.sync then Some(SyncFailed) else None;
        CopyResult(fs2, if err.None? && f.close then Some(CloseFailed) else err)
  }

  /** copyFileContents changes nothing but dst. */
  lemma CopyContentsFrame(fs: Fs, src: string, dst: string, f: CopyFaults)
    requires Valid(fs) && IsRegularAt(fs, src)
    ensures OnlyDestinationChanged(fs, CopyContents(fs, src, dst, f).fs, dst)
  {
    var o := CreateTrunc(fs, dst);
    if !f.openSrc && !f.createDst && o.Opened? {
      CreateTruncFacts(fs, dst);
      AppendFacts(o.fs, o.ino, Written(o.fs.data[fs.tree[src].ino], f.writeStopsAt));
      GrowsTransitive(fs, o.fs, CopyContents(fs, src, dst, f).fs);
    }
  }

  /** The outcomes of copyFileContents on two distinct files: a success leaves
      dst holding exactly the source's bytes; once dst is opened its old
      contents are gone and what it holds is a prefix of the source's bytes;
      Close's failure is reported exactly when nothing failed before; an
      error in opening either file changes nothing. */
  lemma CopyContentsOutcome(fs: Fs, src: string, dst: string, f: CopyFaults)
    requires Valid(fs) && IsRegularAt(fs, src)
    requires dst in fs.tree ==> fs.tree[dst] != fs.tree[src]
    ensures var r := CopyContents(fs, src, dst, f);
      && (r.err == None ==> IsRegularAt(r.fs, dst) && Content(r.fs, dst) == Content(fs, src))
      && (r.err == Some(CloseFailed) <==>
            !f.openSrc && !f.createDst && CreateTrunc(fs, dst).Opened? && f.writeStopsAt.None? && !f.sync && f.close)
      && (r.err !in {Some(OpenSource), Some(CreateDestination)} ==>
            IsRegularAt(r.fs, dst) && Content(r.fs, dst) <= Content(fs, src))
      && (r.err in {Some(OpenSource), Some(CreateDestination)} ==> r.fs == fs)
  {
    var o := CreateTrunc(fs, dst);
    if !f.openSrc && !f.createDst && o.Opened? {
      CreateTruncFacts(fs, dst);
      assert o.fs.tree[src] == fs.tree[src];
      AppendFacts(o.fs, o.ino, Written(o.fs.data[fs.tree[src].ino], f.writeStopsAt));
    }
  }

  /** copyFile(src, dst). */
  function CopyFile(fs: Fs, src: string, dst: string, f: CopyFaults): (r: CopyResult)
    requires Valid(fs)
    ensures Valid(r.fs)
  {
    if src !in fs.tree then CopyResult(fs, Some(StatSource))
    else if !fs.tree[src].Regular? then CopyResult(fs, Some(NonRegularSource))
    else if dst in fs.tree && !fs.tree[dst].Regular? then CopyResult(fs, Some(NonRegularDestination))
    else if dst in fs.tree && fs.tree[dst].ino == fs.tree[src].ino then CopyResult(fs, None)
    else if dst !in fs.tree && f.statDst then CopyResult(fs, Some(StatDestination))
    else if !f.link && CanLink(fs, src, dst) then LinkFacts(fs, src, dst); CopyResult(Link(fs, src, dst), None)
    else CopyContents(fs, src, dst, f)
  }

  /** copyFile changes nothing but dst: other paths keep their nodes and only
      the inode that dst names afterwards may have new contents. */
  lemma CopyFileFrame(fs: Fs, src: string, dst: string, f: CopyFaults)
    requires Valid(fs)
    ensures OnlyDestinationChanged(fs, CopyFile(fs, src, dst, f).fs, dst)
  {
    if IsRegularAt(fs, src) {
      if !f.link && CanLink(fs, src, dst) {
        LinkFacts(fs, src, dst);
      } else {
        CopyContentsFrame(fs, src, dst, f);
      }
    }
  }

  /** A destination that copyFile creates is a second name of the source's
      inode (the link) or a fresh inode (os.Create). */
  lemma CopyFileNewNode(fs: Fs, src: string, dst: string, f: CopyFaults)
    requires Valid(fs) && dst !in fs.tree
    ensures var r := CopyFile(fs, src, dst, f);
      dst in r.fs.tree ==>
        IsRegularAt(fs, src) && (r.fs.tree[dst] == fs.tree[src] || r.fs.tree[dst] == Regular(fs.nextIno))
  {
    var o := CreateTrunc(fs, dst);
    if IsRegularAt(fs, src) && !(!f.link && CanLink(fs, src, dst)) && !f.openSrc && !f.createDst && o.Opened? {
      AppendFacts(o.fs, o.ino, Written(o.fs.data[fs.tree[src].ino], f.writeStopsAt));
    }
  }

  /** The refusals of copyFile change nothing: a missing or non-regular source,
      a non-regular destination; and a destination that already is the source
      (same inode) is a success without change. */
  lemma CopyFileRefusals(fs: Fs, src: string, dst: string, f: CopyFaults)
    requires Valid(fs)
    ensures src !in fs.tree ==> CopyFile(fs, src, dst, f) == CopyResult(fs, Some(StatSource))
    ensures src in fs.tree && !fs.tree[src].Regular? ==>
      CopyFile(fs, src, dst, f) == CopyResult(fs, Some(NonRegularSource))
    ensures IsRegularAt(fs, src) && dst in fs.tree && !fs.tree[dst].Regular? ==>
      CopyFile(fs, src, dst, f) == CopyResult(fs, Some(NonRegularDestination))
    ensures IsRegularAt(fs, src) && IsRegularAt(fs, dst) && fs.tree[dst].ino == fs.tree[src].ino ==>
      CopyFile(fs, src, dst, f) == CopyResult(fs, None)
  {
  }

  /** A success of copyFile leaves dst a regular file holding exactly the
      source's bytes, whether it was linked, copied, or already the same file. */
  lemma CopyFileSuccess(fs: Fs, src: string, dst: string, f: CopyFaults)
    requires Valid(fs)
    ensures var r := CopyFile(fs, src, dst, f);
      r.err == None ==> IsRegularAt(fs, src) && IsRegularAt(r.fs, dst) && Content(r.fs, dst) == Content(fs, src)
  {
    var r := CopyFile(fs, src, dst, f);
    if r.err == None && IsRegularAt(fs, src) && !(dst in fs.tree && fs.tree[dst].ino == fs.tree[src].ino) {
      if !f.link && CanLink(fs, src, dst) {
        LinkFacts(fs, src, dst);
      } else {
        assert dst in fs.tree ==> fs.tree[dst] != fs.tree[src];
        CopyContentsOutcome(fs, src, dst, f);
      }
    }
  }

  /** The hard link is tried first: when the destination is absent, its
      directory exists and the system allows the link, dst becomes a second
      name of the source's inode and no bytes are copied. */
  lemma CopyFileLinksFirst(fs: Fs, src: string, dst: string, f: CopyFaults)
    requires Valid(fs) && CanLink(fs, src, dst) && !f.link && !f.statDst
    ensures var r := CopyFile(fs, src, dst, f);
      r.err == None && r.fs.tree == fs.tree[dst := fs.tree[src]] && r.fs.data == fs.data
  {
  }

  /** When the link fails the contents are copied: the system refuses it, or
      dst already names another regular file (os.Link does not replace an
      existing name). Whatever the outcome after dst is opened, its old
      contents are gone (O_TRUNC) and what it holds is a prefix of the source's
      bytes. */
  lemma CopyFileFallsBackToCopy(fs: Fs, src: string, dst: string, f: CopyFaults)
    requires Valid(fs) && IsRegularAt(fs, src) && (IsRegularAt(fs, dst) || dst !in fs.tree)
    requires dst in fs.tree ==> fs.tree[dst].ino != fs.tree[src].ino
    requires dst !in fs.tree ==> !f.statDst
    requires (f.link || dst in fs.tree) && !f.openSrc && !f.createDst && CreateTrunc(fs, dst).Opened?
    ensures var r := CopyFile(fs, src, dst, f);
      && IsRegularAt(r.fs, dst) && Content(r.fs, dst) <= Content(fs, src)
      && (r.err == None <==> f.writeStopsAt.None? && !f.sync && !f.close)
      && (r.err == Some(CloseFailed) <==> f.writeStopsAt.None? && !f.sync && f.close)
  {
    var r := CopyFile(fs, src, dst, f);
    assert dst in fs.tree ==> fs.tree[dst] != fs.tree[src];
    assert r == CopyContents(fs, src, dst, f);
    CopyContentsOutcome(fs, src, dst, f);
  }
}
