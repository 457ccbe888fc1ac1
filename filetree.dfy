/** An abstract Unix file system, the state every operation of the installer
    reads and changes. Paths map to nodes; regular files point to an inode whose
    bytes live in a second map, so hard links share their contents. "." and "/"
    always exist as directories. */
module FileTree {
  import opened Paths

  newtype byte = b: int | 0 <= b < 256

  datatype Node = Directory | Regular(ino: nat) | Irregular

  datatype Fs = Fs(tree: map<string, Node>, data: map<nat, seq<byte>>, nextIno: nat)

  /** Every regular file has contents, and inode numbers below nextIno are the
      only ones in use. */
  predicate Valid(fs: Fs) {
    && (forall p :: p in fs.tree && fs.tree[p].Regular? ==> fs.tree[p].ino in fs.data)
    && (forall i :: i in fs.data ==> i < fs.nextIno)
  }

  predicate IsRegularAt(fs: Fs, p: string) {
    p in fs.tree && fs.tree[p].Regular?
  }

  predicate IsDirectoryAt(fs: Fs, p: string) {
    p == "." || p == "/" || (p in fs.tree && fs.tree[p] == Directory)
  }

  function Content(fs: Fs, p: string): seq<byte>
    requires Valid(fs) && IsRegularAt(fs, p)
  {
    fs.data[fs.tree[p].ino]
  }

  /** Nothing is removed or rebound: every existing path keeps its node and
      every inode stays allocated. None of the operations below delete. */
  predicate Grows(fs: Fs, fs': Fs) {
    && (forall p :: p in fs.tree ==> p in fs'.tree && fs'.tree[p] == fs.tree[p])
    && (forall i :: i in fs.data ==> i in fs'.data)
    && fs.nextIno <= fs'.nextIno
  }

  lemma GrowsTransitive(a: Fs, b: Fs, c: Fs)
    requires Grows(a, b) && Grows(b, c)
    ensures Grows(a, c)
  {
  }

  /** The ancestors-or-self of a path, as os.MkdirAll creates them: the
      prefixes segs[..i+1], segs[..i+2], ... from the top down. A prefix that
      is already a directory is passed over; a prefix held by any other node
      stops the walk (MkdirAll's error, which every caller here ignores). */
  function MkdirPrefixes(fs: Fs, rooted: bool, segs: seq<string>, i: nat): (r: Fs)
    requires i <= |segs|
    ensures r.data == fs.data && r.nextIno == fs.nextIno
    decreases |segs| - i
  {
    if i == |segs| then fs
    else
      var q := Render(rooted, segs[..i + 1]);
      if IsDirectoryAt(fs, q) then MkdirPrefixes(fs, rooted, segs, i + 1)
      else if q !in fs.tree then MkdirPrefixes(fs.(tree := fs.tree[q := Directory]), rooted, segs, i + 1)
      else fs
  }

  lemma {:induction false} MkdirPrefixesGrows(fs: Fs, rooted: bool, segs: seq<string>, i: nat)
    requires i <= |segs|
    ensures Grows(fs, MkdirPrefixes(fs, rooted, segs, i))
    decreases |segs| - i
  {
    if i < |segs| {
      var q := Render(rooted, segs[..i + 1]);
      if IsDirectoryAt(fs, q) {
        MkdirPrefixesGrows(fs, rooted, segs, i + 1);
      } else if q !in fs.tree {
        MkdirPrefixesGrows(fs.(tree := fs.tree[q := Directory]), rooted, segs, i + 1);
      }
    }
  }

  /** MkdirPrefixes only adds directories, and only at the prefixes it was
      given. */
  lemma {:induction false} MkdirPrefixesAdds(fs: Fs, rooted: bool, segs: seq<string>, i: nat)
    requires i <= |segs|
    ensures var r := MkdirPrefixes(fs, rooted, segs, i);
      && Grows(fs, r)
      && (forall q :: q in r.tree && q !in fs.tree ==>
            r.tree[q] == Directory && exists k :: i < k <= |segs| && q == Render(rooted, segs[..k]))
    decreases |segs| - i
  {
    if i < |segs| {
      var q := Render(rooted, segs[..i + 1]);
      if IsDirectoryAt(fs, q) {
        MkdirPrefixesAdds(fs, rooted, segs, i + 1);
      } else if q !in fs.tree {
        var fs1 := fs.(tree := fs.tree[q := Directory]);
        MkdirPrefixesAdds(fs1, rooted, segs, i + 1);
        var r := MkdirPrefixes(fs1, rooted, segs, i + 1);
        assert q in r.tree && r.tree[q] == Directory;
        assert forall p :: p in r.tree && p !in fs.tree && p != q ==> p !in fs1.tree;
      }
    }
  }

  /** When no prefix is held by a non-directory, all of them end up
      directories. */
  lemma {:induction false} MkdirPrefixesCompletes(fs: Fs, rooted: bool, segs: seq<string>, i: nat)
    requires i <= |segs|
    requires forall k :: i < k <= |segs| ==>
      IsDirectoryAt(fs, Render(rooted, segs[..k])) || Render(rooted, segs[..k]) !in fs.tree
    ensures forall k :: i < k <= |segs| ==> IsDirectoryAt(MkdirPrefixes(fs, rooted, segs, i), Render(rooted, segs[..k]))
    decreases |segs| - i
  {
    if i < |segs| {
      var q := Render(rooted, segs[..i + 1]);
      if IsDirectoryAt(fs, q) {
        MkdirPrefixesCompletes(fs, rooted, segs, i + 1);
        MkdirPrefixesGrows(fs, rooted, segs, i + 1);
      } else {
        var fs1 := fs.(tree := fs.tree[q := Directory]);
        forall k | i + 1 < k <= |segs|
          ensures IsDirectoryAt(fs1, Render(rooted, segs[..k])) || Render(rooted, segs[..k]) !in fs1.tree
        {
          if Render(rooted, segs[..k]) != q {
            assert IsDirectoryAt(fs, Render(rooted, segs[..k])) || Render(rooted, segs[..k]) !in fs.tree;
          }
        }
        MkdirPrefixesCompletes(fs1, rooted, segs, i + 1);
        MkdirPrefixesGrows(fs1, rooted, segs, i + 1);
        assert IsDirectoryAt(MkdirPrefixes(fs1, rooted, segs, i + 1), q);
      }
    }
  }

  /** os.MkdirAll(p) on the clean form of p. */
  function MkdirAll(fs: Fs, p: string): (r: Fs)
    ensures r.data == fs.data && r.nextIno == fs.nextIno
  {
    MkdirPrefixes(fs, Rooted(p), CleanSegs(p), 0)
  }

  /** MkdirAll never removes or rebinds anything; what it adds are directories
      named by prefixes of p's clean segments. */
  lemma MkdirAllFacts(fs: Fs, p: string)
    ensures var r := MkdirAll(fs, p);
      && Grows(fs, r)
      && (Valid(fs) ==> Valid(r))
      && (forall q :: q in r.tree && q !in fs.tree ==>
            r.tree[q] == Directory && exists k :: 0 < k <= |CleanSegs(p)| && q == Render(Rooted(p), CleanSegs(p)[..k]))
  {
    MkdirPrefixesAdds(fs, Rooted(p), CleanSegs(p), 0);
  }

  /** When no prefix of p's clean form is held by a non-directory, MkdirAll
      leaves every one of them a directory, p included. */
  lemma MkdirAllCompletes(fs: Fs, p: string)
    requires forall k :: 0 < k <= |CleanSegs(p)| ==>
      IsDirectoryAt(fs, Render(Rooted(p), CleanSegs(p)[..k])) || Render(Rooted(p), CleanSegs(p)[..k]) !in fs.tree
    ensures forall k :: 0 < k <= |CleanSegs(p)| ==> IsDirectoryAt(MkdirAll(fs, p), Render(Rooted(p), CleanSegs(p)[..k]))
  {
    MkdirPrefixesCompletes(fs, Rooted(p), CleanSegs(p), 0);
  }

  datatype Opened = Opened(fs: Fs, ino: nat) | OpenFailed

  /** os.OpenFile(p, O_WRONLY|O_CREATE|O_TRUNC) and os.Create(p): the parent must
      be a directory and p must be absent or a regular file, whose contents are
      then truncated; an absent p gets a fresh empty inode. */
  function CreateTrunc(fs: Fs, p: string): (r: Opened)
    ensures r.Opened? <==>
      IsDirectoryAt(fs, Dir(p)) && p != "." && p != "/" && (p !in fs.tree || fs.tree[p].Regular?)
    ensures r.Opened? ==> r.ino in r.fs.data
  {
    if !IsDirectoryAt(fs, Dir(p)) || p == "." || p == "/" then OpenFailed
    else if p in fs.tree then
      match fs.tree[p]
      case Regular(ino) => Opened(fs.(data := fs.data[ino := []]), ino)
      case _ => OpenFailed
    else
      Opened(Fs(fs.tree[p := Regular(fs.nextIno)], fs.data[fs.nextIno := []], fs.nextIno + 1), fs.nextIno)
  }

  /** An opened file is a regular file at p with empty contents; only p may be
      new and only its inode's contents change. */
  lemma CreateTruncFacts(fs: Fs, p: string)
    requires Valid(fs) && CreateTrunc(fs, p).Opened?
    ensures var r := CreateTrunc(fs, p);
      && Valid(r.fs) && Grows(fs, r.fs)
      && IsRegularAt(r.fs, p) && r.fs.tree[p].ino == r.ino && r.fs.data[r.ino] == []
      && (forall q :: q in r.fs.tree && q != p ==> q in fs.tree)
      && (forall i :: i in fs.data && i != r.ino ==> r.fs.data[i] == fs.data[i])
      && (p in fs.tree ==> r.fs.tree == fs.tree && r.fs.nextIno == fs.nextIno)
  {
  }

  /** Writing bytes at the end of an open file. */
  function Append(fs: Fs, ino: nat, bytes: seq<byte>): (r: Fs)
    requires ino in fs.data
    ensures ino in r.data && r.data[ino] == fs.data[ino] + bytes
  {
    fs.(data := fs.data[ino := fs.data[ino] + bytes])
  }

  lemma AppendFacts(fs: Fs, ino: nat, bytes: seq<byte>)
    requires Valid(fs) && ino in fs.data
    ensures var r := Append(fs, ino, bytes);
      && Valid(r) && Grows(fs, r) && r.tree == fs.tree && r.nextIno == fs.nextIno
      && forall i :: i in fs.data && i != ino ==> r.data[i] == fs.data[i]
  {
  }

  /** What os.Link(src, dst) needs besides the operating system's consent: a
      regular source and an absent destination inside an existing directory. */
  predicate CanLink(fs: Fs, src: string, dst: string) {
    IsRegularAt(fs, src) && dst !in fs.tree && dst != "." && dst != "/" && IsDirectoryAt(fs, Dir(dst))
  }

  /** os.Link: dst becomes a second name of src's inode. */
  function Link(fs: Fs, src: string, dst: string): (r: Fs)
    requires CanLink(fs, src, dst)
    ensures r.tree == fs.tree[dst := fs.tree[src]] && r.data == fs.data && r.nextIno == fs.nextIno
  {
    fs.(tree := fs.tree[dst := fs.tree[src]])
  }

  lemma LinkFacts(fs: Fs, src: string, dst: string)
    requires Valid(fs) && CanLink(fs, src, dst)
    ensures var r := Link(fs, src, dst);
      Valid(r) && Grows(fs, r) && Content(r, dst) == Content(fs, src)
  {
  }
}
