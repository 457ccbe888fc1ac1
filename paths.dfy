/** Lexical path logic of Go's path/filepath package on a Unix host, where the
    separator is '/': Clean, Join, Base and Dir, and the ZipSlip guard that the
    extractor builds from them. Clean is modelled by its documented rules over
    the '/'-separated segments of a path: empty and "." segments vanish, ".."
    removes the segment before it, ".." right under the root is dropped, and an
    empty relative result is ".". */
module Paths {

  /** A segment that names a child: not empty, not "." or "..", no separator. */
  predicate ProperName(s: string) {
    s != "" && s != "." && s != ".." && '/' !in s
  }

  predicate Rooted(p: string) {
    |p| > 0 && p[0] == '/'
  }

  predicate HasPrefix(s: string, prefix: string) {
    |prefix| <= |s| && s[..|prefix|] == prefix
  }

  /** strings.Split(p, "/"): "" gives [""], "/a" gives ["", "a"], "a/" gives ["a", ""]. */
  function Split(p: string): (segs: seq<string>)
    ensures |segs| >= 1
    ensures forall i :: 0 <= i < |segs| ==> '/' !in segs[i]
  {
    if p == [] then [""]
    else if p[0] == '/' then [""] + Split(p[1..])
    else
      var rest := Split(p[1..]);
      [[p[0]] + rest[0]] + rest[1..]
  }

  /** strings.Join(segs, "/"). */
  function JoinSlash(segs: seq<string>): string {
    if |segs| == 0 then ""
    else if |segs| == 1 then segs[0]
    else segs[0] + "/" + JoinSlash(segs[1..])
  }

  /** One segment of Clean's scan, applied to the segments kept so far. */
  function Step(kept: seq<string>, seg: string, rooted: bool): seq<string> {
    if seg == "" || seg == "." then kept
    else if seg == ".." then
      if |kept| > 0 && kept[|kept| - 1] != ".." then kept[..|kept| - 1]
      else if rooted then kept
      else kept + [".."]
    else kept + [seg]
  }

  function Resolve(kept: seq<string>, segs: seq<string>, rooted: bool): seq<string>
    decreases |segs|
  {
    if segs == [] then kept else Resolve(Step(kept, segs[0], rooted), segs[1..], rooted)
  }

  /** The segments of Clean(p). */
  function CleanSegs(p: string): seq<string> {
    Resolve([], Split(p), Rooted(p))
  }

  function Render(rooted: bool, segs: seq<string>): string {
    if rooted then "/" + JoinSlash(segs)
    else if segs == [] then "."
    else JoinSlash(segs)
  }

  /** filepath.Clean. */
  function Clean(p: string): string {
    Render(Rooted(p), CleanSegs(p))
  }

  /** filepath.Join(dir, name): the non-empty elements joined by '/' and cleaned,
      or "" when both are empty. */
  function Join(dir: string, name: string): string {
    if dir != "" then Clean(dir + "/" + name)
    else if name != "" then Clean(name)
    else ""
  }

  /** The segments of Join(dest, name) for a non-empty dest. */
  function JoinedSegs(dest: string, name: string): seq<string> {
    Resolve(CleanSegs(dest), Split(name), Rooted(dest))
  }

  /** The ZipSlip check of the extractor: the joined path must start with
      Clean(dest) followed by a separator. */
  predicate PassesZipSlipGuard(dest: string, name: string) {
    HasPrefix(Join(dest, name), Clean(dest) + "/")
  }

  /** A list of segments made only of "..": it names dest itself or one of its
      ancestors, never a directory that could hold anything below it. */
  predicate OnlyParents(segs: seq<string>) {
    forall i :: 0 <= i < |segs| ==> segs[i] == ".."
  }

  /** What Clean can produce: proper names, with ".." only as a leading run of a
      relative path. */
  predicate CleanStack(segs: seq<string>, rooted: bool) {
    && (forall i :: 0 <= i < |segs| ==> segs[i] == ".." || ProperName(segs[i]))
    && (forall i :: 0 <= i < |segs| && segs[i] == ".." ==>
          !rooted && forall j :: 0 <= j < i ==> segs[j] == "..")
  }

  // ---------------------------------------------------------------------------
  // Base and Dir

  /** p without its trailing separators. */
  function TrimTrailingSlashes(p: string): (q: string)
    ensures |q| <= |p|
  {
    if p != [] && p[|p| - 1] == '/' then TrimTrailingSlashes(p[..|p| - 1]) else p
  }

  lemma {:induction false} TrimTrailingSlashesFacts(p: string)
    ensures var q := TrimTrailingSlashes(p);
      q == p[..|q|] && (q == [] || q[|q| - 1] != '/')
    decreases |p|
  {
    if p != [] && p[|p| - 1] == '/' {
      TrimTrailingSlashesFacts(p[..|p| - 1]);
    }
  }

  /** The characters after the last separator of p. */
  function LastSegment(p: string): (s: string)
    ensures |s| <= |p|
  {
    if p == [] || p[|p| - 1] == '/' then []
    else LastSegment(p[..|p| - 1]) + [p[|p| - 1]]
  }

  lemma {:induction false} LastSegmentFacts(p: string)
    ensures var s := LastSegment(p);
      && '/' !in s && s == p[|p| - |s|..]
      && (|s| < |p| ==> p[|p| - |s| - 1] == '/')
    decreases |p|
  {
    if !(p == [] || p[|p| - 1] == '/') {
      LastSegmentFacts(p[..|p| - 1]);
    }
  }

  /** filepath.Base: "." for "", "/" for a path of separators only, otherwise
      the last element once trailing separators are removed. */
  function Base(p: string): (b: string)
    ensures b != ""
    ensures b == "/" || '/' !in b
  {
    if p == "" then "."
    else
      var q := TrimTrailingSlashes(p);
      TrimTrailingSlashesFacts(p);
      if q == "" then "/" else LastSegmentFacts(q); LastSegment(q)
  }

  /** filepath.Dir: everything up to and including the last separator, cleaned. */
  function Dir(p: string): string {
    Clean(p[..|p| - |LastSegment(p)|])
  }

  // ---------------------------------------------------------------------------
  // Split and JoinSlash

  lemma {:induction false} SplitNoSlash(a: string)
    requires '/' !in a
    ensures Split(a) == [a]
  {
    if a != [] {
      assert '/' !in a[1..] by {
        forall k | 0 <= k < |a[1..]| ensures a[1..][k] != '/' { assert a[1..][k] == a[k + 1]; }
      }
      SplitNoSlash(a[1..]);
      assert [a[0]] + a[1..] == a;
    }
  }

  lemma {:induction false} SplitAround(a: string, b: string)
    ensures Split(a + "/" + b) == Split(a) + Split(b)
  {
    var s := a + "/" + b;
    if a == [] {
      assert s == "/" + b;
      assert s[1..] == b;
    } else {
      assert s[0] == a[0];
      assert s[1..] == a[1..] + "/" + b;
      SplitAround(a[1..], b);
    }
  }

  lemma {:induction false} SplitJoinSlash(segs: seq<string>)
    requires |segs| >= 1
    requires forall i :: 0 <= i < |segs| ==> '/' !in segs[i]
    ensures Split(JoinSlash(segs)) == segs
  {
    if |segs| == 1 {
      SplitNoSlash(segs[0]);
    } else {
      SplitAround(segs[0], JoinSlash(segs[1..]));
      SplitNoSlash(segs[0]);
      SplitJoinSlash(segs[1..]);
      assert [segs[0]] + segs[1..] == segs;
    }
  }

  lemma {:induction false} JoinSlashSnoc(segs: seq<string>, b: string)
    requires |segs| >= 1
    ensures JoinSlash(segs + [b]) == JoinSlash(segs) + "/" + b
  {
    if |segs| == 1 {
      assert segs + [b] == [segs[0], b];
    } else {
      assert (segs + [b])[1..] == segs[1..] + [b];
      JoinSlashSnoc(segs[1..], b);
    }
  }

  /** The first character of a joined list is that of its first segment. */
  lemma JoinSlashHead(segs: seq<string>)
    requires |segs| >= 1 && segs[0] != ""
    ensures |JoinSlash(segs)| >= |segs[0]| > 0
    ensures JoinSlash(segs)[0] == segs[0][0]
    ensures |segs| >= 2 ==> |JoinSlash(segs)| > |segs[0]|
  {
  }

  // ---------------------------------------------------------------------------
  // Resolve

  lemma {:induction false} ResolveAppend(kept: seq<string>, s1: seq<string>, s2: seq<string>, rooted: bool)
    ensures Resolve(kept, s1 + s2, rooted) == Resolve(Resolve(kept, s1, rooted), s2, rooted)
    decreases |s1|
  {
    if s1 == [] {
      assert s1 + s2 == s2;
    } else {
      assert (s1 + s2)[0] == s1[0];
      assert (s1 + s2)[1..] == s1[1..] + s2;
      ResolveAppend(Step(kept, s1[0], rooted), s1[1..], s2, rooted);
    }
  }

  lemma StepClean(kept: seq<string>, seg: string, rooted: bool)
    requires CleanStack(kept, rooted) && '/' !in seg
    ensures CleanStack(Step(kept, seg, rooted), rooted)
  {
    if seg == ".." && !(|kept| > 0 && kept[|kept| - 1] != "..") && !rooted {
      assert OnlyParents(kept);
    }
  }

  lemma {:induction false} ResolveClean(kept: seq<string>, segs: seq<string>, rooted: bool)
    requires CleanStack(kept, rooted)
    requires forall i :: 0 <= i < |segs| ==> '/' !in segs[i]
    ensures CleanStack(Resolve(kept, segs, rooted), rooted)
    decreases |segs|
  {
    if segs != [] {
      StepClean(kept, segs[0], rooted);
      ResolveClean(Step(kept, segs[0], rooted), segs[1..], rooted);
    }
  }

  lemma CleanSegsClean(p: string)
    ensures CleanStack(CleanSegs(p), Rooted(p))
  {
    ResolveClean([], Split(p), Rooted(p));
  }

  lemma JoinedSegsClean(dest: string, name: string)
    ensures CleanStack(JoinedSegs(dest, name), Rooted(dest))
  {
    CleanSegsClean(dest);
    ResolveClean(CleanSegs(dest), Split(name), Rooted(dest));
  }

  lemma PrefixClean(segs: seq<string>, rooted: bool, k: nat)
    requires CleanStack(segs, rooted) && k <= |segs|
    ensures CleanStack(segs[..k], rooted)
  {
  }

  /** Resolving a list that is already clean gives it back. */
  lemma {:induction false} ResolveCleanStack(segs: seq<string>, rooted: bool)
    requires CleanStack(segs, rooted)
    ensures Resolve([], segs, rooted) == segs
    decreases |segs|
  {
    if segs != [] {
      var init := segs[..|segs| - 1];
      var last := segs[|segs| - 1];
      PrefixClean(segs, rooted, |segs| - 1);
      ResolveCleanStack(init, rooted);
      assert init + [last] == segs;
      ResolveAppend([], init, [last], rooted);
      assert Resolve(init, [last], rooted) == Step(init, last, rooted);
      if last == ".." {
        assert OnlyParents(init);
      }
    }
  }

  /** A rendered clean list is a clean path whose segments are that list. */
  lemma RenderSegs(rooted: bool, segs: seq<string>)
    requires CleanStack(segs, rooted)
    ensures Rooted(Render(rooted, segs)) == rooted
    ensures CleanSegs(Render(rooted, segs)) == segs
  {
    var p := Render(rooted, segs);
    ResolveCleanStack(segs, rooted);
    if rooted {
      assert p[1..] == JoinSlash(segs);
      if segs == [] {
        assert Split(p) == [""] + [""];
      } else {
        SplitJoinSlash(segs);
        assert Split(p) == [""] + segs;
        assert Resolve([], [""] + segs, rooted) == Resolve([], segs, rooted);
      }
    } else if segs == [] {
      assert p == ".";
      assert Split(p) == ["."] by { SplitNoSlash(p); }
    } else {
      JoinSlashHead(segs);
      SplitJoinSlash(segs);
    }
  }

  /** Clean is idempotent: its output is its own clean form. */
  lemma CleanIdempotent(p: string)
    ensures Clean(Clean(p)) == Clean(p)
  {
    CleanSegsClean(p);
    RenderSegs(Rooted(p), CleanSegs(p));
  }

  /** Join of a non-empty dest resolves the name's segments on top of Clean(dest). */
  lemma JoinResolves(dest: string, name: string)
    requires dest != ""
    ensures Join(dest, name) == Render(Rooted(dest), JoinedSegs(dest, name))
  {
    var p := dest + "/" + name;
    assert p[0] == dest[0];
    SplitAround(dest, name);
    ResolveAppend([], Split(dest), Split(name), Rooted(dest));
  }

  // ---------------------------------------------------------------------------
  // The guard

  lemma SlashHead(x: string, y: string, s: string, t: string)
    requires '/' !in x && '/' !in y
    ensures HasPrefix(x + "/" + s, y + "/" + t) <==> x == y && HasPrefix(s, t)
  {
    var l := x + "/" + s;
    var r := y + "/" + t;
    assert forall k :: 0 <= k < |x| ==> l[k] == x[k];
    assert forall k :: 0 <= k < |y| ==> r[k] == y[k];
    assert l[|x|] == '/' && r[|y|] == '/';
    assert HasPrefix(l, r) ==> forall k :: 0 <= k < |r| ==> l[k] == r[k];
    assert HasPrefix(l, r) ==> |x| == |y|;
    if HasPrefix(l, r) {
      assert x == l[..|x|] == r[..|y|] == y;
      assert s[..|t|] == l[|x| + 1..|r|] == r[|y| + 1..] == t;
    }
    if x == y && HasPrefix(s, t) {
      assert l[..|r|] == x + "/" + s[..|t|];
    }
  }

  lemma NoSlashNoPrefix(x: string, y: string, t: string)
    requires '/' !in x
    ensures !HasPrefix(x, y + "/" + t)
  {
    var r := y + "/" + t;
    assert r[|y|] == '/';
    if |r| <= |x| {
      assert x[..|r|][|y|] == x[|y|] != '/';
    }
  }

  /** A joined list starts with the joined list D and a separator exactly when
      D is a proper prefix of it. */
  lemma {:induction false} JoinSlashPrefix(d: seq<string>, r: seq<string>)
    requires |d| >= 1
    requires forall i :: 0 <= i < |d| ==> '/' !in d[i]
    requires forall i :: 0 <= i < |r| ==> '/' !in r[i]
    ensures HasPrefix(JoinSlash(r), JoinSlash(d) + "/") <==> |r| > |d| && r[..|d|] == d
  {
    var tail := if |d| == 1 then "" else JoinSlash(d[1..]) + "/";
    assert JoinSlash(d) + "/" == d[0] + "/" + tail;
    if |r| == 0 {
    } else if |r| == 1 {
      NoSlashNoPrefix(r[0], d[0], tail);
    } else {
      SlashHead(r[0], d[0], JoinSlash(r[1..]), tail);
      if |d| == 1 {
        assert HasPrefix(JoinSlash(r[1..]), tail);
        assert r[..1] == d <==> r[0] == d[0];
      } else {
        JoinSlashPrefix(d[1..], r[1..]);
        assert d == [d[0]] + d[1..];
        if |r| >= |d| {
          assert r[..|d|] == [r[0]] + r[1..][..|d| - 1];
        }
        if |r| >= |d| && r[..|d|] == d {
          assert r[0] == d[0];
          assert r[1..][..|d| - 1] == r[..|d|][1..] == d[1..];
        }
      }
    }
  }

  /** The guard, read on segments: for a destination whose clean form is neither
      "." nor "/", an entry is accepted exactly when its joined path strictly
      extends the destination's segments. */
  lemma GuardIff(dest: string, name: string)
    requires CleanSegs(dest) != []
    ensures PassesZipSlipGuard(dest, name) <==>
      (var d := CleanSegs(dest); var r := JoinedSegs(dest, name); |r| > |d| && r[..|d|] == d)
  {
    var d := CleanSegs(dest);
    var r := JoinedSegs(dest, name);
    var rooted := Rooted(dest);
    assert dest != "";
    JoinResolves(dest, name);
    CleanSegsClean(dest);
    JoinedSegsClean(dest, name);
    JoinSlashPrefix(d, r);
    if rooted {
      assert "/" + JoinSlash(d) + "/" == "/" + (JoinSlash(d) + "/");
      SlashPrefix(JoinSlash(r), JoinSlash(d) + "/");
    } else if r == [] {
      JoinSlashHead(d);
    }
  }

  lemma SlashPrefix(s: string, t: string)
    ensures HasPrefix("/" + s, "/" + t) <==> HasPrefix(s, t)
  {
    var l := "/" + s;
    var r := "/" + t;
    if HasPrefix(l, r) {
      assert s[..|t|] == l[1..|r|] == r[1..] == t;
    }
    if HasPrefix(s, t) {
      assert l[..|r|] == "/" + s[..|t|];
    }
  }

  lemma RenderDegenerate(rooted: bool, segs: seq<string>)
    requires CleanStack(segs, rooted)
    requires Render(rooted, segs) == "." || Render(rooted, segs) == "/"
    ensures segs == []
  {
    if segs != [] {
      JoinSlashHead(segs);
    }
  }

  /** A relative clean path never starts with "./" and a rooted one never with "//". */
  lemma CleanNoDotSlash(rooted: bool, segs: seq<string>)
    requires CleanStack(segs, rooted)
    ensures !HasPrefix(Render(rooted, segs), "./")
    ensures !HasPrefix(Render(rooted, segs), "//")
  {
    if segs != [] {
      var js := JoinSlash(segs);
      JoinSlashHead(segs);
      assert segs[0][0] != '/';
      JoinSlashPrefix(["."], segs);
      assert "./" == JoinSlash(["."]) + "/";
      var p := Render(rooted, segs);
      if rooted {
        assert p[..2][0] == '/' && p[..2][1] == js[0] != '/';
      } else if |p| >= 2 {
        assert p[..2][0] == js[0] != '/';
      }
    }
  }

  /** When Clean(dest) is "." (dest "", ".", "a/..") or "/", the guard asks for a
      prefix "./" or "//" that no joined path has: every entry is rejected. */
  lemma DegenerateDestRejectsAll(dest: string, name: string)
    requires Clean(dest) == "." || Clean(dest) == "/"
    ensures !PassesZipSlipGuard(dest, name)
  {
    CleanSegsClean(dest);
    RenderDegenerate(Rooted(dest), CleanSegs(dest));
    if dest == "" {
      if name != "" {
        CleanSegsClean(name);
        CleanNoDotSlash(Rooted(name), CleanSegs(name));
      }
    } else {
      JoinResolves(dest, name);
      JoinedSegsClean(dest, name);
      CleanNoDotSlash(Rooted(dest), JoinedSegs(dest, name));
      if Rooted(dest) {
        assert Clean(dest) + "/" == "//";
      } else {
        assert Clean(dest) + "/" == "./";
      }
    }
  }

  /** Soundness of the guard: for a destination that is not made only of ".."
      segments, an accepted entry resolves to the destination's segments followed
      by at least one proper name, i.e. strictly inside the destination. */
  lemma GuardConfines(dest: string, name: string)
    requires !OnlyParents(CleanSegs(dest))
    requires PassesZipSlipGuard(dest, name)
    ensures var d := CleanSegs(dest); var r := JoinedSegs(dest, name);
      |r| > |d| && r[..|d|] == d && forall i :: |d| <= i < |r| ==> ProperName(r[i])
  {
    var d := CleanSegs(dest);
    var r := JoinedSegs(dest, name);
    GuardIff(dest, name);
    JoinedSegsClean(dest, name);
    var k :| 0 <= k < |d| && d[k] != "..";
    assert r[k] == d[k];
  }

  /** A name that cleans back to dest itself ("", ".", "a/..") is rejected. */
  lemma SelfNameRejected(dest: string, name: string)
    requires Join(dest, name) == Clean(dest)
    ensures !PassesZipSlipGuard(dest, name)
  {
  }

  /** Segments of a literal written as a '/'-joined list of segments. */
  lemma SplitLiteral(p: string, segs: seq<string>)
    requires |segs| >= 1 && (forall i :: 0 <= i < |segs| ==> '/' !in segs[i])
    requires p == JoinSlash(segs)
    ensures Split(p) == segs
  {
    SplitJoinSlash(segs);
  }

  /** The limit of the guard: under a destination made only of "..", the entry
      "../x" is accepted although it resolves above the destination. */
  lemma ParentDestLetsEntryOut()
    ensures Join("..", "../x") == "../../x"
    ensures PassesZipSlipGuard("..", "../x")
  {
    SplitLiteral("..", [".."]);
    SplitLiteral("../x", ["..", "x"]);
    assert CleanSegs("..") == [".."];
    assert JoinedSegs("..", "../x") == ["..", "..", "x"];
    JoinResolves("..", "../x");
    assert JoinSlash(["..", "..", "x"]) == "../../x";
    GuardIff("..", "../x");
  }

  /** A destination that is one proper name d ("ignore" in the program) is
      its own clean form, with the single segment d. */
  lemma OneNameDest(dest: string)
    requires ProperName(dest)
    ensures !Rooted(dest) && CleanSegs(dest) == [dest]
  {
    SplitNoSlash(dest);
    assert dest[0] in dest;
    assert CleanSegs(dest) == Resolve([], [dest], false) == [dest];
  }

  /** Under a one-name destination d, an entry "../x" resolves to x beside d
      and is refused. */
  lemma ParentEntryRejected(dest: string, name: string, x: string)
    requires ProperName(dest) && ProperName(x)
    requires Split(name) == ["..", x]
    ensures Join(dest, name) == x
    ensures !PassesZipSlipGuard(dest, name)
  {
    OneNameDest(dest);
    assert Step([dest], "..", false) == [];
    assert ["..", x][1..] == [x];
    assert Resolve([], [x], false) == [x];
    assert JoinedSegs(dest, name) == [x];
    JoinResolves(dest, name);
    GuardIff(dest, name);
  }

  /** Under a one-name destination d, the entries "", "." and "a/.." clean
      back to d itself and are refused. */
  lemma CollapsingEntryRejected(dest: string, name: string, a: string)
    requires ProperName(dest) && ProperName(a)
    requires Split(name) == [""] || Split(name) == ["."] || Split(name) == [a, ".."]
    ensures Join(dest, name) == dest
    ensures !PassesZipSlipGuard(dest, name)
  {
    OneNameDest(dest);
    if Split(name) == [a, ".."] {
      assert Step([dest], a, false) == [dest, a];
      assert [a, ".."][1..] == [".."];
      assert Resolve([dest], [a, ".."], false) == Resolve([dest, a], [".."], false);
      assert [dest, a][..1] == [dest];
      assert Step([dest, a], "..", false) == [dest];
      assert Resolve([dest, a], [".."], false) == Resolve([dest], [], false);
    } else {
      assert Resolve([dest], Split(name), false) == Resolve([dest], [], false);
    }
    assert JoinedSegs(dest, name) == [dest];
    JoinResolves(dest, name);
    GuardIff(dest, name);
  }

  lemma InnerEntrySegs(dest: string, name: string, a: string, b: string)
    requires ProperName(dest) && ProperName(a) && ProperName(b)
    requires Split(name) == [a, b]
    ensures !Rooted(dest) && CleanSegs(dest) == [dest]
    ensures JoinedSegs(dest, name) == [dest, a, b]
  {
    OneNameDest(dest);
    assert [a, b][1..] == [b];
    assert Step([dest], a, false) == [dest, a];
    assert Resolve([dest], [a, b], false) == Resolve([dest, a], [b], false);
    assert Step([dest, a], b, false) == [dest, a, b];
    assert Resolve([dest, a], [b], false) == Resolve([dest, a, b], [], false);
  }

  /** Under a one-name destination d, an entry "a/b" of proper names is
      accepted and lands at d/a/b. */
  lemma InnerEntryAccepted(dest: string, name: string, a: string, b: string)
    requires ProperName(dest) && ProperName(a) && ProperName(b)
    requires Split(name) == [a, b]
    ensures Join(dest, name) == dest + "/" + a + "/" + b
    ensures PassesZipSlipGuard(dest, name)
  {
    var r := [dest, a, b];
    InnerEntrySegs(dest, name, a, b);
    GuardIff(dest, name);
    assert r[..1] == [dest];
    JoinResolves(dest, name);
    assert r[1..] == [a, b];
    assert JoinSlash(r) == dest + "/" + JoinSlash([a, b]);
    assert JoinSlash([a, b]) == a + "/" + b;
  }

  /** The guard judges the resolved path, not the name: under a one-name
      destination d the entry "../d/b" comes back inside and is accepted. */
  lemma ReturningEntryAccepted(dest: string, name: string, b: string)
    requires ProperName(dest) && ProperName(b)
    requires Split(name) == ["..", dest, b]
    ensures PassesZipSlipGuard(dest, name)
    ensures Join(dest, name) == dest + "/" + b
  {
    OneNameDest(dest);
    assert Step([dest], "..", false) == [];
    assert ["..", dest, b][1..] == [dest, b];
    assert Resolve([dest], [b], false) == [dest, b];
    assert [dest, b][1..] == [b];
    assert Step([], dest, false) == [dest];
    assert Resolve([], [dest, b], false) == Resolve([dest], [b], false);
    var r := JoinedSegs(dest, name);
    assert r == Resolve([], [dest, b], false) == [dest, b];
    GuardIff(dest, name);
    JoinResolves(dest, name);
    assert JoinSlash([dest, b]) == dest + "/" + b;
  }

  /** The names themselves: "", ".", "a/..", "../x" and "a/b" split into the
      segments the lemmas above take. */
  lemma LiteralNames()
    ensures Split("") == [""]
    ensures Split(".") == ["."]
    ensures Split("a/..") == ["a", ".."]
    ensures Split("../x") == ["..", "x"]
    ensures Split("a/b") == ["a", "b"]
  {
    SplitLiteral(".", ["."]);
    assert JoinSlash(["a", ".."]) == "a/..";
    SplitLiteral("a/..", ["a", ".."]);
    assert JoinSlash(["..", "x"]) == "../x";
    SplitLiteral("../x", ["..", "x"]);
    assert JoinSlash(["a", "b"]) == "a/b";
    SplitLiteral("a/b", ["a", "b"]);
  }

  /** The program extracts into "ignore": "../x", "", ".", "a/.." are refused
      and "a/b" is accepted. */
  lemma IgnoreDestExamples()
    ensures !PassesZipSlipGuard("ignore", "../x") && Join("ignore", "../x") == "x"
    ensures !PassesZipSlipGuard("ignore", "")
    ensures !PassesZipSlipGuard("ignore", ".")
    ensures !PassesZipSlipGuard("ignore", "a/..")
    ensures PassesZipSlipGuard("ignore", "a/b")
  {
    LiteralNames();
    ParentEntryRejected("ignore", "../x", "x");
    CollapsingEntryRejected("ignore", "", "a");
    CollapsingEntryRejected("ignore", ".", "a");
    CollapsingEntryRejected("ignore", "a/..", "a");
    InnerEntryAccepted("ignore", "a/b", "a", "b");
  }

  // ---------------------------------------------------------------------------
  // Base, Dir and the flattened merge target

  lemma {:induction false} LastSegmentAfterSlash(x: string, b: string)
    requires '/' !in b
    ensures LastSegment(x + "/" + b) == b
  {
    var p := x + "/" + b;
    if b != [] {
      var b' := b[..|b| - 1];
      assert p[..|p| - 1] == x + "/" + b';
      assert p[|p| - 1] == b[|b| - 1];
      LastSegmentAfterSlash(x, b');
      assert b' + [b[|b| - 1]] == b;
    }
  }

  lemma {:induction false} LastSegmentNoSlash(b: string)
    requires '/' !in b
    ensures LastSegment(b) == b
  {
    if b != [] {
      var b' := b[..|b| - 1];
      LastSegmentNoSlash(b');
      assert b' + [b[|b| - 1]] == b;
    }
  }

  /** A rendered clean list ending in the name b is "<parent>/b" or b alone. */
  lemma RenderChild(rooted: bool, segs: seq<string>, b: string)
    requires ProperName(b)
    ensures var p := Render(rooted, segs + [b]);
      (!rooted && segs == [] && p == b) ||
      (rooted && segs == [] && p == "" + "/" + b) ||
      (segs != [] && p == Render(rooted, segs) + "/" + b)
  {
    if segs != [] {
      JoinSlashSnoc(segs, b);
    } else {
      assert segs + [b] == [b];
    }
  }

  /** Base recovers the last proper name of a rendered path. */
  lemma BaseOfChild(rooted: bool, segs: seq<string>, b: string)
    requires ProperName(b)
    ensures Base(Render(rooted, segs + [b])) == b
  {
    RenderChild(rooted, segs, b);
    var p := Render(rooted, segs + [b]);
    assert p[|p| - 1] == b[|b| - 1];
    assert TrimTrailingSlashes(p) == p;
    if !rooted && segs == [] {
      LastSegmentNoSlash(b);
    } else if rooted && segs == [] {
      LastSegmentAfterSlash("", b);
    } else {
      LastSegmentAfterSlash(Render(rooted, segs), b);
    }
  }

  lemma DirAfterSlash(x: string, b: string)
    requires '/' !in b
    ensures Dir(x + "/" + b) == Clean(x + "/")
  {
    var p := x + "/" + b;
    LastSegmentAfterSlash(x, b);
    assert p[..|p| - |b|] == x + "/";
  }

  /** A separator after a clean path is cleaned away again. */
  lemma CleanTrailingSlash(rooted: bool, segs: seq<string>)
    requires segs != [] && CleanStack(segs, rooted)
    ensures Clean(Render(rooted, segs) + "/") == Render(rooted, segs)
  {
    var q := Render(rooted, segs);
    RenderSegs(rooted, segs);
    assert q + "/" == q + "/" + "";
    SplitAround(q, "");
    assert Split("") == [""];
    ResolveAppend([], Split(q), [""], Rooted(q));
    assert (q + "/")[0] == q[0];
  }

  lemma DirOfTopName(b: string)
    requires ProperName(b)
    ensures Dir(b) == "."
  {
    LastSegmentNoSlash(b);
    assert b[..|b| - |b|] == "";
    assert Split("") == [""];
  }

  lemma DirOfRootChild(b: string)
    requires ProperName(b)
    ensures Dir("/" + b) == "/"
  {
    DirAfterSlash("", b);
    assert "" + "/" + b == "/" + b;
    LastSegmentAfterSlash("", b);
    assert Split("/") == [""] + Split("");
  }

  /** Dir of a rendered clean path is the rendered path of its parent. */
  lemma DirOfChild(rooted: bool, segs: seq<string>, b: string)
    requires ProperName(b) && CleanStack(segs + [b], rooted)
    ensures Dir(Render(rooted, segs + [b])) == Render(rooted, segs)
  {
    RenderChild(rooted, segs, b);
    if !rooted && segs == [] {
      DirOfTopName(b);
    } else if rooted && segs == [] {
      DirOfRootChild(b);
    } else {
      PrefixClean(segs + [b], rooted, |segs|);
      assert (segs + [b])[..|segs|] == segs;
      DirAfterSlash(Render(rooted, segs), b);
      CleanTrailingSlash(rooted, segs);
    }
  }

  /** The target Join(to, b) of a proper name b lies directly in Clean(to) and
      keeps b as its base name. */
  lemma JoinChild(to: string, b: string)
    requires ProperName(b)
    ensures Base(Join(to, b)) == b
    ensures Dir(Join(to, b)) == Clean(to)
    ensures Join(to, b) == Render(Rooted(to), CleanSegs(to) + [b])
  {
    var d := CleanSegs(to);
    CleanSegsClean(to);
    assert CleanStack(d + [b], Rooted(to));
    SplitNoSlash(b);
    if to == "" {
      assert Resolve([], [b], false) == [b];
      assert CleanSegs(b) == [b];
      assert d == [];
      assert Rooted(b) == false;
    } else {
      JoinResolves(to, b);
      assert JoinedSegs(to, b) == Resolve(d, [b], Rooted(to)) == d + [b];
    }
    BaseOfChild(Rooted(to), d, b);
    DirOfChild(Rooted(to), d, b);
  }

  /** Two different proper names never share a flattened target. */
  lemma JoinChildInjective(to: string, b1: string, b2: string)
    requires ProperName(b1) && ProperName(b2) && b1 != b2
    ensures Join(to, b1) != Join(to, b2)
  {
    JoinChild(to, b1);
    JoinChild(to, b2);
  }
}
