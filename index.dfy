/** The existence index of the installer: a walk over every path to check,
    recording each non-directory entry (a regular file, but also a symbolic
    link, device or pipe) by its base name, so that the merge can skip
    files that already exist somewhere. */
module ExistenceIndex {
  import opened Paths

  /** What filepath.Walk hands its callback, in walk order: a visited path with
      whether it is a directory and its absolute form (filepath.Abs, its error
      ignored, so possibly ""), or an error, which the callback returns and
      which ends the walk of that root. */
  datatype WalkEvent = Visit(path: string, isDir: bool, abs: string) | WalkError(path: string)

  /** strings.Contains(s, t). */
  predicate Contains(s: string, t: string)
    decreases |s|
  {
    HasPrefix(s, t) || (s != [] && Contains(s[1..], t))
  }

  const IgnoreMarker: string := "/ignore/"

  /** A visit the callback records: not a directory, and not under a
      directory named "ignore". */
  predicate Counted(ev: WalkEvent) {
    ev.Visit? && !ev.isDir && !Contains(ev.abs, IgnoreMarker)
  }

  /** The callback on one event, as a change of the index. */
  function Record(index: map<string, string>, ev: WalkEvent): map<string, string> {
    if Counted(ev) then index[Base(ev.path) := ev.path] else index
  }

  /** One root's walk: events in order until the first error. */
  function IndexWalk(index: map<string, string>, events: seq<WalkEvent>): map<string, string>
    decreases |events|
  {
    if events == [] || events[0].WalkError? then index
    else IndexWalk(Record(index, events[0]), events[1..])
  }

  /** The loop over the paths to check: a failed walk is reported and the loop
      goes on with the next root, keeping what was recorded. */
  function IndexRoots(index: map<string, string>, walks: seq<seq<WalkEvent>>): map<string, string>
    decreases |walks|
  {
    if walks == [] then index else IndexRoots(IndexWalk(index, walks[0]), walks[1..])
  }

  function IndexOf(walks: seq<seq<WalkEvent>>): map<string, string> {
    IndexRoots(map[], walks)
  }

  /** The index builder of run(). */
  method BuildIndex(walks: seq<seq<WalkEvent>>) returns (index: map<string, string>)
    ensures index == IndexOf(walks)
  {
    index := map[];
    var r := 0;
    while r < |walks|
      invariant 0 <= r <= |walks|
      invariant IndexRoots(index, walks[r..]) == IndexOf(walks)
    {
      var events := walks[r];
      ghost var before := index;
      var j := 0;
      while j < |events| && !events[j].WalkError?
        invariant 0 <= j <= |events|
        invariant IndexWalk(index, events[j..]) == IndexWalk(before, events)
      {
        var ev := events[j];
        assert events[j..][1..] == events[j + 1..];
        if !ev.isDir && !Contains(ev.abs, IgnoreMarker) {
          index := index[Base(ev.path) := ev.path];
        }
        j := j + 1;
      }
      assert walks[r..][1..] == walks[r + 1..];
      r := r + 1;
    }
  }

  // ---------------------------------------------------------------------------
  // A reference definition: the last recorded path per base name

  /** The counted visits of one walk before its first error. */
  function EligibleInWalk(events: seq<WalkEvent>): (paths: seq<string>)
    decreases |events|
  {
    if events == [] || events[0].WalkError? then []
    else (if Counted(events[0]) then [events[0].path] else []) + EligibleInWalk(events[1..])
  }

  /** The counted visits of all walks, roots in order. */
  function Eligible(walks: seq<seq<WalkEvent>>): seq<string>
    decreases |walks|
  {
    if walks == [] then [] else EligibleInWalk(walks[0]) + Eligible(walks[1..])
  }

  /** Recording paths one after the other, each under its base name. */
  function RecordAll(index: map<string, string>, paths: seq<string>): map<string, string>
    decreases |paths|
  {
    if paths == [] then index else RecordAll(index[Base(paths[0]) := paths[0]], paths[1..])
  }

  lemma {:induction false} RecordAllAppend(index: map<string, string>, a: seq<string>, b: seq<string>)
    ensures RecordAll(index, a + b) == RecordAll(RecordAll(index, a), b)
    decreases |a|
  {
    if a == [] {
      assert a + b == b;
    } else {
      assert (a + b)[0] == a[0] && (a + b)[1..] == a[1..] + b;
      RecordAllAppend(index[Base(a[0]) := a[0]], a[1..], b);
    }
  }

  lemma {:induction false} IndexWalkRecordsEligible(index: map<string, string>, events: seq<WalkEvent>)
    ensures IndexWalk(index, events) == RecordAll(index, EligibleInWalk(events))
    decreases |events|
  {
    if events != [] && !events[0].WalkError? {
      IndexWalkRecordsEligible(Record(index, events[0]), events[1..]);
      var head := if Counted(events[0]) then [events[0].path] else [];
      assert EligibleInWalk(events) == head + EligibleInWalk(events[1..]);
      RecordAllAppend(index, head, EligibleInWalk(events[1..]));
      if Counted(events[0]) {
        assert head[1..] == [];
        assert RecordAll(index, head) == Record(index, events[0]);
      } else {
        assert head + EligibleInWalk(events[1..]) == EligibleInWalk(events[1..]);
      }
    }
  }

  lemma {:induction false} IndexRootsRecordsEligible(index: map<string, string>, walks: seq<seq<WalkEvent>>)
    ensures IndexRoots(index, walks) == RecordAll(index, Eligible(walks))
    decreases |walks|
  {
    if walks != [] {
      IndexWalkRecordsEligible(index, walks[0]);
      IndexRootsRecordsEligible(IndexWalk(index, walks[0]), walks[1..]);
      RecordAllAppend(index, EligibleInWalk(walks[0]), Eligible(walks[1..]));
    }
  }

  /** The index is the eligible paths recorded in walk order, each under its
      base name: a walk that fails loses only its own events from the error on. */
  lemma IndexIsLastEligible(walks: seq<seq<WalkEvent>>)
    ensures IndexOf(walks) == RecordAll(map[], Eligible(walks))
  {
    IndexRootsRecordsEligible(map[], walks);
  }

  /** Last visit wins: a path recorded with no later path of the same base name
      is the one the index keeps. */
  lemma {:induction false} RecordAllLastWins(index: map<string, string>, paths: seq<string>, j: nat)
    requires j < |paths|
    requires forall k :: j < k < |paths| ==> Base(paths[k]) != Base(paths[j])
    ensures Base(paths[j]) in RecordAll(index, paths)
    ensures RecordAll(index, paths)[Base(paths[j])] == paths[j]
    decreases |paths|
  {
    if j == 0 {
      RecordAllUntouched(index[Base(paths[0]) := paths[0]], paths[1..], Base(paths[0]));
    } else {
      forall k | j - 1 < k < |paths[1..]| ensures Base(paths[1..][k]) != Base(paths[1..][j - 1]) {
        assert paths[1..][k] == paths[k + 1];
      }
      RecordAllLastWins(index[Base(paths[0]) := paths[0]], paths[1..], j - 1);
    }
  }

  /** A base name no recorded path has keeps its old entry, or stays absent. */
  lemma {:induction false} RecordAllUntouched(index: map<string, string>, paths: seq<string>, key: string)
    requires forall k :: 0 <= k < |paths| ==> Base(paths[k]) != key
    ensures key in RecordAll(index, paths) <==> key in index
    ensures key in index ==> RecordAll(index, paths)[key] == index[key]
    decreases |paths|
  {
    if paths != [] {
      forall k | 0 <= k < |paths[1..]| ensures Base(paths[1..][k]) != key {
        assert paths[1..][k] == paths[k + 1];
      }
      RecordAllUntouched(index[Base(paths[0]) := paths[0]], paths[1..], key);
    }
  }

  /** Every entry of the index is a recorded path filed under its own base name. */
  lemma {:induction false} RecordAllValues(index: map<string, string>, paths: seq<string>, key: string)
    requires key in RecordAll(index, paths)
    ensures var v := RecordAll(index, paths)[key];
      (key in index && v == index[key]) || (v in paths && Base(v) == key)
    decreases |paths|
  {
    if paths != [] {
      RecordAllValues(index[Base(paths[0]) := paths[0]], paths[1..], key);
    }
  }

  /** A path is eligible exactly when it is a counted visit of some root that
      comes before every error of that root. */
  lemma {:induction false} EligibleInWalkIff(events: seq<WalkEvent>, p: string)
    ensures p in EligibleInWalk(events) <==>
      exists j :: 0 <= j < |events| && Counted(events[j]) && events[j].path == p && NoErrorBefore(events, j)
    decreases |events|
  {
    if events != [] && !events[0].WalkError? {
      EligibleInWalkIff(events[1..], p);
      if p in EligibleInWalk(events[1..]) {
        var j :| 0 <= j < |events[1..]| && Counted(events[1..][j]) && events[1..][j].path == p && NoErrorBefore(events[1..], j);
        assert NoErrorBefore(events, j + 1);
      }
      if exists j :: 0 <= j < |events| && Counted(events[j]) && events[j].path == p && NoErrorBefore(events, j) {
        var j :| 0 <= j < |events| && Counted(events[j]) && events[j].path == p && NoErrorBefore(events, j);
        if j > 0 {
          assert Counted(events[1..][j - 1]) && NoErrorBefore(events[1..], j - 1);
        }
      }
    } else if events != [] {
      assert !NoErrorBefore(events, 1);
    }
  }

  /** No error among the events before index j. */
  predicate NoErrorBefore(events: seq<WalkEvent>, j: nat)
    requires j <= |events|
  {
    forall k :: 0 <= k < j ==> !events[k].WalkError?
  }

  /** A recorded path's base name is in the index. */
  lemma {:induction false} RecordAllHasKey(index: map<string, string>, paths: seq<string>, p: string)
    requires p in paths
    ensures Base(p) in RecordAll(index, paths)
    decreases |paths|
  {
    if paths[0] == p {
      RecordAllKeepsKeys(index[Base(p) := p], paths[1..], Base(p));
    } else {
      RecordAllHasKey(index[Base(paths[0]) := paths[0]], paths[1..], p);
    }
  }

  lemma {:induction false} RecordAllKeepsKeys(index: map<string, string>, paths: seq<string>, key: string)
    requires key in index
    ensures key in RecordAll(index, paths)
    decreases |paths|
  {
    if paths != [] {
      RecordAllKeepsKeys(index[Base(paths[0]) := paths[0]], paths[1..], key);
    }
  }

  /** A path is eligible exactly when some root's walk reaches it as a counted
      visit before any error of that root. */
  lemma {:induction false} EligibleIff(walks: seq<seq<WalkEvent>>, p: string)
    ensures p in Eligible(walks) <==>
      (exists r, j :: 0 <= r < |walks| && 0 <= j < |walks[r]| &&
        Counted(walks[r][j]) && walks[r][j].path == p && NoErrorBefore(walks[r], j))
    decreases |walks|
  {
    if walks != [] {
      EligibleIff(walks[1..], p);
      EligibleInWalkIff(walks[0], p);
      if exists r, j ::
           0 <= r < |walks| && 0 <= j < |walks[r]| &&
           Counted(walks[r][j]) && walks[r][j].path == p && NoErrorBefore(walks[r], j)
      {
        var r, j :| 0 <= r < |walks| && 0 <= j < |walks[r]| &&
          Counted(walks[r][j]) && walks[r][j].path == p && NoErrorBefore(walks[r], j);
        if r > 0 {
          assert walks[1..][r - 1] == walks[r];
        }
      }
      if p in Eligible(walks[1..]) {
        var r, j :| 0 <= r < |walks[1..]| && 0 <= j < |walks[1..][r]| &&
          Counted(walks[1..][r][j]) && walks[1..][r][j].path == p && NoErrorBefore(walks[1..][r], j);
        assert walks[1..][r] == walks[r + 1];
      }
    }
  }

  /** Soundness of the index: every entry is a path filed under its own base
      name, reached by the walk of some root as a counted visit (not a
      directory, not under "ignore") before any error of that root. */
  lemma IndexEntriesAreCountedVisits(walks: seq<seq<WalkEvent>>, key: string)
    requires key in IndexOf(walks)
    ensures var v := IndexOf(walks)[key];
      && Base(v) == key
      && exists r, j :: 0 <= r < |walks| && 0 <= j < |walks[r]| &&
           Counted(walks[r][j]) && walks[r][j].path == v && NoErrorBefore(walks[r], j)
  {
    IndexIsLastEligible(walks);
    RecordAllValues(map[], Eligible(walks), key);
    EligibleIff(walks, IndexOf(walks)[key]);
  }

  /** Completeness of the index: every counted visit a root's walk reaches
      before its first error has its base name in the index. */
  lemma IndexHasEveryCountedVisit(walks: seq<seq<WalkEvent>>, r: nat, j: nat)
    requires r < |walks| && j < |walks[r]|
    requires Counted(walks[r][j]) && NoErrorBefore(walks[r], j)
    ensures Base(walks[r][j].path) in IndexOf(walks)
  {
    IndexIsLastEligible(walks);
    EligibleIff(walks, walks[r][j].path);
    RecordAllHasKey(map[], Eligible(walks), walks[r][j].path);
  }

  /** A path every visit of which is a directory or lies under "ignore" is
      never a value of the index. */
  lemma IgnoredPathNeverRecorded(walks: seq<seq<WalkEvent>>, p: string)
    requires forall r, j :: 0 <= r < |walks| && 0 <= j < |walks[r]| && walks[r][j].Visit? && walks[r][j].path == p ==>
      walks[r][j].isDir || Contains(walks[r][j].abs, IgnoreMarker)
    ensures forall key :: key in IndexOf(walks) ==> IndexOf(walks)[key] != p
  {
    forall key | key in IndexOf(walks) ensures IndexOf(walks)[key] != p {
      IndexEntriesAreCountedVisits(walks, key);
    }
  }

  /** Last visit wins: among the eligible paths in walk order, the last one
      with a given base name is the one the index keeps. */
  lemma IndexKeepsLastVisit(walks: seq<seq<WalkEvent>>, j: nat)
    requires j < |Eligible(walks)|
    requires forall k :: j < k < |Eligible(walks)| ==> Base(Eligible(walks)[k]) != Base(Eligible(walks)[j])
    ensures var p := Eligible(walks)[j]; Base(p) in IndexOf(walks) && IndexOf(walks)[Base(p)] == p
  {
    IndexIsLastEligible(walks);
    RecordAllLastWins(map[], Eligible(walks), j);
  }

  lemma {:induction false} IndexWalkStopsAtError(index: map<string, string>, pre: seq<WalkEvent>, p: string, post: seq<WalkEvent>)
    ensures IndexWalk(index, pre + [WalkError(p)] + post) == IndexWalk(index, pre)
    decreases |pre|
  {
    if pre == [] {
      assert (pre + [WalkError(p)] + post)[0] == WalkError(p);
    } else {
      var all := pre + [WalkError(p)] + post;
      assert all[0] == pre[0] && all[1..] == pre[1..] + [WalkError(p)] + post;
      if !pre[0].WalkError? {
        IndexWalkStopsAtError(Record(index, pre[0]), pre[1..], p, post);
      }
    }
  }

  lemma {:induction false} IndexRootsAppend(index: map<string, string>, a: seq<seq<WalkEvent>>, b: seq<seq<WalkEvent>>)
    ensures IndexRoots(index, a + b) == IndexRoots(IndexRoots(index, a), b)
    decreases |a|
  {
    if a == [] {
      assert a + b == b;
    } else {
      assert (a + b)[0] == a[0] && (a + b)[1..] == a[1..] + b;
      IndexRootsAppend(IndexWalk(index, a[0]), a[1..], b);
    }
  }

  /** A walk error is local to its root: the roots before it, the events of
      its own root before the error and every later root are all recorded; only
      the events after the error are lost. */
  lemma WalkErrorIsLocal(a: seq<seq<WalkEvent>>, pre: seq<WalkEvent>, p: string, post: seq<WalkEvent>, b: seq<seq<WalkEvent>>)
    ensures IndexOf(a + [pre + [WalkError(p)] + post] + b) == IndexRoots(IndexWalk(IndexOf(a), pre), b)
  {
    var w := pre + [WalkError(p)] + post;
    IndexRootsAppend(map[], a, [w] + b);
    assert a + [w] + b == a + ([w] + b);
    assert ([w] + b)[0] == w && ([w] + b)[1..] == b;
    IndexWalkStopsAtError(IndexOf(a), pre, p, post);
  }
}
