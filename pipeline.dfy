/**
 * `process_base_dir` (dd.py:64-116) for one configured root, and the loop
 * of `main` (dd.py:130-132) over all roots with one compiled pattern dict.
 */
module Pipeline {
  import opened Wrappers
  import opened Seqs
  import opened Keys
  import opened Grouping
  import opened Sorting
  import opened Scoring
  import opened Selection
  import opened FileSystems

  /**
   * A configured root: its path and the entries `iterdir` yields for it, or
   * `None` when `iterdir` raises (the path names a file, or the directory
   * cannot be read).
   */
  datatype Root = Root(path: Path, listing: Option<seq<Entry>>)

  /** What is printed for one group of duplicates: its key and the actions. */
  datatype Report = Report(key: string, actions: seq<Action>)

  /**
   * A root that does not exist is reported and skipped. A root whose listing
   * raises ends `main` with the exception: no later root is processed.
   */
  datatype Outcome = Missing | Aborted | Processed(reports: seq<Report>)

  /** `[d for d in base_dir.iterdir() if d.is_dir()]`. */
  function Subdirs(listing: seq<Entry>): (r: seq<Entry>)
    ensures forall x :: x in r <==> x in listing && x.isDir
  {
    if listing == [] then []
    else
      var p := listing[..|listing| - 1];
      var d := listing[|listing| - 1];
      assert forall x :: x in listing <==> x in p || x == d;
      Subdirs(p) + (if d.isDir then [d] else [])
  }

  /** Positions, in listing order, of the entries that are directories. */
  function SubdirIndices(listing: seq<Entry>): (r: seq<nat>)
    ensures forall a :: 0 <= a < |r| ==> r[a] < |listing| && listing[r[a]].isDir
    ensures forall a, b :: 0 <= a < b < |r| ==> r[a] < r[b]
    ensures forall i :: 0 <= i < |listing| && listing[i].isDir ==> i in r
  {
    if listing == [] then []
    else SubdirIndices(listing[..|listing| - 1]) + (if listing[|listing| - 1].isDir then [|listing| - 1] else [])
  }

  /**
   * The comprehension keeps listing order: the directories are the entries
   * at the increasing positions `SubdirIndices`, one per such position.
   */
  lemma {:induction false} SubdirsIsOrderedSelection(listing: seq<Entry>)
    ensures |Subdirs(listing)| == |SubdirIndices(listing)|
    ensures forall a :: 0 <= a < |Subdirs(listing)| ==> Subdirs(listing)[a] == listing[SubdirIndices(listing)[a]]
  {
    if listing != [] {
      var p := listing[..|listing| - 1];
      var d := listing[|listing| - 1];
      SubdirsIsOrderedSelection(p);
      var r, idx := Subdirs(listing), SubdirIndices(listing);
      assert r == Subdirs(p) + (if d.isDir then [d] else []);
      assert idx == SubdirIndices(p) + (if d.isDir then [|listing| - 1] else []);
      forall a | 0 <= a < |r| ensures r[a] == listing[idx[a]] {
        if a < |Subdirs(p)| {
          assert r[a] == Subdirs(p)[a] && idx[a] == SubdirIndices(p)[a];
        }
      }
    }
  }

  /** Filtering a listing keeps its paths distinct. */
  lemma {:induction false} SubdirsDistinct(listing: seq<Entry>)
    requires DistinctPaths(listing)
    ensures DistinctPaths(Subdirs(listing))
  {
    if listing != [] {
      var p := listing[..|listing| - 1];
      var d := listing[|listing| - 1];
      assert DistinctPaths(p);
      SubdirsDistinct(p);
      forall x | x in Subdirs(p) ensures x.path != d.path {
        var j :| 0 <= j < |p| && p[j] == x;
      }
    }
  }

  /** A group is a selection of a listing, so its paths are distinct too. */
  lemma GroupDistinct(dirs: seq<Entry>, k: string)
    requires DistinctPaths(dirs)
    ensures DistinctPaths(Group(Info(dirs), k))
  {
    var info := Info(dirs);
    GroupIsOrderedSelection(info, k);
    var idx := GroupIndices(info, k);
    var g := Group(info, k);
    forall a, b | 0 <= a < b < |g| ensures g[a].path != g[b].path {
      assert g[a] == dirs[idx[a]] && g[b] == dirs[idx[b]];
    }
  }

  /** `sorted(grouped_dirs.keys())`: every key once, in increasing order. */
  function SortedKeys(info: seq<(Entry, string)>): (r: seq<string>)
    ensures forall k :: k in r <==> k in KeyList(info)
    ensures forall a, b :: 0 <= a < b < |r| ==> StrLess(r[a], r[b])
  {
    SortStrings(Dedup(KeyList(info)))
  }

  /**
   * The loop at dd.py:84-116 over the sorted keys still to visit, each
   * group seeing the directories left by the groups before it.
   */
  function Reports(info: seq<(Entry, string)>, keys: seq<string>, cfg: Settings, present: set<Path>, undeletable: set<Path>): seq<Report>
    decreases |keys|
  {
    if keys == [] then []
    else
      var g := Group(info, keys[0]);
      if |g| > 1 then
        var log := GroupLog(g, cfg, present, undeletable);
        [Report(keys[0], log)] + Reports(info, keys[1..], cfg, present - DeletedPaths(log), undeletable)
      else Reports(info, keys[1..], cfg, present, undeletable)
  }

  /** `process_base_dir` on a root, given the directories present when it starts. */
  function RootOutcome(root: Root, cfg: Settings, present: set<Path>, undeletable: set<Path>): Outcome {
    if root.path !in present then Missing
    else if root.listing.None? then Aborted
    else
      var info := Info(Subdirs(root.listing.value));
      Processed(Reports(info, SortedKeys(info), cfg, present, undeletable))
  }

  function ReportsDeleted(reports: seq<Report>): set<Path>
    decreases |reports|
  {
    if reports == [] then {} else DeletedPaths(reports[0].actions) + ReportsDeleted(reports[1..])
  }

  /** The directories removed while processing a root. */
  function OutcomeDeleted(out: Outcome): set<Path> {
    if out.Processed? then ReportsDeleted(out.reports) else {}
  }

  /**
   * Every report belongs to a group of more than one directory and is that
   * group's log, computed on the directories that exist at its turn: those
   * present at the start less those the reports before it removed.
   */
  lemma {:induction false} ReportsAreGroupLogs(info: seq<(Entry, string)>, keys: seq<string>, cfg: Settings, present: set<Path>, undeletable: set<Path>, a: nat)
    requires a < |Reports(info, keys, cfg, present, undeletable)|
    ensures |Group(info, Reports(info, keys, cfg, present, undeletable)[a].key)| > 1
    ensures Reports(info, keys, cfg, present, undeletable)[a].actions
      == GroupLog(Group(info, Reports(info, keys, cfg, present, undeletable)[a].key), cfg,
                  present - ReportsDeleted(Reports(info, keys, cfg, present, undeletable)[..a]), undeletable)
    decreases |keys|
  {
    var g := Group(info, keys[0]);
    if |g| <= 1 {
      ReportsAreGroupLogs(info, keys[1..], cfg, present, undeletable, a);
    } else {
      var log := GroupLog(g, cfg, present, undeletable);
      var p2 := present - DeletedPaths(log);
      var rest := Reports(info, keys[1..], cfg, p2, undeletable);
      var rs := Reports(info, keys, cfg, present, undeletable);
      assert rs == [Report(keys[0], log)] + rest;
      if a > 0 {
        ReportsAreGroupLogs(info, keys[1..], cfg, p2, undeletable, a - 1);
        DeletedBeforeCons(rs, rest, Report(keys[0], log), a, present);
      } else {
        assert ReportsDeleted(rs[..0]) == {};
        assert present - ReportsDeleted(rs[..0]) == present;
      }
    }
  }

  /** What the reports before place `a` removed, when one report comes first. */
  lemma DeletedBeforeCons(rs: seq<Report>, rest: seq<Report>, r0: Report, a: nat, present: set<Path>)
    requires rs == [r0] + rest && 0 < a <= |rs|
    ensures present - ReportsDeleted(rs[..a]) == (present - DeletedPaths(r0.actions)) - ReportsDeleted(rest[..a - 1])
  {
    assert rs[..a][0] == r0 && rs[..a][1..] == rest[..a - 1];
  }

  /**
   * Each report lists exactly the directories of its key's group, each
   * once: a listed directory appears in a report exactly when the report's
   * key is the directory's own key.
   */
  lemma ReportHoldsItsGroup(dirs: seq<Entry>, keys: seq<string>, cfg: Settings, present: set<Path>, undeletable: set<Path>, a: nat)
    requires DistinctPaths(dirs)
    requires a < |Reports(Info(dirs), keys, cfg, present, undeletable)|
    ensures var r := Reports(Info(dirs), keys, cfg, present, undeletable)[a];
      && multiset(Dirs(r.actions)) == multiset(Group(Info(dirs), r.key))
      && forall x :: x in Dirs(r.actions) <==> x in dirs && CanonicalKey(x) == r.key
  {
    var r := Reports(Info(dirs), keys, cfg, present, undeletable)[a];
    var g := Group(Info(dirs), r.key);
    ReportsAreGroupLogs(Info(dirs), keys, cfg, present, undeletable, a);
    var p := present - ReportsDeleted(Reports(Info(dirs), keys, cfg, present, undeletable)[..a]);
    GroupDistinct(dirs, r.key);
    GroupLogCoversGroup(g, cfg, p, undeletable);
    forall x ensures x in Dirs(r.actions) <==> x in dirs && CanonicalKey(x) == r.key {
      InfoPartition(dirs, r.key, x);
      assert x in Dirs(r.actions) <==> multiset(Dirs(r.actions))[x] > 0;
      assert x in dirs <==> multiset(dirs)[x] > 0;
    }
  }

  /** The keys still to visit whose group holds more than one directory, in visiting order. */
  function LargeKeys(info: seq<(Entry, string)>, keys: seq<string>): seq<string>
    decreases |keys|
  {
    if keys == [] then []
    else (if |Group(info, keys[0])| > 1 then [keys[0]] else []) + LargeKeys(info, keys[1..])
  }

  /** The reports carry, in order, exactly the keys of the groups with more than one directory. */
  lemma {:induction false} ReportKeys(info: seq<(Entry, string)>, keys: seq<string>, cfg: Settings, present: set<Path>, undeletable: set<Path>)
    ensures |Reports(info, keys, cfg, present, undeletable)| == |LargeKeys(info, keys)|
    ensures forall a :: 0 <= a < |LargeKeys(info, keys)| ==> Reports(info, keys, cfg, present, undeletable)[a].key == LargeKeys(info, keys)[a]
    decreases |keys|
  {
    if keys != [] {
      var g := Group(info, keys[0]);
      var rs := Reports(info, keys, cfg, present, undeletable);
      if |g| > 1 {
        var log := GroupLog(g, cfg, present, undeletable);
        var p2 := present - DeletedPaths(log);
        ReportKeys(info, keys[1..], cfg, p2, undeletable);
        var rest := Reports(info, keys[1..], cfg, p2, undeletable);
        assert rs == [Report(keys[0], log)] + rest;
        assert LargeKeys(info, keys) == [keys[0]] + LargeKeys(info, keys[1..]);
        KeysCons(rs, rest, LargeKeys(info, keys), LargeKeys(info, keys[1..]), Report(keys[0], log));
      } else {
        ReportKeys(info, keys[1..], cfg, present, undeletable);
        assert rs == Reports(info, keys[1..], cfg, present, undeletable);
        assert LargeKeys(info, keys) == LargeKeys(info, keys[1..]);
      }
    }
  }

  /** Putting one report in front of a list of reports puts its key in front of their keys. */
  lemma KeysCons(rs: seq<Report>, rest: seq<Report>, l: seq<string>, lrest: seq<string>, r0: Report)
    requires rs == [r0] + rest && l == [r0.key] + lrest
    requires |rest| == |lrest| && forall a :: 0 <= a < |lrest| ==> rest[a].key == lrest[a]
    ensures |rs| == |l| && forall a :: 0 <= a < |l| ==> rs[a].key == l[a]
  {
    forall a | 0 < a < |l| ensures rs[a].key == l[a] {
      assert rs[a] == rest[a - 1] && l[a] == lrest[a - 1];
    }
  }

  /** Filtering the sorted keys keeps them sorted, and keeps exactly the keys of large groups. */
  lemma {:induction false} LargeKeysSorted(info: seq<(Entry, string)>, keys: seq<string>)
    requires forall a, b :: 0 <= a < b < |keys| ==> StrLess(keys[a], keys[b])
    ensures forall k :: k in LargeKeys(info, keys) <==> k in keys && |Group(info, k)| > 1
    ensures forall a, b :: 0 <= a < b < |LargeKeys(info, keys)| ==> StrLess(LargeKeys(info, keys)[a], LargeKeys(info, keys)[b])
    decreases |keys|
  {
    if keys != [] {
      var rest := LargeKeys(info, keys[1..]);
      LargeKeysSorted(info, keys[1..]);
      assert forall k :: k in keys <==> k == keys[0] || k in keys[1..];
      assert forall k :: k in keys[1..] ==> StrLess(keys[0], k);
      if |Group(info, keys[0])| > 1 {
        var l := LargeKeys(info, keys);
        assert l == [keys[0]] + rest;
        forall a, b | 0 <= a < b < |l| ensures StrLess(l[a], l[b]) {
          assert l[b] == rest[b - 1];
          if a > 0 {
            assert l[a] == rest[a - 1];
          }
        }
      }
    }
  }

  /** The reports follow the order of the keys, which `sorted` made strictly increasing. */
  lemma ReportsSorted(info: seq<(Entry, string)>, keys: seq<string>, cfg: Settings, present: set<Path>, undeletable: set<Path>)
    requires forall a, b :: 0 <= a < b < |keys| ==> StrLess(keys[a], keys[b])
    ensures forall a, b :: 0 <= a < b < |Reports(info, keys, cfg, present, undeletable)| ==>
      StrLess(Reports(info, keys, cfg, present, undeletable)[a].key, Reports(info, keys, cfg, present, undeletable)[b].key)
  {
    ReportKeys(info, keys, cfg, present, undeletable);
    LargeKeysSorted(info, keys);
  }

  /**
   * Every listed key whose group holds more than one directory is
   * reported, and no report is for a group of one.
   */
  lemma ReportsComplete(info: seq<(Entry, string)>, keys: seq<string>, cfg: Settings, present: set<Path>, undeletable: set<Path>)
    requires forall a, b :: 0 <= a < b < |keys| ==> StrLess(keys[a], keys[b])
    ensures forall k :: k in keys && |Group(info, k)| > 1 ==>
      exists a :: 0 <= a < |Reports(info, keys, cfg, present, undeletable)| && Reports(info, keys, cfg, present, undeletable)[a].key == k
    ensures forall a :: 0 <= a < |Reports(info, keys, cfg, present, undeletable)| ==>
      |Group(info, Reports(info, keys, cfg, present, undeletable)[a].key)| > 1
  {
    forall a | 0 <= a < |Reports(info, keys, cfg, present, undeletable)| {
      ReportsAreGroupLogs(info, keys, cfg, present, undeletable, a);
    }
    ReportKeys(info, keys, cfg, present, undeletable);
    LargeKeysSorted(info, keys);
    forall k | k in keys && |Group(info, k)| > 1
      ensures exists a :: 0 <= a < |Reports(info, keys, cfg, present, undeletable)| && Reports(info, keys, cfg, present, undeletable)[a].key == k
    {
      var a :| 0 <= a < |LargeKeys(info, keys)| && LargeKeys(info, keys)[a] == k;
      assert Reports(info, keys, cfg, present, undeletable)[a].key == k;
    }
  }

  /** Without `--delete`, or with `--dry-run`, no report removes anything. */
  lemma {:induction false} ReportsRemoveNothing(info: seq<(Entry, string)>, keys: seq<string>, cfg: Settings, present: set<Path>, undeletable: set<Path>)
    requires !cfg.delete || cfg.dryRun
    ensures ReportsDeleted(Reports(info, keys, cfg, present, undeletable)) == {}
    decreases |keys|
  {
    if keys != [] {
      var g := Group(info, keys[0]);
      if |g| > 1 {
        GroupLogRemovesNothing(g, cfg, present, undeletable);
        assert present - DeletedPaths(GroupLog(g, cfg, present, undeletable)) == present;
      }
      ReportsRemoveNothing(info, keys[1..], cfg, present, undeletable);
    }
  }

  /** What visiting one key adds to the reports: nothing for a single directory. */
  function Visit(info: seq<(Entry, string)>, key: string, cfg: Settings, present: set<Path>, undeletable: set<Path>): seq<Report> {
    var g := Group(info, key);
    if |g| > 1 then [Report(key, GroupLog(g, cfg, present, undeletable))] else []
  }

  lemma ReportsStep(info: seq<(Entry, string)>, keys: seq<string>, i: nat, cfg: Settings, present: set<Path>, undeletable: set<Path>)
    requires i < |keys|
    ensures Reports(info, keys[i..], cfg, present, undeletable) ==
      var v := Visit(info, keys[i], cfg, present, undeletable);
      v + Reports(info, keys[i + 1..], cfg, present - ReportsDeleted(v), undeletable)
  {
    assert keys[i..][1..] == keys[i + 1..];
    var g := Group(info, keys[i]);
    var v := Visit(info, keys[i], cfg, present, undeletable);
    if |g| > 1 {
      var log := GroupLog(g, cfg, present, undeletable);
      assert v == [Report(keys[i], log)];
      assert v[1..] == [];
      assert ReportsDeleted(v) == DeletedPaths(log);
    } else {
      assert v == [];
      assert ReportsDeleted(v) == {};
      assert present - ReportsDeleted(v) == present;
    }
  }

  lemma {:induction false} ReportsDeletedAppend(a: seq<Report>, b: seq<Report>)
    ensures ReportsDeleted(a + b) == ReportsDeleted(a) + ReportsDeleted(b)
    decreases |a|
  {
    if a != [] {
      assert (a + b)[1..] == a[1..] + b;
      ReportsDeletedAppend(a[1..], b);
    } else {
      assert a + b == b;
    }
  }

  /** `process_base_dir` (dd.py:64-116). */
  method ProcessBaseDir(fs: FileSystem, root: Root, cfg: Settings) returns (out: Outcome)
    requires root.listing.Some? ==> DistinctPaths(root.listing.value)
    modifies fs
    ensures out == RootOutcome(root, cfg, old(fs.present), fs.undeletable)
    ensures fs.present == old(fs.present) - OutcomeDeleted(out)
  {
    if !fs.Exists(root.path) {
      return Missing;
    }
    if root.listing.None? {
      return Aborted;
    }
    var directories := Subdirs(root.listing.value);
    SubdirsDistinct(root.listing.value);
    var dirInfo := ComputeKeys(directories);
    var order, groups := GroupByKey(dirInfo);
    var keys := SortStrings(order);
    assert keys == SortedKeys(dirInfo);
    forall k | k in keys ensures DistinctPaths(groups[k]) {
      GroupDistinct(directories, k);
    }
    var reports := VisitGroups(fs, dirInfo, keys, groups, cfg);
    out := Processed(reports);
  }

  /** The loop at dd.py:84-116 over the sorted keys. */
  method VisitGroups(fs: FileSystem, info: seq<(Entry, string)>, keys: seq<string>, groups: map<string, seq<Entry>>, cfg: Settings)
    returns (reports: seq<Report>)
    requires forall k :: k in keys ==> k in groups && groups[k] == Group(info, k) && DistinctPaths(groups[k])
    modifies fs
    ensures reports == Reports(info, keys, cfg, old(fs.present), fs.undeletable)
    ensures fs.present == old(fs.present) - ReportsDeleted(reports)
  {
    ghost var all := Reports(info, keys, cfg, fs.present, fs.undeletable);
    reports := [];
    for i := 0 to |keys|
      invariant reports + Reports(info, keys[i..], cfg, fs.present, fs.undeletable) == all
      invariant fs.present == old(fs.present) - ReportsDeleted(reports)
    {
      ghost var before := fs.present;
      var visited := VisitGroup(fs, info, keys[i], groups[keys[i]], cfg);
      VisitStep(info, keys, i, cfg, reports, visited, old(fs.present), before, fs.present, fs.undeletable);
      reports := reports + visited;
    }
  }

  /** Visiting one more key keeps the loop of `VisitGroups` in step with `Reports`. */
  lemma VisitStep(info: seq<(Entry, string)>, keys: seq<string>, i: nat, cfg: Settings, reports: seq<Report>, visited: seq<Report>,
                  start: set<Path>, before: set<Path>, after: set<Path>, undeletable: set<Path>)
    requires i < |keys|
    requires before == start - ReportsDeleted(reports)
    requires visited == Visit(info, keys[i], cfg, before, undeletable)
    requires after == before - ReportsDeleted(visited)
    ensures reports + Reports(info, keys[i..], cfg, before, undeletable) == (reports + visited) + Reports(info, keys[i + 1..], cfg, after, undeletable)
    ensures after == start - ReportsDeleted(reports + visited)
  {
    ReportsStep(info, keys, i, cfg, before, undeletable);
    ReportsDeletedAppend(reports, visited);
    Regroup(reports, visited, Reports(info, keys[i + 1..], cfg, after, undeletable), Reports(info, keys[i..], cfg, before, undeletable));
  }

  /**
   * Splitting the reports still to come into the next group's and the rest.
   * Taking this step through a lemma keeps the terms the solver should
   * match explicit: stated inline in `VisitStep`, the same step costs the
   * solver several times more.
   */
  lemma Regroup(a: seq<Report>, b: seq<Report>, c: seq<Report>, r: seq<Report>)
    requires r == b + c
    ensures a + r == (a + b) + c
  {
  }

  /** One key of the loop (dd.py:85-116): only a group of more than one directory is acted on. */
  method VisitGroup(fs: FileSystem, info: seq<(Entry, string)>, key: string, group: seq<Entry>, cfg: Settings)
    returns (visited: seq<Report>)
    requires group == Group(info, key) && DistinctPaths(group)
    modifies fs
    ensures visited == Visit(info, key, cfg, old(fs.present), fs.undeletable)
    ensures fs.present == old(fs.present) - ReportsDeleted(visited)
  {
    if |group| > 1 {
      var log := ProcessGroup(fs, group, cfg);
      visited := [Report(key, log)];
      assert ReportsDeleted(visited) == DeletedPaths(log) + ReportsDeleted([]);
    } else {
      visited := [];
    }
  }

  /**
   * All roots in turn, each seeing what the roots before it left, until a
   * root whose listing raises ends the run.
   */
  function RunOutcomes(roots: seq<Root>, cfg: Settings, present: set<Path>, undeletable: set<Path>): seq<Outcome>
    decreases |roots|
  {
    if roots == [] then []
    else
      var out := RootOutcome(roots[0], cfg, present, undeletable);
      if out.Aborted? then [out]
      else [out] + RunOutcomes(roots[1..], cfg, present - OutcomeDeleted(out), undeletable)
  }

  /**
   * The run yields one outcome per root, in order, up to and including the
   * first root whose listing raises. Only the last outcome can be `Aborted`,
   * and it is whenever fewer outcomes than roots come out. A root is
   * `Aborted` only when its listing raises, and such a root is never
   * processed.
   */
  lemma {:induction false} RunStopsAtAbort(roots: seq<Root>, cfg: Settings, present: set<Path>, undeletable: set<Path>)
    ensures |RunOutcomes(roots, cfg, present, undeletable)| <= |roots|
    ensures forall i :: 0 <= i < |RunOutcomes(roots, cfg, present, undeletable)| - 1 ==> !RunOutcomes(roots, cfg, present, undeletable)[i].Aborted?
    ensures |RunOutcomes(roots, cfg, present, undeletable)| < |roots| ==>
      |RunOutcomes(roots, cfg, present, undeletable)| > 0 && RunOutcomes(roots, cfg, present, undeletable)[|RunOutcomes(roots, cfg, present, undeletable)| - 1].Aborted?
    ensures forall i :: 0 <= i < |RunOutcomes(roots, cfg, present, undeletable)| ==>
      (RunOutcomes(roots, cfg, present, undeletable)[i].Aborted? ==> roots[i].listing.None?) &&
      (roots[i].listing.None? ==> !RunOutcomes(roots, cfg, present, undeletable)[i].Processed?)
    decreases |roots|
  {
    if roots != [] {
      var out := RootOutcome(roots[0], cfg, present, undeletable);
      RootAborts(roots[0], cfg, present, undeletable);
      if !out.Aborted? {
        var p2 := present - OutcomeDeleted(out);
        RunStopsAtAbort(roots[1..], cfg, p2, undeletable);
        var rest := RunOutcomes(roots[1..], cfg, p2, undeletable);
        assert RunOutcomes(roots, cfg, present, undeletable) == [out] + rest;
        OutcomesCons(roots, [out] + rest, out, rest);
      }
    }
  }

  /** A root is `Aborted` only when its listing raises, and then it is not processed. */
  lemma RootAborts(root: Root, cfg: Settings, present: set<Path>, undeletable: set<Path>)
    ensures RootOutcome(root, cfg, present, undeletable).Aborted? ==> root.listing.None?
    ensures root.listing.None? ==> !RootOutcome(root, cfg, present, undeletable).Processed?
  {
  }

  /** The facts of `RunStopsAtAbort` carry over from the tail to a run whose first outcome is not `Aborted`. */
  lemma OutcomesCons(roots: seq<Root>, outs: seq<Outcome>, out: Outcome, rest: seq<Outcome>)
    requires roots != [] && outs == [out] + rest && !out.Aborted?
    requires roots[0].listing.None? ==> !out.Processed?
    requires |rest| <= |roots[1..]|
    requires forall i :: 0 <= i < |rest| - 1 ==> !rest[i].Aborted?
    requires |rest| < |roots[1..]| ==> |rest| > 0 && rest[|rest| - 1].Aborted?
    requires forall i :: 0 <= i < |rest| ==>
      (rest[i].Aborted? ==> roots[1..][i].listing.None?) && (roots[1..][i].listing.None? ==> !rest[i].Processed?)
    ensures |outs| <= |roots|
    ensures forall i :: 0 <= i < |outs| - 1 ==> !outs[i].Aborted?
    ensures |outs| < |roots| ==> |outs| > 0 && outs[|outs| - 1].Aborted?
    ensures forall i :: 0 <= i < |outs| ==>
      (outs[i].Aborted? ==> roots[i].listing.None?) && (roots[i].listing.None? ==> !outs[i].Processed?)
  {
    forall i | 0 <= i < |outs| ensures outs[i] == if i == 0 then out else rest[i - 1] {
    }
    assert forall i :: 1 <= i < |outs| ==> roots[i] == roots[1..][i - 1];
    if |rest| > 0 {
      assert outs[|outs| - 1] == rest[|rest| - 1];
    }
  }

  function RunDeleted(outs: seq<Outcome>): set<Path>
    decreases |outs|
  {
    if outs == [] then {} else OutcomeDeleted(outs[0]) + RunDeleted(outs[1..])
  }

  /** Without `--delete`, or with `--dry-run`, a whole run removes nothing. */
  lemma {:induction false} RunRemovesNothing(roots: seq<Root>, cfg: Settings, present: set<Path>, undeletable: set<Path>)
    requires !cfg.delete || cfg.dryRun
    ensures RunDeleted(RunOutcomes(roots, cfg, present, undeletable)) == {}
    decreases |roots|
  {
    if roots != [] {
      var out := RootOutcome(roots[0], cfg, present, undeletable);
      if out.Processed? {
        var info := Info(Subdirs(roots[0].listing.value));
        ReportsRemoveNothing(info, SortedKeys(info), cfg, present, undeletable);
      }
      assert present - OutcomeDeleted(out) == present;
      if !out.Aborted? {
        RunRemovesNothing(roots[1..], cfg, present, undeletable);
      }
    }
  }

  lemma RunStep(roots: seq<Root>, i: nat, cfg: Settings, present: set<Path>, undeletable: set<Path>)
    requires i < |roots|
    ensures RunOutcomes(roots[i..], cfg, present, undeletable) ==
      var out := RootOutcome(roots[i], cfg, present, undeletable);
      if out.Aborted? then [out]
      else [out] + RunOutcomes(roots[i + 1..], cfg, present - OutcomeDeleted(out), undeletable)
  {
    assert roots[i..][1..] == roots[i + 1..];
  }

  /** Processing one more root keeps the loop of `Run` in step with `RunOutcomes`. */
  lemma RunAdvance(outs: seq<Outcome>, out: Outcome, whole: seq<Outcome>, rest: seq<Outcome>, all: seq<Outcome>,
                   start: set<Path>, before: set<Path>, after: set<Path>)
    requires outs + whole == all
    requires whole == if out.Aborted? then [out] else [out] + rest
    requires before == start - RunDeleted(outs)
    requires after == before - OutcomeDeleted(out)
    ensures after == start - RunDeleted(outs + [out])
    ensures out.Aborted? ==> outs + [out] == all
    ensures !out.Aborted? ==> (outs + [out]) + rest == all
  {
    RunDeletedSnoc(outs, out);
    if !out.Aborted? {
      assert (outs + [out]) + rest == outs + ([out] + rest);
    }
  }

  lemma {:induction false} RunDeletedSnoc(outs: seq<Outcome>, o: Outcome)
    ensures RunDeleted(outs + [o]) == RunDeleted(outs) + OutcomeDeleted(o)
    decreases |outs|
  {
    if outs != [] {
      assert (outs + [o])[1..] == outs[1..] + [o];
      RunDeletedSnoc(outs[1..], o);
    }
  }

  /**
   * What `main` does after reading the configuration (dd.py:129-132):
   * `None` when compiling the patterns raises, which ends `main` before any
   * root, otherwise the outcomes of the roots in turn.
   */
  function MainOutcomes(roots: seq<Root>, items: seq<Item>, compiles: Compiler, matches: Matcher, delete: bool, dryRun: bool,
                        present: set<Path>, undeletable: set<Path>): Option<seq<Outcome>>
  {
    match RulesOf(items, compiles)
    case None => None
    case Some(rules) => Some(RunOutcomes(roots, Settings(CompiledOf(rules), matches, delete, dryRun), present, undeletable))
  }

  /**
   * `main` stops before any root exactly when some item has a missing key
   * or a pattern that does not compile.
   */
  lemma MainNeedsEveryRule(roots: seq<Root>, items: seq<Item>, compiles: Compiler, matches: Matcher, delete: bool, dryRun: bool,
                           present: set<Path>, undeletable: set<Path>)
    ensures MainOutcomes(roots, items, compiles, matches, delete, dryRun, present, undeletable).None?
      <==> exists i :: 0 <= i < |items| && !Usable(items[i], compiles)
  {
  }

  /**
   * `main` after reading the configuration (dd.py:129-132): the patterns
   * are compiled once, and then every configured root is processed in turn.
   */
  method Run(fs: FileSystem, roots: seq<Root>, items: seq<Item>, compiles: Compiler, matches: Matcher, delete: bool, dryRun: bool)
    returns (result: Option<seq<Outcome>>)
    requires forall i :: 0 <= i < |roots| && roots[i].listing.Some? ==> DistinctPaths(roots[i].listing.value)
    modifies fs
    ensures result == MainOutcomes(roots, items, compiles, matches, delete, dryRun, old(fs.present), fs.undeletable)
    ensures result.None? ==> fs.present == old(fs.present)
    ensures result.Some? ==> fs.present == old(fs.present) - RunDeleted(result.value)
  {
    var compiled := CompilePatterns(items, compiles);
    if compiled.None? {
      return None;
    }
    var outs := ProcessRoots(fs, roots, Settings(compiled.value, matches, delete, dryRun));
    return Some(outs);
  }

  /** The loop over the roots (dd.py:131-132), until `iterdir` raises on one. */
  method ProcessRoots(fs: FileSystem, roots: seq<Root>, cfg: Settings) returns (outs: seq<Outcome>)
    requires forall i :: 0 <= i < |roots| && roots[i].listing.Some? ==> DistinctPaths(roots[i].listing.value)
    modifies fs
    ensures outs == RunOutcomes(roots, cfg, old(fs.present), fs.undeletable)
    ensures fs.present == old(fs.present) - RunDeleted(outs)
  {
    ghost var all := RunOutcomes(roots, cfg, fs.present, fs.undeletable);
    outs := [];
    for i := 0 to |roots|
      invariant outs + RunOutcomes(roots[i..], cfg, fs.present, fs.undeletable) == all
      invariant fs.present == old(fs.present) - RunDeleted(outs)
    {
      ghost var before := fs.present;
      RunStep(roots, i, cfg, before, fs.undeletable);
      var out := ProcessBaseDir(fs, roots[i], cfg);
      RunAdvance(outs, out, RunOutcomes(roots[i..], cfg, before, fs.undeletable), RunOutcomes(roots[i + 1..], cfg, fs.present, fs.undeletable),
                 all, old(fs.present), before, fs.present);
      outs := outs + [out];
      if out.Aborted? {
        return;
      }
    }
  }
}
