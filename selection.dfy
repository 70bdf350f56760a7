/**
 * One group of duplicates in `process_base_dir` (dd.py:86-111): the
 * survivor scan, the sort by lower-cased name and the action taken on
 * every other directory of the group.
 */
module Selection {
  import opened Wrappers
  import opened Text
  import opened Keys
  import opened Scoring
  import opened Sorting
  import opened FileSystems

  /** What the pipeline reports about a directory of a group of duplicates. */
  datatype Action =
    | Duplicate(dir: Entry, score: int)     // deletion is off: the directory is only listed
    | WouldDelete(dir: Entry, score: int)   // a dry run: nothing is removed
    | Deleted(dir: Entry, score: int)       // `shutil.rmtree` returned normally
    | DeleteFailed(dir: Entry, score: int)  // `shutil.rmtree` raised; the error is reported
    | Keep(dir: Entry, score: int)          // the survivor of the group

  /** The arguments `process_base_dir` passes down unchanged. */
  datatype Settings = Settings(compiled: Compiled, matches: Matcher, delete: bool, dryRun: bool)

  /** `calculate_score(d.name, compiled_patterns)`. */
  function Score(cfg: Settings, d: Entry): int {
    Total(cfg.compiled, d.name, cfg.matches)
  }

  function Scores(g: seq<Entry>, cfg: Settings): (s: seq<int>)
    ensures |s| == |g|
    ensures forall i :: 0 <= i < |g| ==> s[i] == Score(cfg, g[i])
  {
    seq(|g|, i requires 0 <= i < |g| => Score(cfg, g[i]))
  }

  /**
   * The position of the first maximum: a later directory replaces the
   * current best only with a strictly higher score.
   */
  function FirstMax(s: seq<int>): (k: nat)
    requires |s| > 0
    ensures k < |s|
    ensures forall i :: 0 <= i < |s| ==> s[i] <= s[k]
    ensures forall i :: 0 <= i < k ==> s[i] < s[k]
  {
    if |s| == 1 then 0
    else
      var k := FirstMax(s[..|s| - 1]);
      if s[|s| - 1] > s[k] then |s| - 1 else k
  }

  /** Being a maximum with nothing as high before it pins the position down. */
  lemma FirstMaxUnique(s: seq<int>, k: nat)
    requires k < |s|
    requires forall i :: 0 <= i < |s| ==> s[i] <= s[k]
    requires forall i :: 0 <= i < k ==> s[i] < s[k]
    ensures k == FirstMax(s)
  {
  }

  /**
   * The survivor scan (dd.py:87-95). `max_score` starts at minus infinity,
   * modelled as `None`, so the first directory always becomes the best.
   */
  method PickSurvivor(g: seq<Entry>, cfg: Settings) returns (best: nat, maxScore: int, scores: map<Path, int>)
    requires |g| > 0 && DistinctPaths(g)
    ensures best == FirstMax(Scores(g, cfg)) && maxScore == Score(cfg, g[best])
    ensures forall x :: x in g ==> x.path in scores && scores[x.path] == Score(cfg, x)
  {
    var max: Option<int> := None;
    best, scores := 0, map[];
    for i := 0 to |g|
      invariant max.None? <==> i == 0
      invariant i > 0 ==> best == FirstMax(Scores(g[..i], cfg)) && max == Some(Score(cfg, g[best]))
      invariant scores == ScoreMap(g[..i], cfg)
    {
      best, max, scores := ScanOne(g, i, cfg, best, max, scores);
    }
    assert g[..|g|] == g;
    maxScore := max.value;
    ScoreMapMeaning(g, cfg);
  }

  /** One iteration of the scan (dd.py:91-95): score `g[i]`, record it, and keep the first maximum. */
  method ScanOne(g: seq<Entry>, i: nat, cfg: Settings, best: nat, max: Option<int>, scores: map<Path, int>)
    returns (best': nat, max': Option<int>, scores': map<Path, int>)
    requires i < |g|
    requires max.None? <==> i == 0
    requires i > 0 ==> best == FirstMax(Scores(g[..i], cfg)) && max == Some(Score(cfg, g[best]))
    requires scores == ScoreMap(g[..i], cfg)
    ensures best' == FirstMax(Scores(g[..i + 1], cfg)) && max' == Some(Score(cfg, g[best']))
    ensures scores' == ScoreMap(g[..i + 1], cfg)
  {
    var score := CalculateScore(g[i].name, cfg.compiled, cfg.matches);
    assert g[..i + 1][..i] == g[..i];
    scores' := scores[g[i].path := score];
    ScanStep(g, i, cfg, best);
    if max.None? || score > max.value {
      max', best' := Some(score), i;
    } else {
      max', best' := max, best;
    }
  }

  /** The dict `scores` after the scan of `g`: each path with its directory's score. */
  function ScoreMap(g: seq<Entry>, cfg: Settings): map<Path, int> {
    if g == [] then map[] else ScoreMap(g[..|g| - 1], cfg)[g[|g| - 1].path := Score(cfg, g[|g| - 1])]
  }

  /** With distinct paths, `scores[d]` is the score of `d` for every directory of the group. */
  lemma {:induction false} ScoreMapMeaning(g: seq<Entry>, cfg: Settings)
    requires DistinctPaths(g)
    ensures forall x :: x in g ==> x.path in ScoreMap(g, cfg) && ScoreMap(g, cfg)[x.path] == Score(cfg, x)
  {
    if g != [] {
      var p := g[..|g| - 1];
      var d := g[|g| - 1];
      assert DistinctPaths(p);
      ScoreMapMeaning(p, cfg);
      forall x | x in g ensures x.path in ScoreMap(g, cfg) && ScoreMap(g, cfg)[x.path] == Score(cfg, x) {
        if x != d {
          var j :| 0 <= j < |g| && g[j] == x;
          assert j < |p| && p[j] == x;
        }
      }
    }
  }

  /** One step of the survivor scan: a strictly higher score moves the first maximum to `i`. */
  lemma ScanStep(g: seq<Entry>, i: nat, cfg: Settings, best: nat)
    requires i < |g|
    requires i > 0 ==> best == FirstMax(Scores(g[..i], cfg))
    ensures i > 0 ==> best < i
    ensures (if i == 0 || Score(cfg, g[i]) > Score(cfg, g[best]) then i else best) == FirstMax(Scores(g[..i + 1], cfg))
  {
    var s := Scores(g[..i + 1], cfg);
    assert s[..i] == Scores(g[..i], cfg);
    if i > 0 {
      assert s[best] == Score(cfg, g[best]);
    }
  }

  /** The key `sorted` uses: the lower-cased basename. */
  function LowerNames(g: seq<Entry>): (r: seq<string>)
    ensures |r| == |g|
    ensures forall i :: 0 <= i < |g| ==> r[i] == Lower(g[i].name)
  {
    seq(|g|, i requires 0 <= i < |g| => Lower(g[i].name))
  }

  /** `sorted(group, key=lambda d: d.name.lower())`, a stable sort. */
  function GroupSorted(g: seq<Entry>): (r: seq<Entry>)
    ensures |r| == |g|
  {
    var o := StableOrder(LowerNames(g));
    seq(|o|, a requires 0 <= a < |o| => g[o[a]])
  }

  /** Lower-cased names never decrease along `xs`. */
  ghost predicate NamesSorted(xs: seq<Entry>) {
    forall a, b :: 0 <= a < b < |xs| ==> !StrLess(Lower(xs[b].name), Lower(xs[a].name))
  }

  /** The sorted group holds the same directories, each path still once. */
  lemma GroupSortedMembers(g: seq<Entry>)
    requires DistinctPaths(g)
    ensures forall x :: x in GroupSorted(g) <==> x in g
    ensures DistinctPaths(GroupSorted(g))
  {
    var keys := LowerNames(g);
    var o := StableOrder(keys);
    var r := GroupSorted(g);
    assert forall a :: 0 <= a < |o| ==> r[a] == g[o[a]];
    forall x | x in g ensures x in r {
      var i :| 0 <= i < |g| && g[i] == x;
      assert i in o;
      var a :| 0 <= a < |o| && o[a] == i;
      assert r[a] == x;
    }
    SortedNoDuplicates(keys, o);
    forall a, b | 0 <= a < b < |r| ensures r[a].path != r[b].path {
      assert o[a] != o[b];
    }
  }

  /**
   * The sort is stable: the sorted group takes the directory at position
   * `StableOrder(LowerNames(g))[a]` of the group to place `a`, and two
   * directories whose lower-cased names are equal keep their group order.
   */
  lemma GroupSortedStable(g: seq<Entry>)
    ensures forall a :: 0 <= a < |GroupSorted(g)| ==>
      StableOrder(LowerNames(g))[a] < |g| && GroupSorted(g)[a] == g[StableOrder(LowerNames(g))[a]]
    ensures forall a, b :: 0 <= a < b < |GroupSorted(g)| && Lower(GroupSorted(g)[a].name) == Lower(GroupSorted(g)[b].name) ==>
      StableOrder(LowerNames(g))[a] < StableOrder(LowerNames(g))[b]
  {
    var keys := LowerNames(g);
    var o := StableOrder(keys);
    var r := GroupSorted(g);
    assert forall a :: 0 <= a < |o| ==> r[a] == g[o[a]];
    forall a, b | 0 <= a < b < |r| && Lower(r[a].name) == Lower(r[b].name) ensures o[a] < o[b] {
      assert Before(keys, o[a], o[b]);
      assert keys[o[a]] == keys[o[b]];
      StrLessIrreflexive(keys[o[a]]);
    }
  }

  /** The sorted group is ordered by lower-cased name. */
  lemma GroupSortedOrdered(g: seq<Entry>)
    ensures NamesSorted(GroupSorted(g))
  {
    var keys := LowerNames(g);
    var o := StableOrder(keys);
    var r := GroupSorted(g);
    forall a, b | 0 <= a < b < |r| ensures !StrLess(Lower(r[b].name), Lower(r[a].name)) {
      assert Before(keys, o[a], o[b]);
      assert r[a] == g[o[a]] && r[b] == g[o[b]];
      if StrLess(keys[o[b]], keys[o[a]]) {
        if StrLess(keys[o[a]], keys[o[b]]) {
          StrLessTransitive(keys[o[a]], keys[o[b]], keys[o[a]]);
        }
        StrLessIrreflexive(keys[o[a]]);
      }
    }
  }

  /** The action for one non-survivor, given the directories present at that moment (dd.py:99-110). */
  function Act(x: Entry, cfg: Settings, present: set<Path>, undeletable: set<Path>): Action {
    if !cfg.delete then Duplicate(x, Score(cfg, x))
    else if cfg.dryRun then WouldDelete(x, Score(cfg, x))
    else if x.path in present && x.path !in undeletable then Deleted(x, Score(cfg, x))
    else DeleteFailed(x, Score(cfg, x))
  }

  /** The directories present after an action. */
  function After(a: Action, present: set<Path>): set<Path> {
    if a.Deleted? then present - {a.dir.path} else present
  }

  /** The loop at dd.py:98-110 over `group_sorted`, skipping the survivor's path. */
  function Sweep(gs: seq<Entry>, keep: Path, cfg: Settings, present: set<Path>, undeletable: set<Path>): seq<Action>
    decreases |gs|
  {
    if gs == [] then []
    else if gs[0].path == keep then Sweep(gs[1..], keep, cfg, present, undeletable)
    else
      var a := Act(gs[0], cfg, present, undeletable);
      [a] + Sweep(gs[1..], keep, cfg, After(a, present), undeletable)
  }

  function Dirs(log: seq<Action>): (r: seq<Entry>)
    ensures |r| == |log|
    ensures forall k :: 0 <= k < |log| ==> r[k] == log[k].dir
  {
    seq(|log|, k requires 0 <= k < |log| => log[k].dir)
  }

  /** The directories a log reports as removed. */
  function DeletedPaths(log: seq<Action>): set<Path> {
    set k | 0 <= k < |log| && log[k].Deleted? :: log[k].dir.path
  }

  /** The report of one group: every other directory in sorted order, then the survivor. */
  function GroupLog(g: seq<Entry>, cfg: Settings, present: set<Path>, undeletable: set<Path>): seq<Action>
    requires |g| > 0
  {
    var s := Scores(g, cfg);
    var best := FirstMax(s);
    Sweep(GroupSorted(g), g[best].path, cfg, present, undeletable) + [Keep(g[best], s[best])]
  }

  /**
   * Every entry of the sweep is a non-survivor of the group, reported
   * with its own score, and its kind follows the two flags: no deletion
   * means a listing only, a dry run means "would delete" only, and a real
   * run means one removal attempt.
   */
  lemma {:induction false} SweepPolicy(gs: seq<Entry>, keep: Path, cfg: Settings, present: set<Path>, undeletable: set<Path>)
    ensures forall k :: 0 <= k < |Sweep(gs, keep, cfg, present, undeletable)| ==>
      var a := Sweep(gs, keep, cfg, present, undeletable)[k];
      && a.dir in gs && a.dir.path != keep && a.score == Score(cfg, a.dir)
      && (!cfg.delete ==> a.Duplicate?)
      && (cfg.delete && cfg.dryRun ==> a.WouldDelete?)
      && (cfg.delete && !cfg.dryRun ==> a.Deleted? || a.DeleteFailed?)
    decreases |gs|
  {
    if gs != [] {
      var a := Act(gs[0], cfg, present, undeletable);
      SweepPolicy(gs[1..], keep, cfg, present, undeletable);
      SweepPolicy(gs[1..], keep, cfg, After(a, present), undeletable);
      assert forall x :: x in gs[1..] ==> x in gs;
    }
  }

  /**
   * With distinct paths, a removal succeeds exactly when the directory was
   * there before the group was processed and is removable: earlier
   * removals in the group touch other paths.
   */
  lemma {:induction false} SweepDeletions(gs: seq<Entry>, keep: Path, cfg: Settings, present: set<Path>, undeletable: set<Path>)
    requires DistinctPaths(gs)
    ensures forall k :: 0 <= k < |Sweep(gs, keep, cfg, present, undeletable)| ==>
      (Sweep(gs, keep, cfg, present, undeletable)[k].Deleted? <==>
        cfg.delete && !cfg.dryRun && Sweep(gs, keep, cfg, present, undeletable)[k].dir.path in present
        && Sweep(gs, keep, cfg, present, undeletable)[k].dir.path !in undeletable)
    decreases |gs|
  {
    if gs != [] {
      var a := Act(gs[0], cfg, present, undeletable);
      var p2 := if gs[0].path == keep then present else After(a, present);
      var r := Sweep(gs, keep, cfg, present, undeletable);
      var rest := Sweep(gs[1..], keep, cfg, p2, undeletable);
      HeadAndTail(gs, gs[0]);
      SweepDeletions(gs[1..], keep, cfg, p2, undeletable);
      RestAvoidsHead(gs, keep, cfg, p2, undeletable);
      if gs[0].path != keep {
        assert r == [a] + rest;
        forall k | 0 < k < |r| ensures r[k] == rest[k - 1] && (r[k].dir.path in p2 <==> r[k].dir.path in present) {
        }
      } else {
        assert r == rest;
      }
    }
  }

  /** No action of the sweep over the tail concerns the head's path. */
  lemma RestAvoidsHead(gs: seq<Entry>, keep: Path, cfg: Settings, present: set<Path>, undeletable: set<Path>)
    requires gs != [] && DistinctPaths(gs)
    ensures forall k :: 0 <= k < |Sweep(gs[1..], keep, cfg, present, undeletable)| ==>
      Sweep(gs[1..], keep, cfg, present, undeletable)[k].dir.path != gs[0].path
  {
    var rest := Sweep(gs[1..], keep, cfg, present, undeletable);
    SweepPolicy(gs[1..], keep, cfg, present, undeletable);
    forall k | 0 <= k < |rest| ensures rest[k].dir.path != gs[0].path {
      var j :| 0 <= j < |gs[1..]| && gs[1..][j] == rest[k].dir;
      assert gs[j + 1] == rest[k].dir;
    }
  }

  /** With distinct paths in the group, the sweep acts on each path at most once. */
  lemma {:induction false} SweepDistinct(gs: seq<Entry>, keep: Path, cfg: Settings, present: set<Path>, undeletable: set<Path>)
    requires DistinctPaths(gs)
    ensures DistinctPaths(Dirs(Sweep(gs, keep, cfg, present, undeletable)))
    decreases |gs|
  {
    if gs != [] {
      var a := Act(gs[0], cfg, present, undeletable);
      var p2 := if gs[0].path == keep then present else After(a, present);
      var r := Sweep(gs, keep, cfg, present, undeletable);
      var rest := Sweep(gs[1..], keep, cfg, p2, undeletable);
      HeadAndTail(gs, gs[0]);
      SweepDistinct(gs[1..], keep, cfg, p2, undeletable);
      RestAvoidsHead(gs, keep, cfg, p2, undeletable);
      if gs[0].path != keep {
        assert r == [a] + rest;
        forall k, l | 0 <= k < l < |r| ensures Dirs(r)[k].path != Dirs(r)[l].path {
          assert Dirs(r)[l] == Dirs(rest)[l - 1];
          if k > 0 {
            assert Dirs(r)[k] == Dirs(rest)[k - 1];
          }
        }
      } else {
        assert r == rest;
      }
    }
  }

  /** With distinct paths, each directory of `gs` but the survivor appears in the sweep once. */
  lemma {:induction false} SweepCounts(gs: seq<Entry>, keep: Path, cfg: Settings, present: set<Path>, undeletable: set<Path>)
    requires DistinctPaths(gs)
    ensures forall x :: multiset(Dirs(Sweep(gs, keep, cfg, present, undeletable)))[x] == if x in gs && x.path != keep then 1 else 0
  {
    forall x ensures multiset(Dirs(Sweep(gs, keep, cfg, present, undeletable)))[x] == if x in gs && x.path != keep then 1 else 0 {
      SweepCount(gs, keep, cfg, present, undeletable, x);
    }
  }

  /** A list of distinct paths splits into its head and a tail without it. */
  lemma HeadAndTail(gs: seq<Entry>, x: Entry)
    requires gs != [] && DistinctPaths(gs)
    ensures DistinctPaths(gs[1..]) && gs[0] !in gs[1..]
    ensures x in gs <==> x == gs[0] || x in gs[1..]
  {
    assert gs == [gs[0]] + gs[1..];
    forall j | 0 <= j < |gs[1..]| ensures gs[1..][j] != gs[0] {
      assert gs[1..][j].path == gs[j + 1].path;
    }
  }

  /** `SweepCounts` for one directory. */
  lemma {:induction false} SweepCount(gs: seq<Entry>, keep: Path, cfg: Settings, present: set<Path>, undeletable: set<Path>, x: Entry)
    requires DistinctPaths(gs)
    ensures multiset(Dirs(Sweep(gs, keep, cfg, present, undeletable)))[x] == if x in gs && x.path != keep then 1 else 0
    decreases |gs|
  {
    if gs != [] {
      var a := Act(gs[0], cfg, present, undeletable);
      var p2 := if gs[0].path == keep then present else After(a, present);
      var r := Sweep(gs, keep, cfg, present, undeletable);
      var rest := Sweep(gs[1..], keep, cfg, p2, undeletable);
      HeadAndTail(gs, x);
      SweepCount(gs[1..], keep, cfg, p2, undeletable, x);
      var head := if gs[0].path != keep then [gs[0]] else [];
      assert Dirs(r) == head + Dirs(rest);
      assert multiset(Dirs(r))[x] == multiset(head)[x] + multiset(Dirs(rest))[x];
    }
  }

  /** The sweep keeps the order of `gs`, so a sorted group gives a sorted report. */
  lemma {:induction false} SweepSorted(gs: seq<Entry>, keep: Path, cfg: Settings, present: set<Path>, undeletable: set<Path>)
    requires NamesSorted(gs)
    ensures NamesSorted(Dirs(Sweep(gs, keep, cfg, present, undeletable)))
    decreases |gs|
  {
    if gs != [] {
      var a := Act(gs[0], cfg, present, undeletable);
      var p2 := if gs[0].path == keep then present else After(a, present);
      var rest := Sweep(gs[1..], keep, cfg, p2, undeletable);
      assert NamesSorted(gs[1..]);
      SweepSorted(gs[1..], keep, cfg, p2, undeletable);
      SweepPolicy(gs[1..], keep, cfg, p2, undeletable);
      if gs[0].path != keep {
        var d := Dirs(Sweep(gs, keep, cfg, present, undeletable));
        forall b | 0 < b < |d| ensures !StrLess(Lower(d[b].name), Lower(d[0].name)) {
          assert d[b] == rest[b - 1].dir;
          var j :| 0 <= j < |gs[1..]| && gs[1..][j] == d[b];
          assert gs[j + 1] == d[b];
        }
      }
    }
  }

  /**
   * Exactly one survivor: the log of a group ends with `Keep` of the first
   * directory with the highest score, and no other entry keeps anything or
   * concerns the survivor.
   */
  lemma GroupLogSurvivor(g: seq<Entry>, cfg: Settings, present: set<Path>, undeletable: set<Path>)
    requires |g| > 0
    ensures var log := GroupLog(g, cfg, present, undeletable);
      var best := FirstMax(Scores(g, cfg));
      && log[|log| - 1] == Keep(g[best], Score(cfg, g[best]))
      && (forall i :: 0 <= i < |g| ==> Score(cfg, g[i]) <= Score(cfg, g[best]))
      && (forall i :: 0 <= i < best ==> Score(cfg, g[i]) < Score(cfg, g[best]))
      && (forall k :: 0 <= k < |log| - 1 ==> !log[k].Keep? && log[k].dir.path != g[best].path)
  {
    var s := Scores(g, cfg);
    var best := FirstMax(s);
    SweepPolicy(GroupSorted(g), g[best].path, cfg, present, undeletable);
  }

  /**
   * Every directory of the group is reported exactly once, so a group of
   * `n` directories yields `n - 1` actions besides the survivor's.
   */
  lemma GroupLogCoversGroup(g: seq<Entry>, cfg: Settings, present: set<Path>, undeletable: set<Path>)
    requires |g| > 0 && DistinctPaths(g)
    ensures multiset(Dirs(GroupLog(g, cfg, present, undeletable))) == multiset(g)
    ensures |GroupLog(g, cfg, present, undeletable)| == |g|
  {
    var s := Scores(g, cfg);
    var best := FirstMax(s);
    var gs := GroupSorted(g);
    var sw := Sweep(gs, g[best].path, cfg, present, undeletable);
    var log := GroupLog(g, cfg, present, undeletable);
    GroupSortedMembers(g);
    SweepCounts(gs, g[best].path, cfg, present, undeletable);
    assert Dirs(log) == Dirs(sw) + [g[best]];
    DistinctMultisetOfEntries(g);
    forall x ensures multiset(Dirs(log))[x] == multiset(g)[x] {
      if x in g && x.path == g[best].path {
        var i :| 0 <= i < |g| && g[i] == x;
        assert i == best;
      }
    }
    assert multiset(Dirs(log)) == multiset(g);
    assert |Dirs(log)| == |multiset(Dirs(log))|;
  }

  lemma {:induction false} DistinctMultisetOfEntries(g: seq<Entry>)
    requires DistinctPaths(g)
    ensures forall x :: multiset(g)[x] == if x in g then 1 else 0
  {
    if g != [] {
      var p := g[..|g| - 1];
      assert g == p + [g[|g| - 1]];
      assert DistinctPaths(p);
      DistinctMultisetOfEntries(p);
      assert g[|g| - 1] !in p by {
        forall j | 0 <= j < |p| ensures p[j] != g[|g| - 1] {
          assert p[j].path == g[j].path;
        }
      }
    }
  }

  /** The non-survivors are reported in order of lower-cased name. */
  lemma GroupLogSorted(g: seq<Entry>, cfg: Settings, present: set<Path>, undeletable: set<Path>)
    requires |g| > 0
    ensures var log := GroupLog(g, cfg, present, undeletable);
      NamesSorted(Dirs(log[..|log| - 1]))
  {
    var s := Scores(g, cfg);
    var best := FirstMax(s);
    var sw := Sweep(GroupSorted(g), g[best].path, cfg, present, undeletable);
    var log := GroupLog(g, cfg, present, undeletable);
    GroupSortedOrdered(g);
    SweepSorted(GroupSorted(g), g[best].path, cfg, present, undeletable);
    assert log[..|log| - 1] == sw;
  }

  /**
   * The action policy. Without `--delete` nothing is removed and every
   * non-survivor is only listed; with `--dry-run` every one is reported as
   * "would delete" and nothing is removed; otherwise each is attempted once
   * and succeeds exactly when it existed and is removable. The survivor is
   * never removed, and a failed removal keeps its directory.
   */
  lemma GroupLogPolicy(g: seq<Entry>, cfg: Settings, present: set<Path>, undeletable: set<Path>)
    requires |g| > 0 && DistinctPaths(g)
    ensures var log := GroupLog(g, cfg, present, undeletable);
      && (forall k :: 0 <= k < |log| - 1 ==>
           && log[k].score == Score(cfg, log[k].dir)
           && (!cfg.delete ==> log[k].Duplicate?)
           && (cfg.delete && cfg.dryRun ==> log[k].WouldDelete?)
           && (cfg.delete && !cfg.dryRun ==>
                 (log[k].Deleted? <==> log[k].dir.path in present && log[k].dir.path !in undeletable)
                 && (log[k].Deleted? || log[k].DeleteFailed?)))
      && DeletedPaths(log) <= present
      && g[FirstMax(Scores(g, cfg))].path !in DeletedPaths(log)
      && (forall k :: 0 <= k < |log| && log[k].DeleteFailed? ==> log[k].dir.path !in DeletedPaths(log))
  {
    var s := Scores(g, cfg);
    var best := FirstMax(s);
    var gs := GroupSorted(g);
    var sw := Sweep(gs, g[best].path, cfg, present, undeletable);
    var log := GroupLog(g, cfg, present, undeletable);
    GroupSortedMembers(g);
    SweepPolicy(gs, g[best].path, cfg, present, undeletable);
    SweepDeletions(gs, g[best].path, cfg, present, undeletable);
    SweepDistinct(gs, g[best].path, cfg, present, undeletable);
    assert forall k :: 0 <= k < |sw| ==> log[k] == sw[k];
    forall k | 0 <= k < |log| && log[k].DeleteFailed? ensures log[k].dir.path !in DeletedPaths(log) {
      forall j | 0 <= j < |log| && log[j].Deleted? ensures log[j].dir.path != log[k].dir.path {
        assert Dirs(sw)[j] == log[j].dir && Dirs(sw)[k] == log[k].dir;
      }
    }
  }

  lemma SweepStep(gs: seq<Entry>, j: nat, keep: Path, cfg: Settings, present: set<Path>, undeletable: set<Path>)
    requires j < |gs|
    ensures Sweep(gs[j..], keep, cfg, present, undeletable) ==
      if gs[j].path == keep then Sweep(gs[j + 1..], keep, cfg, present, undeletable)
      else
        var a := Act(gs[j], cfg, present, undeletable);
        [a] + Sweep(gs[j + 1..], keep, cfg, After(a, present), undeletable)
  {
    assert gs[j..][1..] == gs[j + 1..];
  }

  lemma DeletedPathsSnoc(log: seq<Action>, a: Action)
    ensures DeletedPaths(log + [a]) == DeletedPaths(log) + (if a.Deleted? then {a.dir.path} else {})
  {
    var l := log + [a];
    assert forall k :: 0 <= k < |log| ==> l[k] == log[k];
    assert l[|log|] == a;
  }

  /** Without `--delete`, or with `--dry-run`, a group removes nothing. */
  lemma GroupLogRemovesNothing(g: seq<Entry>, cfg: Settings, present: set<Path>, undeletable: set<Path>)
    requires |g| > 0 && (!cfg.delete || cfg.dryRun)
    ensures DeletedPaths(GroupLog(g, cfg, present, undeletable)) == {}
  {
    var s := Scores(g, cfg);
    var best := FirstMax(s);
    var sw := Sweep(GroupSorted(g), g[best].path, cfg, present, undeletable);
    var log := GroupLog(g, cfg, present, undeletable);
    SweepPolicy(GroupSorted(g), g[best].path, cfg, present, undeletable);
    assert forall k :: 0 <= k < |sw| ==> log[k] == sw[k];
  }

  /**
   * The body of `if len(group) > 1` (dd.py:87-111) for one group. The
   * scores are kept in a dict keyed by path, as in the source.
   */
  method ProcessGroup(fs: FileSystem, g: seq<Entry>, cfg: Settings) returns (log: seq<Action>)
    requires |g| > 0 && DistinctPaths(g)
    modifies fs
    ensures log == GroupLog(g, cfg, old(fs.present), fs.undeletable)
    ensures fs.present == old(fs.present) - DeletedPaths(log)
  {
    var best, maxScore, scores := PickSurvivor(g, cfg);
    var keep := g[best];
    var groupSorted := GroupSorted(g);
    GroupSortedMembers(g);
    log := SweepGroup(fs, groupSorted, keep.path, scores, cfg);
    DeletedPathsSnoc(log, Keep(keep, maxScore));
    log := log + [Keep(keep, maxScore)];
  }

  /** The loop at dd.py:98-110: every directory of `group_sorted` whose path is not the survivor's. */
  method SweepGroup(fs: FileSystem, groupSorted: seq<Entry>, keep: Path, scores: map<Path, int>, cfg: Settings)
    returns (log: seq<Action>)
    requires forall x :: x in groupSorted ==> x.path in scores && scores[x.path] == Score(cfg, x)
    modifies fs
    ensures log == Sweep(groupSorted, keep, cfg, old(fs.present), fs.undeletable)
    ensures fs.present == old(fs.present) - DeletedPaths(log)
  {
    ghost var all := Sweep(groupSorted, keep, cfg, fs.present, fs.undeletable);
    log := [];
    for j := 0 to |groupSorted|
      invariant log + Sweep(groupSorted[j..], keep, cfg, fs.present, fs.undeletable) == all
      invariant fs.present == old(fs.present) - DeletedPaths(log)
    {
      var d := groupSorted[j];
      ghost var before := fs.present;
      SweepStep(groupSorted, j, keep, cfg, fs.present, fs.undeletable);
      if d.path != keep {
        var action := HandleDuplicate(fs, d, scores[d.path], cfg);
        ghost var rest := Sweep(groupSorted[j + 1..], keep, cfg, fs.present, fs.undeletable);
        assert Sweep(groupSorted[j..], keep, cfg, before, fs.undeletable) == [action] + rest;
        assert (log + [action]) + rest == log + ([action] + rest);
        DeletedPathsSnoc(log, action);
        log := log + [action];
      }
    }
  }

  /** One non-survivor (dd.py:100-110): list it, report a dry run, or try to remove it. */
  method HandleDuplicate(fs: FileSystem, d: Entry, score: int, cfg: Settings) returns (action: Action)
    requires score == Score(cfg, d)
    modifies fs
    ensures action == Act(d, cfg, old(fs.present), fs.undeletable)
    ensures fs.present == After(action, old(fs.present))
  {
    if cfg.delete {
      if cfg.dryRun {
        action := WouldDelete(d, score);
      } else {
        var ok := fs.RemoveTree(d.path);
        action := if ok then Deleted(d, score) else DeleteFailed(d, score);
      }
    } else {
      action := Duplicate(d, score);
    }
  }
}
