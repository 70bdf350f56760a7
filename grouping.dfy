/**
 * The grouping pass of `process_base_dir` (dd.py:77-79): `grouped_dirs`,
 * a `defaultdict(list)` filled from `dir_info` in listing order.
 */
module Grouping {
  import opened Seqs
  import opened Keys

  /** Positions, in listing order, of the entries paired with key `k`. */
  function GroupIndices(info: seq<(Entry, string)>, k: string): (r: seq<nat>)
    ensures forall a :: 0 <= a < |r| ==> r[a] < |info| && info[r[a]].1 == k
    ensures forall a, b :: 0 <= a < b < |r| ==> r[a] < r[b]
    ensures forall i :: 0 <= i < |info| && info[i].1 == k ==> i in r
  {
    if info == [] then []
    else GroupIndices(info[..|info| - 1], k) + (if info[|info| - 1].1 == k then [|info| - 1] else [])
  }

  /** The list `grouped_dirs[k]` ends up holding. */
  function Group(info: seq<(Entry, string)>, k: string): seq<Entry> {
    if info == [] then []
    else Group(info[..|info| - 1], k) + (if info[|info| - 1].1 == k then [info[|info| - 1].0] else [])
  }

  /** The keys of `info`, one per entry. */
  function KeyList(info: seq<(Entry, string)>): (r: seq<string>)
    ensures |r| == |info|
    ensures forall i :: 0 <= i < |info| ==> r[i] == info[i].1
  {
    seq(|info|, i requires 0 <= i < |info| => info[i].1)
  }

  /**
   * A group holds, in listing order, exactly the entries paired with its
   * key: its members are those at the increasing positions `GroupIndices`.
   */
  lemma {:induction false} GroupIsOrderedSelection(info: seq<(Entry, string)>, k: string)
    ensures |Group(info, k)| == |GroupIndices(info, k)|
    ensures forall a :: 0 <= a < |Group(info, k)| ==> Group(info, k)[a] == info[GroupIndices(info, k)[a]].0
  {
    if info != [] {
      var p := info[..|info| - 1];
      GroupIsOrderedSelection(p, k);
      assert forall i :: 0 <= i < |p| ==> p[i] == info[i];
    }
  }

  /**
   * Grouping is a partition: an entry occurs in the group of its own key as
   * often as it is listed with that key, and in no other group.
   */
  lemma {:induction false} GroupPartition(info: seq<(Entry, string)>, k: string, x: Entry)
    ensures multiset(Group(info, k))[x] == multiset(info)[(x, k)]
  {
    if info != [] {
      var p := info[..|info| - 1];
      GroupPartition(p, k, x);
      assert info == p + [info[|info| - 1]];
    }
  }

  /** Every listed entry is in the group of its key. */
  lemma EntryInOwnGroup(info: seq<(Entry, string)>, i: nat)
    requires i < |info|
    ensures info[i].0 in Group(info, info[i].1)
  {
    GroupPartition(info, info[i].1, info[i].0);
    assert info[i] in multiset(info);
  }

  /** Every member of a group was listed with that group's key. */
  lemma MemberHasKey(info: seq<(Entry, string)>, k: string, x: Entry)
    requires x in Group(info, k)
    ensures (x, k) in info
  {
    GroupPartition(info, k, x);
    assert x in multiset(Group(info, k));
  }

  /** Every key that occurs has a non-empty group. */
  lemma GroupNonEmpty(info: seq<(Entry, string)>, k: string)
    requires k in KeyList(info)
    ensures Group(info, k) != []
  {
    var i :| 0 <= i < |info| && KeyList(info)[i] == k;
    EntryInOwnGroup(info, i);
  }

  /** A key that does not occur has no members. */
  lemma {:induction false} GroupOfAbsentKey(info: seq<(Entry, string)>, k: string)
    requires k !in KeyList(info)
    ensures Group(info, k) == []
  {
    if info != [] {
      var p := info[..|info| - 1];
      GroupSnoc(p, info[|info| - 1]);
      assert info == p + [info[|info| - 1]];
      GroupOfAbsentKey(p, k);
    }
  }

  /** With the keys of `Info`, an entry's group is the one of its `CanonicalKey`. */
  lemma InfoPartition(dirs: seq<Entry>, k: string, x: Entry)
    ensures multiset(Group(Info(dirs), k))[x] == if CanonicalKey(x) == k then multiset(dirs)[x] else 0
  {
    GroupPartition(Info(dirs), k, x);
    InfoMultiplicity(dirs, k, x);
  }

  lemma {:induction false} InfoMultiplicity(dirs: seq<Entry>, k: string, x: Entry)
    ensures multiset(Info(dirs))[(x, k)] == if CanonicalKey(x) == k then multiset(dirs)[x] else 0
  {
    if dirs != [] {
      var p := dirs[..|dirs| - 1];
      InfoMultiplicity(p, k, x);
      assert dirs == p + [dirs[|dirs| - 1]];
      assert Info(dirs) == Info(p) + [Info(dirs)[|dirs| - 1]];
    }
  }

  lemma GroupSnoc(p: seq<(Entry, string)>, e: (Entry, string))
    ensures forall k :: Group(p + [e], k) == Group(p, k) + (if e.1 == k then [e.0] else [])
    ensures KeyList(p + [e]) == KeyList(p) + [e.1]
  {
    assert (p + [e])[..|p|] == p;
  }

  /** `order` and `groups` are the key order and the lists of a dict filled from `info`. */
  ghost predicate Grouped(info: seq<(Entry, string)>, order: seq<string>, groups: map<string, seq<Entry>>) {
    && order == Dedup(KeyList(info))
    && (forall k :: k in groups <==> k in order)
    && (forall k :: k in groups ==> groups[k] == Group(info, k))
  }

  /** One `grouped_dirs[key].append(d)` keeps the dict in step with the entries seen. */
  lemma GroupedSnoc(info: seq<(Entry, string)>, e: (Entry, string), order: seq<string>, groups: map<string, seq<Entry>>)
    requires Grouped(info, order, groups)
    ensures e.1 in groups ==> Grouped(info + [e], order, groups[e.1 := groups[e.1] + [e.0]])
    ensures e.1 !in groups ==> Grouped(info + [e], order + [e.1], groups[e.1 := [e.0]])
  {
    GroupSnoc(info, e);
    DedupSnoc(KeyList(info), e.1);
    if e.1 in groups {
      GroupedAppend(info, e, order, groups);
    } else {
      GroupOfAbsentKey(info, e.1);
      GroupedInsert(info, e, order, groups);
    }
  }

  lemma GroupedAppend(info: seq<(Entry, string)>, e: (Entry, string), order: seq<string>, groups: map<string, seq<Entry>>)
    requires Grouped(info, order, groups) && e.1 in groups
    requires forall k :: Group(info + [e], k) == Group(info, k) + (if e.1 == k then [e.0] else [])
    requires Dedup(KeyList(info + [e])) == order
    ensures Grouped(info + [e], order, groups[e.1 := groups[e.1] + [e.0]])
  {
  }

  lemma GroupedInsert(info: seq<(Entry, string)>, e: (Entry, string), order: seq<string>, groups: map<string, seq<Entry>>)
    requires Grouped(info, order, groups) && e.1 !in groups && Group(info, e.1) == []
    requires forall k :: Group(info + [e], k) == Group(info, k) + (if e.1 == k then [e.0] else [])
    requires Dedup(KeyList(info + [e])) == order + [e.1]
    ensures Grouped(info + [e], order + [e.1], groups[e.1 := [e.0]])
  {
  }

  /** The loop at dd.py:77-79, with `grouped_dirs` as a map and the order its keys were added in. */
  method GroupByKey(info: seq<(Entry, string)>) returns (order: seq<string>, groups: map<string, seq<Entry>>)
    ensures order == Dedup(KeyList(info))
    ensures forall k :: k in groups <==> k in order
    ensures forall k :: k in groups ==> groups[k] == Group(info, k)
  {
    order, groups := [], map[];
    for i := 0 to |info|
      invariant Grouped(info[..i], order, groups)
    {
      var (d, key) := info[i];
      assert info[..i + 1] == info[..i] + [(d, key)];
      GroupedSnoc(info[..i], (d, key), order, groups);
      if key in groups {
        groups := groups[key := groups[key] + [d]];
      } else {
        groups := groups[key := [d]];
        order := order + [key];
      }
    }
    assert info[..|info|] == info;
  }
}
