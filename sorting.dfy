/**
 * Python's `sorted` as the pipeline uses it: on the keys of `grouped_dirs`
 * (dd.py:84) and, stably, on a group by lowercased name (dd.py:96).
 * Strings compare as Python compares `str`: lexicographically by code
 * point, a proper prefix first.
 */
module Sorting {
  import opened Seqs

  /** Python's `<` on `str`. */
  predicate StrLess(a: string, b: string) {
    b != [] && (a == [] || a[0] < b[0] || (a[0] == b[0] && StrLess(a[1..], b[1..])))
  }

  lemma {:induction false} StrLessIrreflexive(a: string)
    ensures !StrLess(a, a)
  {
    if a != [] {
      StrLessIrreflexive(a[1..]);
    }
  }

  lemma {:induction false} StrLessTotal(a: string, b: string)
    ensures a == b || StrLess(a, b) || StrLess(b, a)
  {
    if a != [] && b != [] && a[0] == b[0] {
      StrLessTotal(a[1..], b[1..]);
      if a[1..] == b[1..] {
        assert a == [a[0]] + a[1..] && b == [b[0]] + b[1..];
      }
    }
  }

  lemma {:induction false} StrLessTransitive(a: string, b: string, c: string)
    requires StrLess(a, b) && StrLess(b, c)
    ensures StrLess(a, c)
  {
    if a != [] && a[0] == b[0] && b[0] == c[0] {
      StrLessTransitive(a[1..], b[1..], c[1..]);
    }
  }

  /** Position `i` precedes position `j` in a stable sort by `keys`. */
  predicate Before(keys: seq<string>, i: nat, j: nat)
    requires i < |keys| && j < |keys|
  {
    StrLess(keys[i], keys[j]) || (keys[i] == keys[j] && i < j)
  }

  lemma BeforeIrreflexive(keys: seq<string>, i: nat)
    requires i < |keys|
    ensures !Before(keys, i, i)
  {
    StrLessIrreflexive(keys[i]);
  }

  lemma BeforeTotal(keys: seq<string>, i: nat, j: nat)
    requires i < |keys| && j < |keys| && i != j
    ensures Before(keys, i, j) || Before(keys, j, i)
  {
    StrLessTotal(keys[i], keys[j]);
  }

  lemma BeforeTransitive(keys: seq<string>, i: nat, j: nat, k: nat)
    requires i < |keys| && j < |keys| && k < |keys|
    requires Before(keys, i, j) && Before(keys, j, k)
    ensures Before(keys, i, k)
  {
    if StrLess(keys[i], keys[j]) && StrLess(keys[j], keys[k]) {
      StrLessTransitive(keys[i], keys[j], keys[k]);
    }
  }

  predicate InRange(n: nat, o: seq<nat>) {
    forall a :: 0 <= a < |o| ==> o[a] < n
  }

  /** `o` lists positions of `keys` in stable-sort order. */
  predicate SortedBy(keys: seq<string>, o: seq<nat>) {
    && InRange(|keys|, o)
    && forall a, b :: 0 <= a < b < |o| ==> o[a] < |keys| && o[b] < |keys| && Before(keys, o[a], o[b])
  }

  /** One insertion step. */
  function Insert(keys: seq<string>, x: nat, o: seq<nat>): (r: seq<nat>)
    requires x < |keys| && SortedBy(keys, o) && x !in o
    ensures |r| == |o| + 1
    ensures forall y :: y in r <==> y == x || y in o
    ensures SortedBy(keys, r)
  {
    if o == [] then [x]
    else if Before(keys, x, o[0]) then
      assert forall b :: 0 <= b < |o| ==> Before(keys, x, o[b]) by {
        forall b | 0 < b < |o| ensures Before(keys, x, o[b]) {
          BeforeTransitive(keys, x, o[0], o[b]);
        }
      }
      [x] + o
    else
      BeforeTotal(keys, x, o[0]);
      var rest := Insert(keys, x, o[1..]);
      assert forall b :: 0 <= b < |rest| ==> Before(keys, o[0], rest[b]) by {
        forall b | 0 <= b < |rest| ensures Before(keys, o[0], rest[b]) {
          if rest[b] != x {
            assert rest[b] in o[1..];
            var c :| 0 <= c < |o[1..]| && o[1..][c] == rest[b];
            assert o[c + 1] == rest[b];
          }
        }
      }
      [o[0]] + rest
  }

  /** A stable insertion sort of the positions below `n`. */
  function SortPrefix(keys: seq<string>, n: nat): (r: seq<nat>)
    requires n <= |keys|
    ensures |r| == n
    ensures InRange(n, r)
    ensures forall i :: 0 <= i < n ==> i in r
    ensures SortedBy(keys, r)
  {
    if n == 0 then []
    else
      var o := SortPrefix(keys, n - 1);
      var r := Insert(keys, n - 1, o);
      assert forall a :: 0 <= a < |r| ==> r[a] < n by {
        forall a | 0 <= a < |r| ensures r[a] < n {
          assert r[a] in r;
          if r[a] != n - 1 {
            var c :| 0 <= c < |o| && o[c] == r[a];
          }
        }
      }
      r
  }

  /**
   * `sorted(range(len(keys)), key=keys.__getitem__)`: every position once, by
   * key, equal keys in their original order (Python's sort is stable).
   */
  function StableOrder(keys: seq<string>): (r: seq<nat>)
    ensures |r| == |keys|
    ensures InRange(|keys|, r)
    ensures forall i :: 0 <= i < |keys| ==> i in r
    ensures SortedBy(keys, r)
  {
    SortPrefix(keys, |keys|)
  }

  /** A stable order lists no position twice. */
  lemma SortedNoDuplicates(keys: seq<string>, o: seq<nat>)
    requires SortedBy(keys, o)
    ensures NoDuplicates(o)
  {
    forall a, b | 0 <= a < b < |o| ensures o[a] != o[b] {
      BeforeIrreflexive(keys, o[a]);
    }
  }

  /** `sorted` on distinct strings: the same strings, strictly increasing. */
  function SortStrings(ks: seq<string>): (r: seq<string>)
    requires NoDuplicates(ks)
    ensures |r| == |ks|
    ensures forall x :: x in r <==> x in ks
    ensures forall a, b :: 0 <= a < b < |r| ==> StrLess(r[a], r[b])
  {
    var o := StableOrder(ks);
    var r := seq(|o|, a requires 0 <= a < |o| => ks[o[a]]);
    assert forall x :: x in ks ==> x in r by {
      forall x | x in ks ensures x in r {
        var i :| 0 <= i < |ks| && ks[i] == x;
        assert i in o;
        var a :| 0 <= a < |o| && o[a] == i;
        assert r[a] == x;
      }
    }
    SortedNoDuplicates(ks, o);
    r
  }
}
