/**
 * Weighted pattern scoring: `compile_score_patterns` (dd.py:18-22) and
 * `calculate_score` (dd.py:24-29). The regex engine is not modelled: a
 * `Matcher` says whether a user pattern, compiled with `re.IGNORECASE`,
 * is found anywhere in a name. Compiled patterns with equal text and
 * flags are equal dict keys, so the dict is keyed by the pattern text.
 */
module Scoring {
  import opened Wrappers
  import opened Seqs

  /** One `score_patterns` item of the configuration, once both of its keys have been read. */
  datatype Rule = Rule(pattern: string, score: int)

  /** One `score_patterns` table as the configuration gives it: either key may be missing. */
  datatype Item = Item(pattern: Option<string>, score: Option<int>)

  /** `re.compile(pattern, re.IGNORECASE)` returns; otherwise it raises `re.error`. */
  type Compiler = string -> bool

  /** `re.compile(pattern, re.IGNORECASE).search(name)` succeeds. */
  type Matcher = (string, string) -> bool

  /** The dict of compiled patterns, as (pattern, weight) pairs in the dict's key order. */
  type Compiled = seq<(string, int)>

  function Patterns(rules: seq<Rule>): (r: seq<string>)
    ensures |r| == |rules|
    ensures forall i :: 0 <= i < |rules| ==> r[i] == rules[i].pattern
  {
    seq(|rules|, i requires 0 <= i < |rules| => rules[i].pattern)
  }

  function CompiledKeys(d: Compiled): (r: seq<string>)
    ensures |r| == |d|
    ensures forall i :: 0 <= i < |d| ==> r[i] == d[i].0
  {
    seq(|d|, i requires 0 <= i < |d| => d[i].0)
  }

  /** The weight each pattern ends up with when the rules are assigned in order. */
  function Weights(rules: seq<Rule>): map<string, int> {
    if rules == [] then map[]
    else Weights(rules[..|rules| - 1])[rules[|rules| - 1].pattern := rules[|rules| - 1].score]
  }

  /** Exactly the configured patterns have a weight. */
  lemma {:induction false} WeightsDomain(rules: seq<Rule>)
    ensures forall q :: q in Weights(rules) <==> q in Patterns(rules)
  {
    if rules != [] {
      var p := rules[..|rules| - 1];
      WeightsDomain(p);
      assert Patterns(rules) == Patterns(p) + [rules[|rules| - 1].pattern];
    }
  }

  /**
   * A pattern listed more than once keeps the weight of its last listing:
   * the later dict assignment overwrites the earlier one.
   */
  lemma {:induction false} WeightIsLastListed(rules: seq<Rule>, i: nat)
    requires i < |rules|
    requires forall j :: i < j < |rules| ==> rules[j].pattern != rules[i].pattern
    ensures rules[i].pattern in Weights(rules)
    ensures Weights(rules)[rules[i].pattern] == rules[i].score
  {
    if i < |rules| - 1 {
      var p := rules[..|rules| - 1];
      WeightIsLastListed(p, i);
    }
  }

  /** The dict `compile_score_patterns` returns: every pattern once, in first-listing order, with its last weight. */
  function CompiledOf(rules: seq<Rule>): (d: Compiled)
    ensures CompiledKeys(d) == Dedup(Patterns(rules))
  {
    var ks := Dedup(Patterns(rules));
    var w := Weights(rules);
    WeightsDomain(rules);
    assert forall i :: 0 <= i < |ks| ==> ks[i] in w by {
      forall i | 0 <= i < |ks| ensures ks[i] in w {
        assert ks[i] in Patterns(rules);
      }
    }
    seq(|ks|, i requires 0 <= i < |ks| => (ks[i], w[ks[i]]))
  }

  /**
   * The compiled dict has one entry per distinct pattern, and that entry's
   * weight is the score of the pattern's last listing (`WeightIsLastListed`).
   */
  lemma CompiledMeaning(rules: seq<Rule>)
    ensures NoDuplicates(CompiledKeys(CompiledOf(rules)))
    ensures forall p :: p in CompiledKeys(CompiledOf(rules)) <==> p in Patterns(rules)
    ensures forall x :: x in CompiledOf(rules) <==> x.0 in Weights(rules) && x.1 == Weights(rules)[x.0]
  {
    var d := CompiledOf(rules);
    var w := Weights(rules);
    WeightsDomain(rules);
    forall x: (string, int) | x.0 in w && x.1 == w[x.0] ensures x in d {
      assert x.0 in CompiledKeys(d);
      var i :| 0 <= i < |d| && CompiledKeys(d)[i] == x.0;
      assert d[i] == x;
    }
  }

  /** `compiled[key] = value`: a new key is appended, an existing one keeps its place. */
  function Assign(d: Compiled, key: string, value: int): (r: Compiled)
    requires NoDuplicates(CompiledKeys(d))
    ensures key in CompiledKeys(d) ==> |r| == |d| && forall i :: 0 <= i < |d| ==> r[i] == if d[i].0 == key then (key, value) else d[i]
    ensures key !in CompiledKeys(d) ==> r == d + [(key, value)]
  {
    if d == [] then [(key, value)]
    else if d[0].0 == key then [(key, value)] + d[1..]
    else
      var tail := d[1..];
      assert CompiledKeys(tail) == CompiledKeys(d)[1..];
      assert key in CompiledKeys(d) <==> key in CompiledKeys(tail);
      [d[0]] + Assign(tail, key, value)
  }

  /** One assignment of the loop extends the dict built from the rules before it. */
  lemma AssignStep(rules: seq<Rule>, i: nat)
    requires i < |rules|
    ensures NoDuplicates(CompiledKeys(CompiledOf(rules[..i])))
    ensures Assign(CompiledOf(rules[..i]), rules[i].pattern, rules[i].score) == CompiledOf(rules[..i + 1])
  {
    var p := rules[..i];
    var rs := rules[..i + 1];
    assert rs == p + [rules[i]];
    assert rs[..i] == p;
    assert Patterns(rs) == Patterns(p) + [rules[i].pattern];
    DedupSnoc(Patterns(p), rules[i].pattern);
  }

  /**
   * The item gives a rule: `item["pattern"]` and `item["score"]` do not
   * raise `KeyError`, and the pattern compiles.
   */
  predicate Usable(item: Item, compiles: Compiler) {
    item.pattern.Some? && item.score.Some? && compiles(item.pattern.value)
  }

  /** The rules of the items, or `None` when reading or compiling one of them raises. */
  function RulesOf(items: seq<Item>, compiles: Compiler): (r: Option<seq<Rule>>)
    ensures r.Some? <==> forall i :: 0 <= i < |items| ==> Usable(items[i], compiles)
    ensures r.Some? ==> |r.value| == |items|
    ensures r.Some? ==> forall i :: 0 <= i < |items| ==> r.value[i] == Rule(items[i].pattern.value, items[i].score.value)
  {
    if items == [] then Some([])
    else
      var p := items[..|items| - 1];
      var last := items[|items| - 1];
      assert forall i :: 0 <= i < |p| ==> p[i] == items[i];
      match RulesOf(p, compiles)
      case None => None
      case Some(rs) =>
        if Usable(last, compiles) then Some(rs + [Rule(last.pattern.value, last.score.value)]) else None
  }

  /** One more usable item extends the rules by its own rule. */
  lemma RulesStep(items: seq<Item>, compiles: Compiler, i: nat, rules: seq<Rule>)
    requires i < |items| && Usable(items[i], compiles)
    requires RulesOf(items[..i], compiles) == Some(rules)
    ensures RulesOf(items[..i + 1], compiles) == Some(rules + [Rule(items[i].pattern.value, items[i].score.value)])
  {
    assert items[..i + 1][..i] == items[..i];
  }

  /**
   * The loop of `compile_score_patterns`. It ends at the first item whose
   * key is missing or whose pattern does not compile, and then the
   * exception leaves the function: no dict is returned.
   */
  method CompilePatterns(items: seq<Item>, compiles: Compiler) returns (compiled: Option<Compiled>)
    ensures compiled.None? <==> exists i :: 0 <= i < |items| && !Usable(items[i], compiles)
    ensures compiled.Some? ==> RulesOf(items, compiles).Some? && compiled.value == CompiledOf(RulesOf(items, compiles).value)
  {
    var dict: Compiled := [];
    ghost var rules: seq<Rule> := [];
    for i := 0 to |items|
      invariant RulesOf(items[..i], compiles) == Some(rules)
      invariant dict == CompiledOf(rules)
    {
      var item := items[i];
      if !Usable(item, compiles) {
        assert !Usable(items[i], compiles);
        return None;
      }
      var r := Rule(item.pattern.value, item.score.value);
      ghost var next := rules + [r];
      assert |rules| == i;
      assert next[..i] == rules && next[i] == r && next[..i + 1] == next;
      AssignStep(next, i);
      RulesStep(items, compiles, i, rules);
      dict := Assign(dict, r.pattern, r.score);
      rules := next;
    }
    assert items[..|items|] == items;
    return Some(dict);
  }

  /** What one dict entry adds to a name's score. */
  function Contribution(e: (string, int), name: string, matches: Matcher): int {
    if matches(e.0, name) then e.1 else 0
  }

  /** The weights of all entries whose pattern matches the name, summed. */
  function Total(d: Compiled, name: string, matches: Matcher): int {
    if d == [] then 0 else Total(d[..|d| - 1], name, matches) + Contribution(d[|d| - 1], name, matches)
  }

  /** `calculate_score`: every entry is tried, none short-circuits the sum. */
  method CalculateScore(name: string, compiled: Compiled, matches: Matcher) returns (score: int)
    ensures score == Total(compiled, name, matches)
  {
    score := 0;
    for i := 0 to |compiled|
      invariant score == Total(compiled[..i], name, matches)
    {
      assert compiled[..i + 1][..i] == compiled[..i];
      var (pattern, value) := compiled[i];
      if matches(pattern, name) {
        score := score + value;
      }
    }
    assert compiled[..|compiled|] == compiled;
  }

  /** `d` with entry `j` taken out. */
  function RemoveAt(d: Compiled, j: nat): (r: Compiled)
    requires j < |d|
    ensures |r| == |d| - 1
    ensures forall i :: 0 <= i < |r| ==> r[i] == if i < j then d[i] else d[i + 1]
  {
    d[..j] + d[j + 1..]
  }

  /** Taking one entry out takes its contribution out of the total. */
  lemma {:induction false} TotalWithout(d: Compiled, j: nat, name: string, matches: Matcher)
    requires j < |d|
    ensures Total(d, name, matches) == Total(RemoveAt(d, j), name, matches) + Contribution(d[j], name, matches)
  {
    var n := |d| - 1;
    if j < n {
      var p := d[..n];
      TotalWithout(p, j, name, matches);
      var e := RemoveAt(d, j);
      assert e[..|e| - 1] == RemoveAt(p, j);
      assert e[|e| - 1] == d[n];
    } else {
      assert RemoveAt(d, j) == d[..n];
    }
  }

  lemma RemoveMultiset(d: Compiled, j: nat)
    requires j < |d|
    ensures multiset(RemoveAt(d, j)) == multiset(d) - multiset{d[j]}
  {
    assert d == d[..j] + [d[j]] + d[j + 1..];
  }

  /** Distinct patterns make distinct entries. */
  lemma DistinctEntries(d: Compiled)
    requires NoDuplicates(CompiledKeys(d))
    ensures NoDuplicates(d)
  {
    forall a, b | 0 <= a < b < |d| ensures d[a] != d[b] {
      assert CompiledKeys(d)[a] != CompiledKeys(d)[b];
    }
  }

  /** A list without repeats holds each of its elements exactly once. */
  lemma {:induction false} DistinctMultiset(d: Compiled)
    requires NoDuplicates(d)
    ensures forall x :: multiset(d)[x] == if x in d then 1 else 0
  {
    if d != [] {
      var p := d[..|d| - 1];
      assert d == p + [d[|d| - 1]];
      DistinctMultiset(p);
    }
  }

  /** Two lists without repeats and with the same elements are permutations of each other. */
  lemma SameMembersSameMultiset(d1: Compiled, d2: Compiled)
    requires NoDuplicates(d1) && NoDuplicates(d2)
    requires forall x :: x in d1 <==> x in d2
    ensures multiset(d1) == multiset(d2)
  {
    DistinctMultiset(d1);
    DistinctMultiset(d2);
  }

  /** The score does not depend on the order of the dict's entries. */
  lemma {:induction false} TotalIgnoresOrder(d1: Compiled, d2: Compiled, name: string, matches: Matcher)
    requires multiset(d1) == multiset(d2)
    ensures Total(d1, name, matches) == Total(d2, name, matches)
    decreases |d1|
  {
    if d1 == [] {
      assert |d2| == |multiset(d2)| == 0;
    } else {
      var n := |d1| - 1;
      var x := d1[n];
      assert x in multiset(d2);
      var j :| 0 <= j < |d2| && d2[j] == x;
      TotalWithout(d1, n, name, matches);
      TotalWithout(d2, j, name, matches);
      RemoveMultiset(d1, n);
      RemoveMultiset(d2, j);
      TotalIgnoresOrder(RemoveAt(d1, n), RemoveAt(d2, j), name, matches);
    }
  }

  /** Removing rule `i` from a list of rules. */
  function Without(rules: seq<Rule>, i: nat): seq<Rule>
    requires i < |rules|
  {
    rules[..i] + rules[i + 1..]
  }

  /**
   * A pattern listed twice counts once in every score, with its last
   * weight: dropping the earlier listing changes no score.
   */
  lemma RepeatedPatternCountsOnce(rules: seq<Rule>, i: nat, j: nat, name: string, matches: Matcher)
    requires i < j < |rules| && rules[i].pattern == rules[j].pattern
    ensures Total(CompiledOf(rules), name, matches) == Total(CompiledOf(Without(rules, i)), name, matches)
  {
    var rest := Without(rules, i);
    assert forall k :: 0 <= k < |rest| ==> rest[k] == if k < i then rules[k] else rules[k + 1];
    WeightsWithout(rules, i, j);
    CompiledMeaning(rules);
    CompiledMeaning(rest);
    DistinctEntries(CompiledOf(rules));
    DistinctEntries(CompiledOf(rest));
    SameMembersSameMultiset(CompiledOf(rules), CompiledOf(rest));
    TotalIgnoresOrder(CompiledOf(rules), CompiledOf(rest), name, matches);
  }

  lemma WithoutLast(rules: seq<Rule>, i: nat)
    requires i < |rules| - 1
    ensures Without(rules, i) == Without(rules[..|rules| - 1], i) + [rules[|rules| - 1]]
  {
  }

  lemma {:induction false} WeightsWithout(rules: seq<Rule>, i: nat, j: nat)
    requires i < j < |rules| && rules[i].pattern == rules[j].pattern
    ensures Weights(Without(rules, i)) == Weights(rules)
  {
    var n := |rules| - 1;
    var rest := Without(rules, i);
    var last := rules[n];
    WithoutLast(rules, i);
    assert rest[..|rest| - 1] == Without(rules[..n], i) && rest[|rest| - 1] == last;
    if j < n {
      WeightsWithout(rules[..n], i, j);
    } else {
      WeightsAgreeBelow(rules[..n], i, last.pattern);
      SameUpdate(Weights(Without(rules[..n], i)), Weights(rules[..n]), last.pattern, last.score);
    }
  }

  /** Two maps that agree away from `p` are equal once both map `p` to `v`. */
  lemma SameUpdate(m1: map<string, int>, m2: map<string, int>, p: string, v: int)
    requires forall q :: q != p ==> (q in m1 <==> q in m2)
    requires forall q :: q != p && q in m2 ==> m1[q] == m2[q]
    ensures m1[p := v] == m2[p := v]
  {
  }

  /** Dropping rule `i`, whose pattern is `p`, leaves the weight of every other pattern alone. */
  lemma {:induction false} WeightsAgreeBelow(rules: seq<Rule>, i: nat, p: string)
    requires i < |rules| && p == rules[i].pattern
    ensures forall q :: q != p ==> (q in Weights(Without(rules, i)) <==> q in Weights(rules))
    ensures forall q :: q != p && q in Weights(rules) ==> Weights(Without(rules, i))[q] == Weights(rules)[q]
  {
    var rest := Without(rules, i);
    var n := |rules| - 1;
    if i < n {
      WithoutLast(rules, i);
      assert rest[..|rest| - 1] == Without(rules[..n], i);
      WeightsAgreeBelow(rules[..n], i, p);
    } else {
      assert rest == rules[..n];
    }
  }

  /** The plain sum over the configured rules, every matching rule counted. */
  function RuleSum(rules: seq<Rule>, name: string, matches: Matcher): int {
    if rules == [] then 0
    else RuleSum(rules[..|rules| - 1], name, matches)
         + (if matches(rules[|rules| - 1].pattern, name) then rules[|rules| - 1].score else 0)
  }

  /**
   * With no pattern listed twice, the score is the full sum of the weights
   * of every rule whose pattern matches the name.
   */
  lemma {:induction false} DistinctRulesFullSum(rules: seq<Rule>, name: string, matches: Matcher)
    requires NoDuplicates(Patterns(rules))
    ensures Total(CompiledOf(rules), name, matches) == RuleSum(rules, name, matches)
  {
    if rules != [] {
      var n := |rules| - 1;
      var p := rules[..n];
      var r := rules[n];
      DistinctPrefix(rules, n);
      DistinctRulesFullSum(p, name, matches);
      CompiledSnocNew(rules, n);
      assert rules[..n + 1] == rules;
      TotalSnoc(CompiledOf(p), (r.pattern, r.score), name, matches);
    }
  }

  /** A prefix of rules with distinct patterns has distinct patterns, none of them the next one's. */
  lemma DistinctPrefix(rules: seq<Rule>, n: nat)
    requires NoDuplicates(Patterns(rules)) && n < |rules|
    ensures NoDuplicates(Patterns(rules[..n]))
    ensures rules[n].pattern !in Patterns(rules[..n])
  {
    assert forall k :: 0 <= k < n ==> Patterns(rules[..n])[k] == Patterns(rules)[k];
  }

  lemma TotalSnoc(d: Compiled, e: (string, int), name: string, matches: Matcher)
    ensures Total(d + [e], name, matches) == Total(d, name, matches) + Contribution(e, name, matches)
  {
    assert (d + [e])[..|d|] == d;
  }

  /** A rule with a pattern not listed before it appends one entry to the dict. */
  lemma CompiledSnocNew(rules: seq<Rule>, i: nat)
    requires i < |rules| && rules[i].pattern !in Patterns(rules[..i])
    ensures CompiledOf(rules[..i + 1]) == CompiledOf(rules[..i]) + [(rules[i].pattern, rules[i].score)]
  {
    AssignStep(rules, i);
    CompiledMeaning(rules[..i]);
  }

  /** An empty rule set scores every name 0. */
  lemma EmptyRulesScoreZero(name: string, matches: Matcher)
    ensures Total(CompiledOf([]), name, matches) == 0
  {
    assert CompiledOf([]) == [];
  }
}
