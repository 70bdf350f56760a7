/**
 * `get_imdb_id_from_directory` (dd.py:31-44): the sidecar identifier. The
 * directory's `*.nfo` files are given in glob order as their decoded text,
 * `None` standing for a file whose reading raised. The fixed pattern
 * `tt\d{7,8}` is modelled concretely over ASCII.
 */
module Imdb {
  import opened Wrappers
  import opened Text

  /** `tt` followed by seven digits starts at position `p` of `s`. */
  predicate IdAt(s: string, p: nat) {
    p + 9 <= |s| && s[p] == 't' && s[p + 1] == 't' && forall k :: p + 2 <= k < p + 9 ==> IsDigit(s[k])
  }

  /** `\d{7,8}` is greedy: the match takes an eighth digit when one follows. */
  function IdLength(s: string, p: nat): (n: nat)
    requires IdAt(s, p)
    ensures n == 9 || n == 10
    ensures p + n <= |s|
  {
    if p + 9 < |s| && IsDigit(s[p + 9]) then 10 else 9
  }

  /** The text of an identifier: `tt` and seven or eight digits. */
  predicate IsImdbId(id: string) {
    (|id| == 9 || |id| == 10) && id[0] == 't' && id[1] == 't'
    && forall k :: 2 <= k < |id| ==> IsDigit(id[k])
  }

  /** The leftmost match position at or after `i`, every earlier one ruled out. */
  function IdFrom(s: string, i: nat): (r: Option<nat>)
    requires i <= |s|
    requires forall j: nat :: j < i ==> !IdAt(s, j)
    ensures r.Some? ==> IdAt(s, r.value) && forall j: nat :: j < r.value ==> !IdAt(s, j)
    ensures r.None? ==> forall j: nat :: !IdAt(s, j)
    decreases |s| - i
  {
    if i + 9 > |s| then None
    else if IdAt(s, i) then Some(i)
    else IdFrom(s, i + 1)
  }

  /** `re.search(r"(tt\d{7,8})", content)`, group 1. */
  function FindImdbId(content: string): (r: Option<string>)
    ensures r.Some? ==> IsImdbId(r.value)
  {
    match IdFrom(content, 0)
    case Some(p) => Some(content[p..p + IdLength(content, p)])
    case None => None
  }

  /**
   * The search yields the leftmost occurrence of `tt` and seven digits,
   * taking eight digits when an eighth follows.
   */
  lemma FindImdbIdLeftmost(content: string, p: nat)
    requires IdAt(content, p)
    requires forall j: nat :: j < p ==> !IdAt(content, j)
    ensures FindImdbId(content)
         == Some(if p + 9 < |content| && IsDigit(content[p + 9]) then content[p..p + 10] else content[p..p + 9])
  {
    var r := IdFrom(content, 0);
    assert IdAt(content, r.value);
    assert r.value == p;
  }

  /** Without such an occurrence the search fails. */
  lemma FindImdbIdAbsent(content: string)
    requires forall p: nat :: !IdAt(content, p)
    ensures FindImdbId(content) == None
  {
    assert IdFrom(content, 0).None?;
  }

  /** A sidecar file that was read and holds an identifier. */
  predicate HasId(file: Option<string>) {
    file.Some? && FindImdbId(file.value).Some?
  }

  /** Index of the first file holding an identifier, the earlier ones ruled out. */
  function FirstIdFrom(files: seq<Option<string>>, i: nat): (r: Option<nat>)
    requires i <= |files|
    requires forall j :: 0 <= j < i ==> !HasId(files[j])
    ensures r.Some? ==> r.value < |files| && HasId(files[r.value]) && forall j :: 0 <= j < r.value ==> !HasId(files[j])
    ensures r.None? ==> forall j :: 0 <= j < |files| ==> !HasId(files[j])
    decreases |files| - i
  {
    if i == |files| then None
    else if HasId(files[i]) then Some(i)
    else FirstIdFrom(files, i + 1)
  }

  /** The identifier of the first readable file, in glob order, that holds one. */
  function FirstId(files: seq<Option<string>>): Option<string> {
    match FirstIdFrom(files, 0)
    case Some(k) => FindImdbId(files[k].value)
    case None => None
  }

  /**
   * The result comes from the first file holding an identifier; files that
   * could not be read, or hold none, before it are passed over.
   */
  lemma FirstIdIsFirstMatch(files: seq<Option<string>>, k: nat)
    requires k < |files| && HasId(files[k])
    requires forall j :: 0 <= j < k ==> !HasId(files[j])
    ensures FirstId(files) == FindImdbId(files[k].value)
  {
    var r := FirstIdFrom(files, 0);
    assert HasId(files[r.value]);
    assert r.value == k;
  }

  /** No file holding an identifier: no identifier. */
  lemma FirstIdAbsent(files: seq<Option<string>>)
    requires forall j :: 0 <= j < |files| ==> !HasId(files[j])
    ensures FirstId(files) == None
  {
    assert FirstIdFrom(files, 0).None?;
  }

  /** `get_imdb_id_from_directory`: the loop over the files, returning at the first match. */
  method ImdbIdFromDirectory(nfo: seq<Option<string>>) returns (r: Option<string>)
    ensures r == FirstId(nfo)
    ensures r.Some? ==> IsImdbId(r.value)
  {
    for i := 0 to |nfo|
      invariant forall j :: 0 <= j < i ==> !HasId(nfo[j])
    {
      match nfo[i]
      case None =>
      case Some(content) =>
        var m := FindImdbId(content);
        if m.Some? {
          FirstIdIsFirstMatch(nfo, i);
          return m;
        }
    }
    FirstIdAbsent(nfo);
    return None;
  }
}
