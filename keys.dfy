/**
 * Directory entries and their grouping keys: `get_canonical_key`
 * (dd.py:56-62) and the key computation inlined in `process_base_dir`
 * (dd.py:71-76).
 */
module Keys {
  import opened Wrappers
  import opened Text
  import opened Canonical
  import opened Imdb

  type Path = string

  /**
   * One entry of a root's listing: its path (what `Path` equality compares),
   * its basename, whether it is a directory, and the text of its `*.nfo`
   * files in glob order, `None` for a file whose reading raised.
   */
  datatype Entry = Entry(path: Path, name: string, isDir: bool, nfo: seq<Option<string>>)

  const IdPrefix: string := "imdb:"

  /** A listing names every path once; `Path` equality compares whole paths. */
  predicate DistinctPaths(xs: seq<Entry>) {
    forall a, b :: 0 <= a < b < |xs| ==> xs[a].path != xs[b].path
  }

  /** `get_canonical_key`: the sidecar identifier when there is one, else the name's key. */
  function CanonicalKey(e: Entry): string {
    match FirstId(e.nfo)
    case Some(id) => IdPrefix + id
    case None => CanonicalizeName(e.name)
  }

  /** Whenever a sidecar file yields an identifier the key is built from it, whatever the name. */
  lemma KeyFromSidecar(e: Entry, k: nat)
    requires k < |e.nfo| && HasId(e.nfo[k])
    requires forall j :: 0 <= j < k ==> !HasId(e.nfo[j])
    ensures CanonicalKey(e) == "imdb:" + FindImdbId(e.nfo[k].value).value
  {
    FirstIdIsFirstMatch(e.nfo, k);
  }

  /** Without an identifier in any readable sidecar file the key is the name's. */
  lemma KeyFromName(e: Entry)
    requires forall j :: 0 <= j < |e.nfo| ==> !HasId(e.nfo[j])
    ensures CanonicalKey(e) == CanonicalizeName(e.name)
  {
    FirstIdAbsent(e.nfo);
  }

  /**
   * No name canonicalises to an identifier key: either a year is found,
   * and the key ends in a blank and four digits, or the name holds no run
   * of four digits, which an identifier key does.
   */
  lemma NameKeyIsNeverIdKey(name: string, id: string)
    requires IsImdbId(id)
    ensures CanonicalizeName(name) != IdPrefix + id
  {
    var key := IdPrefix + id;
    assert FourDigitsAt(key, 7) by {
      assert key[7..11] == id[2..6];
    }
    assert YearMatchAt(key, 7);
    match FindYear(name)
    case Some(i) =>
      var t := Lower(Strip(ReplaceDots(name[..i])));
      var r := t + " " + name[i..i + 4];
      assert r[|r| - 5] == ' ';
      assert IsDigit(key[|key| - 5]);
    case None =>
      LowerKeepsYearMatches(name);
      assert !YearMatchAt(Lower(name), 7);
  }

  /** Directories share a key only if both or neither took it from a sidecar identifier. */
  lemma SameKeySameKind(a: Entry, b: Entry)
    requires CanonicalKey(a) == CanonicalKey(b)
    ensures FirstId(a.nfo).Some? <==> FirstId(b.nfo).Some?
  {
    if FirstId(a.nfo).Some? && FirstId(b.nfo).None? {
      NameKeyIsNeverIdKey(b.name, FirstId(a.nfo).value);
    } else if FirstId(a.nfo).None? && FirstId(b.nfo).Some? {
      NameKeyIsNeverIdKey(a.name, FirstId(b.nfo).value);
    }
  }

  /** A sidecar file holding "tt1234567" after an unreadable one gives the key "imdb:tt1234567". */
  lemma SidecarScenario(e: Entry)
    requires e.nfo == [None, Some("tt1234567")]
    ensures CanonicalKey(e) == "imdb:tt1234567"
  {
    var content := "tt1234567";
    assert IdAt(content, 0);
    FindImdbIdLeftmost(content, 0);
    assert content[0..9] == content;
    KeyFromSidecar(e, 1);
  }

  /** `dir_info` as a sequence: each directory with its key, in listing order. */
  function Info(dirs: seq<Entry>): (info: seq<(Entry, string)>)
    ensures |info| == |dirs|
    ensures forall i :: 0 <= i < |dirs| ==> info[i] == (dirs[i], CanonicalKey(dirs[i]))
  {
    seq(|dirs|, i requires 0 <= i < |dirs| => (dirs[i], CanonicalKey(dirs[i])))
  }

  lemma InfoSnoc(dirs: seq<Entry>, i: nat, key: string)
    requires i < |dirs| && key == CanonicalKey(dirs[i])
    ensures Info(dirs[..i + 1]) == Info(dirs[..i]) + [(dirs[i], key)]
  {
  }

  /**
   * The body of the loop at dd.py:73-75: both the identifier and the name's
   * key are computed and one is picked inline. It agrees with
   * `get_canonical_key`.
   */
  method InlineKey(d: Entry) returns (key: string)
    ensures key == CanonicalKey(d)
  {
    var imdbId := ImdbIdFromDirectory(d.nfo);
    var canonical := CanonicalizeName(d.name);
    key := if imdbId.Some? then IdPrefix + imdbId.value else canonical;
  }

  /** The loop at dd.py:72-76: `dir_info` in listing order. */
  method ComputeKeys(dirs: seq<Entry>) returns (info: seq<(Entry, string)>)
    ensures info == Info(dirs)
  {
    info := [];
    for i := 0 to |dirs|
      invariant info == Info(dirs[..i])
    {
      var key := InlineKey(dirs[i]);
      InfoSnoc(dirs, i, key);
      info := info + [(dirs[i], key)];
    }
    assert dirs[..|dirs|] == dirs;
  }
}
