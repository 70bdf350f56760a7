# dd: duplicate media directories, modelled in Dafny

`dd.py` scans its configured root directories. In each root it looks at every
immediate subdirectory (one film or release per directory) and gives it a grouping key:

- `imdb:tt…` when a `*.nfo` sidecar file inside it names an IMDb identifier;
- otherwise the directory name, canonicalised to "title year".

Directories with the same key are duplicates. In each group of more than one
directory, the directory whose name scores highest against the configured, weighted
regular expressions survives. Every other directory is listed as a duplicate, reported as "would
delete" (`--delete --dry-run`), or removed with `shutil.rmtree` (`--delete`).

The model covers that pipeline, as the code does it:

| module | what it models |
|---|---|
| `Text` | The ASCII string operations on names: `lower`, `replace('.', ' ')`, `strip`. |
| `Canonical` | `canonicalize_name`, with its pattern `^(.*?)(\d{4})` written out concretely. |
| `Imdb` | `get_imdb_id_from_directory`: the search `tt\d{7,8}` over the sidecar files in glob order. |
| `Keys` | The directory entry, `get_canonical_key`, and the key loop inlined in `process_base_dir`. |
| `Scoring` | `compile_score_patterns`, with its `KeyError` and `re.error` cases, and `calculate_score`. Whether a pattern compiles is a `Compiler` parameter, and the regex engine is a `Matcher` parameter. |
| `Seqs`, `Sorting` | Python dict key order, Python `str` ordering, and the stable `sorted`. |
| `Grouping` | The `grouped_dirs` pass. |
| `Selection` | One group: the survivor scan, the sort by lower-cased name, and the action for each non-survivor. |
| `FileSystems` | A `FileSystem` class: which directories exist, and which cannot be removed. |
| `Pipeline` | `process_base_dir` for one root, and `main` after reading the configuration: compiling the patterns, then the loop over all roots. |

How the model works:

- Loops in the source are methods with loop invariants. Each is proved equal to a
  specification function, for example `ProcessBaseDir` equals `RootOutcome`. The
  lemmas state the source's promises about those functions.
- The printed output of a group is modelled as a log of `Action` values. Each value
  has the directory and its score.
- The effect on the disk is modelled as the set of paths removed.

Behaviour the code has that a reader might not expect, which the model keeps:

- `"Movie.Title.2020.BluRay"` has the key `movie title 2020`. `"Movie Title (2020)
  WEBRip"` has the key `movie title ( 2020`, because only dots become blanks and the
  bracket stays in the title. So these two names are not grouped together, although
  a reader might expect them to be. The model follows the code: see
  `Canonical.DottedNameKey` and `Canonical.BracketedNameKey`.
- A pattern listed twice in the configuration is one dict key. It keeps the place of
  its first listing and takes the weight of its last.
- `max_score` starts at minus infinity, so the first directory of a group is always a
  candidate. A later directory replaces it only with a strictly higher score, so ties
  go to the earliest directory in listing order.
- Removals in one group change what exists for the groups and roots that follow. The
  model threads the set of existing directories through the whole run.
- A root that exists but cannot be listed (a regular file, or a directory that cannot
  be read) passes the existence test. `iterdir` then raises outside any `try`, which
  ends `main`: no later root is processed. The model records this as an `Aborted`
  outcome that ends the run.
- A `score_patterns` item without a `pattern` or a `score` key raises `KeyError`, and
  a pattern that does not compile raises `re.error`. Neither is caught, so `main`
  ends before any root is processed. The model's `Run` then returns `None` and
  removes nothing.

## Model

| member | source | states |
|---|---|---|
| `Text.Lower` | dd.py:51 | Lower-casing keeps the length and lowers each character on its own. |
| `Text.ReplaceDots` | dd.py:49 | Replacing dots keeps the length, turns every dot into a blank and leaves every other character alone. |
| `Text.Strip` | dd.py:49 | The stripped text neither starts nor ends with whitespace. |
| `Text.StripIsSlice` | dd.py:49 | `strip` removes only whitespace, and only at the two ends: the result is a contiguous slice of the text, with whitespace alone before and after it. |
| `Canonical.CanonicalizeName` | dd.py:46-54 | Defines `canonicalize_name`. Its behaviour is stated by `CanonicalWithYear`, `CanonicalWithoutYear`, `TitleIsCanonical` and `CanonicalizeIdempotent`. |
| `Canonical.YearFrom` | dd.py:47 | The lazy search from a position where no shorter prefix matched: it finds the shortest prefix with which `^(.*?)(\d{4})` matches, or reports that the pattern cannot match. |
| `Canonical.FindYear` | dd.py:47 | `re.match(r"^(.*?)(\d{4})", name)`: the length of the shortest matching prefix, with no match at any shorter one, or none when no prefix matches. |
| `Canonical.CanonicalWithYear` | dd.py:46-51 | When the leftmost run of four digits (no newline before it) starts at `i`, the key is the prefix with dots made blanks, stripped and lowered, then a blank, then those four digits. Later digit runs are ignored. |
| `Canonical.CanonicalWithoutYear` | dd.py:46-54 | With no run of four digits that the pattern can reach, the key is the whole name, lowered. |
| `Canonical.TitleIsCanonical` | dd.py:47-51 | The title part of a key is stripped, lower-case, and holds no dot, no newline and no four-digit run. |
| `Canonical.CanonicalizeIdempotent` | dd.py:46-54 | Canonicalising a key gives the key back. |
| `Canonical.KeyOfTitleAndYear` | dd.py:47-51 | A canonical title, a blank and a four-digit year form a key that maps to itself. |
| `Canonical.TitleYearRest` | dd.py:46-51 | A title with no digit and no newline, then a four-digit year, then anything: the key is the title with dots made blanks, stripped and lowered, a blank, and the year. |
| `Canonical.LowerKeepsYearMatches` | dd.py:47-54 | Lower-casing a name keeps every position where the year pattern can match. |
| `Canonical.DottedNameKey` | dd.py:46-51 | `"Movie.Title.2020.BluRay"`, given as the three pieces around its year, has the key `"movie title 2020"`. |
| `Canonical.BracketedNameKey` | dd.py:46-51 | `"Movie Title (2020) WEBRip"`, given as the three pieces around its year, has the key `"movie title ( 2020"`, so it is not grouped with the dotted name. |
| `Imdb.FirstId` | dd.py:31-44 | Defines `get_imdb_id_from_directory` on the files' texts in glob order. Its behaviour is stated by `FirstIdIsFirstMatch` and `FirstIdAbsent`, and the loop `ImdbIdFromDirectory` is proved equal to it. |
| `Imdb.FindImdbId` | dd.py:36 | Any identifier found is `tt` followed by 7 or 8 digits. |
| `Imdb.FindImdbIdLeftmost` | dd.py:36 | The search returns the leftmost `tt` followed by seven digits, and takes an eighth digit when one follows (greedy). |
| `Imdb.FindImdbIdAbsent` | dd.py:36-37 | Text without such an occurrence yields no identifier. |
| `Imdb.IdFrom` | dd.py:36 | The scan from a position finds the leftmost occurrence of `tt` and seven digits, or reports that there is none. |
| `Imdb.FirstIdIsFirstMatch` | dd.py:33-43 | The identifier comes from the first file, in glob order, that holds one. Files before it that could not be read, or that hold no identifier, are passed over. |
| `Imdb.FirstIdAbsent` | dd.py:33-44 | When no file holds an identifier, the result is `None`. |
| `Imdb.FirstIdFrom` | dd.py:33-40 | The first readable file, in glob order, whose text holds an identifier, or none when no file does. |
| `Imdb.ImdbIdFromDirectory` | dd.py:31-44 | The loop returns at the first match, skips files whose reading raised, and returns what `FirstId` returns. |
| `Keys.CanonicalKey` | dd.py:56-62 | Defines `get_canonical_key`. Its behaviour is stated by `KeyFromSidecar`, `KeyFromName`, `NameKeyIsNeverIdKey` and `SameKeySameKind`. |
| `Keys.KeyFromSidecar` | dd.py:56-61 | When a sidecar file yields an identifier, the key is `"imdb:"` followed by it, whatever the name is. |
| `Keys.KeyFromName` | dd.py:56-62 | When no readable sidecar file holds an identifier, the key is the canonicalised name. |
| `Keys.NameKeyIsNeverIdKey` | dd.py:51-61 | No name canonicalises to an `imdb:` key. |
| `Keys.SameKeySameKind` | dd.py:56-62 | Two directories share a key only if both keys, or neither, come from a sidecar identifier. |
| `Keys.SidecarScenario` | dd.py:31-61 | An unreadable file followed by one holding `tt1234567` gives the key `imdb:tt1234567`. |
| `Keys.InlineKey` | dd.py:73-75 | The key computed inline in `process_base_dir` equals `get_canonical_key` for the directory. |
| `Keys.Info` | dd.py:71-76 | `dir_info` pairs each directory, in listing order, with its canonical key. |
| `Keys.ComputeKeys` | dd.py:71-76 | The loop builds `dir_info`, pairing every directory, in listing order, with `get_canonical_key` of it. |
| `Seqs.Dedup` | dd.py:77-79 | The order in which a dict first sees keys: no repeats, and exactly the keys seen. |
| `Grouping.Group` | dd.py:77-79 | Defines the list `grouped_dirs[k]`. Its contents are stated by `GroupIsOrderedSelection`, `GroupPartition` and `InfoPartition`, and the loop `GroupByKey` is proved to build it. |
| `Grouping.GroupIsOrderedSelection` | dd.py:77-79 | A group holds, in listing order, exactly the directories listed with its key. |
| `Grouping.GroupPartition` | dd.py:77-79 | Grouping is a partition: a directory is in the group of its own key as often as it is listed with that key, and in no other group. |
| `Grouping.MemberHasKey` | dd.py:77-79 | Every member of a group was listed with that group's key. |
| `Grouping.GroupNonEmpty` | dd.py:77-79 | Every key that occurs has a non-empty group. |
| `Grouping.GroupOfAbsentKey` | dd.py:77-79 | A key that no directory has has an empty group. |
| `Grouping.InfoPartition` | dd.py:71-79 | A directory's group is the one of its `CanonicalKey`. |
| `Grouping.GroupByKey` | dd.py:77-79 | The loop builds a dict whose keys, in insertion order, are the distinct keys in listing order, and whose list for each key is that key's group. |
| `Sorting.StrLessTotal` | dd.py:84 | Python's string order is total. |
| `Sorting.StrLessTransitive` | dd.py:84 | Python's string order is transitive. |
| `Sorting.StableOrder` | dd.py:96 | The sort lists every position once, ordered by key, with equal keys kept in their original order. |
| `Sorting.SortStrings` | dd.py:84 | `sorted` on distinct keys gives the same keys, strictly increasing. |
| `Scoring.Weights` | dd.py:18-21 | Defines the pattern-to-weight map that the dict assignments leave behind. Its behaviour is stated by `WeightIsLastListed` and `WeightsDomain`. |
| `Scoring.WeightIsLastListed` | dd.py:19-21 | A pattern listed more than once keeps the weight of its last listing. |
| `Scoring.WeightsDomain` | dd.py:19-21 | The dict assignments leave exactly the configured patterns as keys. |
| `Scoring.CompiledOf` | dd.py:18-22 | The compiled dict holds each distinct pattern once, in order of first listing. |
| `Scoring.CompiledMeaning` | dd.py:18-22 | The compiled dict has no repeated pattern. It holds exactly the configured patterns, each with the weight of its last listing. |
| `Scoring.Assign` | dd.py:21 | A dict assignment appends a new key, and overwrites an existing key in place. |
| `Scoring.RulesOf` | dd.py:20-21 | The items give their rules, in order and with their own pattern and score, exactly when every item has both keys and a pattern that compiles. |
| `Scoring.CompilePatterns` | dd.py:18-22 | The loop raises exactly when some item has a missing key or a pattern that does not compile. Otherwise it builds exactly `CompiledOf` of the items' rules. |
| `Scoring.Total` | dd.py:24-29 | Defines `calculate_score` on the compiled dict. Its behaviour is stated by `TotalWithout`, `TotalIgnoresOrder`, `RepeatedPatternCountsOnce` and `DistinctRulesFullSum`. |
| `Scoring.CalculateScore` | dd.py:24-29 | The loop adds the weight of every entry whose pattern matches. No match stops the sum early. |
| `Scoring.TotalWithout` | dd.py:26-28 | Taking one entry out of the dict takes its contribution out of the score. |
| `Scoring.TotalIgnoresOrder` | dd.py:26-28 | The score does not depend on the order of the dict's entries. |
| `Scoring.RepeatedPatternCountsOnce` | dd.py:18-29 | A pattern listed twice counts once: dropping its earlier listing changes no score. |
| `Scoring.DistinctRulesFullSum` | dd.py:18-29 | With no pattern repeated, the score is the full sum of the weights of every rule whose pattern matches. |
| `Scoring.EmptyRulesScoreZero` | dd.py:24-29 | With no rules, every name scores 0. |
| `Selection.Score` | dd.py:91 | Defines the score of one directory: `calculate_score` of its basename with the compiled dict. |
| `Selection.FirstMax` | dd.py:87-95 | The survivor has the highest score, and every directory before it scores strictly lower. |
| `Selection.FirstMaxUnique` | dd.py:87-95 | Those two conditions fix the survivor's position. |
| `Selection.PickSurvivor` | dd.py:87-95 | The scan, starting from minus infinity, picks the first maximum and records every directory's score by path. |
| `Selection.ScanOne` | dd.py:90-95 | One step of the scan keeps `best_dir` the first maximum of the directories seen so far, `max_score` its score, and `scores` the score of each. |
| `Selection.ScoreMap` | dd.py:89-92 | Defines the dict `scores` after the scan, each assignment overwriting by path. Its meaning is stated by `ScoreMapMeaning`, and the method `PickSurvivor` is proved to build it. |
| `Selection.ScoreMapMeaning` | dd.py:89-92 | With distinct paths, `scores` maps each directory of the group to its own score. |
| `Selection.GroupSorted` | dd.py:96 | Defines `group_sorted` and keeps the group's length. Its contents and order are stated by `GroupSortedMembers`, `GroupSortedOrdered` and `GroupSortedStable`. |
| `Selection.GroupSortedMembers` | dd.py:96 | The sorted group holds the same directories, each path once. |
| `Selection.GroupSortedOrdered` | dd.py:96 | The sorted group is ordered by lower-cased name. |
| `Selection.GroupSortedStable` | dd.py:96 | The sort is stable: each place of the sorted group takes the directory at its `StableOrder` position, and directories whose lower-cased names are equal keep their group order. |
| `Selection.SweepSorted` | dd.py:96-99 | The actions follow the order of the sorted group. |
| `Selection.Act` | dd.py:99-110 | Defines what happens to one non-survivor under the two flags. Its behaviour is stated by `SweepPolicy` and `SweepDeletions`, and the method `HandleDuplicate` is proved to do it. |
| `Selection.Sweep` | dd.py:98-110 | Defines the actions on the sorted group, skipping the survivor. Its behaviour is stated by `SweepPolicy`, `SweepDeletions`, `SweepDistinct`, `SweepCounts` and `SweepSorted`. |
| `Selection.GroupLog` | dd.py:87-111 | Defines the report of one group: the sweep, then `Keep` of the survivor. Its behaviour is stated by `GroupLogSurvivor`, `GroupLogCoversGroup`, `GroupLogSorted` and `GroupLogPolicy`. |
| `Selection.SweepPolicy` | dd.py:98-110 | Every action concerns a non-survivor, carries that directory's own score, and has the kind the two flags dictate. |
| `Selection.SweepDeletions` | dd.py:100-108 | A removal succeeds exactly when deletion is on, it is not a dry run, the directory exists and it can be removed. |
| `Selection.SweepDistinct` | dd.py:98-110 | When the group's paths are distinct, the sweep acts on each path at most once. |
| `Selection.SweepCounts` | dd.py:98-99 | Each directory of the group except the survivor is acted on exactly once. |
| `Selection.GroupLogSurvivor` | dd.py:87-111 | Exactly one survivor: the log ends with `Keep` of the first maximum with its score, and no other entry keeps a directory or concerns the survivor. |
| `Selection.GroupLogCoversGroup` | dd.py:86-111 | The log reports each directory of the group exactly once: the group's size minus one actions, then the survivor. |
| `Selection.GroupLogSorted` | dd.py:96-110 | The non-survivors are reported in order of lower-cased name. |
| `Selection.GroupLogPolicy` | dd.py:98-110 | The flag policy for each action; only existing directories are removed; the survivor never is; a failed removal leaves its directory in place. |
| `Selection.GroupLogRemovesNothing` | dd.py:100-102 | Without `--delete`, or with `--dry-run`, a group removes nothing. |
| `Selection.ProcessGroup` | dd.py:86-111 | Processing one group yields `GroupLog` and removes exactly the paths that log reports as deleted. |
| `Selection.SweepGroup` | dd.py:98-110 | The action loop yields `Sweep` over the sorted group, and removes exactly what it reports as deleted. |
| `Selection.HandleDuplicate` | dd.py:100-110 | One non-survivor is listed, reported as "would delete", or given one removal attempt, following the flags. |
| `FileSystems.FileSystem.Exists` | dd.py:65 | Defines `base_dir.exists()` as membership in the set of existing directories. `ProcessBaseDir` uses it for the `Missing` outcome. |
| `FileSystems.FileSystem.RemoveTree` | dd.py:105-108 | A removal succeeds exactly when the directory exists and can be removed. A failed removal changes nothing. |
| `Pipeline.Subdirs` | dd.py:68 | The directories are exactly the listing's entries that are directories. |
| `Pipeline.SubdirIndices` | dd.py:68 | The positions of the listing's directories, strictly increasing, each such position once. |
| `Pipeline.SubdirsIsOrderedSelection` | dd.py:68 | The comprehension keeps listing order: the directories are the listing's entries at those positions, one each. |
| `Pipeline.SubdirsDistinct` | dd.py:68 | Filtering a listing keeps its paths distinct. |
| `Pipeline.GroupDistinct` | dd.py:77-79 | Each group's paths are distinct. |
| `Pipeline.SortedKeys` | dd.py:84 | The keys are visited in strictly increasing order, each once. |
| `Pipeline.Reports` | dd.py:84-116 | Defines the reports of the loop over the sorted keys, each group seeing what the groups before it left. Its behaviour is stated by `ReportsAreGroupLogs`, `ReportHoldsItsGroup`, `ReportKeys`, `ReportsSorted`, `ReportsComplete` and `ReportsRemoveNothing`, and the loop `VisitGroups` is proved to compute it. |
| `Pipeline.RootOutcome` | dd.py:64-116 | Defines `process_base_dir` on one root: `Missing`, `Aborted` when the listing raises, or the reports. The method `ProcessBaseDir` is proved to compute it. |
| `Pipeline.ReportsAreGroupLogs` | dd.py:84-111 | Every report belongs to a key whose group has more than one directory. It is that group's log, computed on the directories present at the start less those the earlier reports removed. |
| `Pipeline.ReportHoldsItsGroup` | dd.py:71-111 | A report lists exactly the listed directories whose own key is the report's key, each once. |
| `Pipeline.ReportKeys` | dd.py:84-86 | The reports carry, in order, exactly the keys of the groups with more than one directory. |
| `Pipeline.LargeKeysSorted` | dd.py:84-86 | Filtering the sorted keys keeps them sorted, and keeps exactly the keys of groups larger than one. |
| `Pipeline.ReportsSorted` | dd.py:84 | Reports follow strictly increasing key order. |
| `Pipeline.ReportsComplete` | dd.py:84-86 | Every key whose group has more than one directory is reported. Groups of one directory emit nothing. |
| `Pipeline.ReportsRemoveNothing` | dd.py:100-102 | Without `--delete`, or with `--dry-run`, processing a root removes nothing. |
| `Pipeline.ReportsDeletedAppend` | dd.py:84-111 | The removals of consecutive reports add up. |
| `Pipeline.ProcessBaseDir` | dd.py:64-116 | A root that does not exist yields `Missing`, and one whose listing raises yields `Aborted`. Otherwise the result is `RootOutcome`, and exactly the paths its reports delete are removed. |
| `Pipeline.VisitGroups` | dd.py:84-116 | The loop over the sorted keys yields `Reports` and removes what those reports delete. |
| `Pipeline.VisitGroup` | dd.py:85-116 | A key whose group has one directory adds nothing. A larger group adds its log. |
| `Pipeline.RunOutcomes` | dd.py:130-132 | Defines the loop of `main`: every root in turn, each seeing what the roots before it left, until a listing raises. Its behaviour is stated by `RunStopsAtAbort` and `RunRemovesNothing`, and the method `ProcessRoots` is proved to compute it. |
| `Pipeline.RunStopsAtAbort` | dd.py:64-132 | The run yields at most one outcome per root, in order. Only the last outcome can be `Aborted`, and it is whenever the run ends early. `Aborted` comes only from a listing that raises, and such a root is never processed. |
| `Pipeline.RunRemovesNothing` | dd.py:130-132 | Without `--delete`, or with `--dry-run`, a whole run removes nothing. |
| `Pipeline.MainOutcomes` | dd.py:129-132 | Defines what `main` does after reading the configuration: nothing when compiling the patterns raises, otherwise `RunOutcomes` with the compiled dict. Its behaviour is stated by `MainNeedsEveryRule`, and the method `Run` is proved to compute it. |
| `Pipeline.MainNeedsEveryRule` | dd.py:129-132 | `main` stops before any root exactly when some item has a missing key or a pattern that does not compile. |
| `Pipeline.ProcessRoots` | dd.py:131-132 | The loop over the roots yields exactly `RunOutcomes` and removes exactly the paths its outcomes delete. |
| `Pipeline.Run` | dd.py:129-132 | Returns `MainOutcomes`. When compiling raises, nothing is removed. Otherwise exactly the reported deletions are removed. |

## Left out

- Configuration: `load_config`, `parse_args` and reading `config.toml` are not modelled. TOML parsing and argument parsing are out of scope. The roots, the `score_patterns` items and the two flags are parameters of `Pipeline.Run`. A missing `score_patterns` or `paths` list is the empty list, as `config.get` returns.
- Regular expressions from the configuration are not interpreted. Whether a pattern, compiled with `re.IGNORECASE`, is found in a name is the `Matcher` parameter. The two fixed patterns of the source are modelled concretely.
- The value types of the configuration are not modelled: a `score` is an integer and a `pattern` a string, so the model has no `TypeError` from an item that is not a table or a score that is not a number, and no float scores. Whether a pattern compiles is the `Compiler` parameter.
- Unicode is not modelled. Names and file contents are taken to be ASCII, so `\d`, `str.lower` and `str.isspace` are treated as their ASCII cases. `read_text(errors="ignore")` decoding is not modelled: a file is its text, or `None` when reading raised.
- File system I/O is not modelled:
  - each root's `iterdir` listing, or the fact that it raises, and each directory's sidecar texts are given in advance, in the order the system yields them;
  - a directory removed earlier in the run keeps its place in later listings;
  - `shutil.rmtree` either removes the one directory or raises, following `FileSystem.undeletable`;
  - partial removal of a tree, and the removal of nested paths, are not modelled.
- Printing is not modelled: colours, the `--debug` output and the debug branch for groups of one (dd.py:112-116) print only. The output is the `Action` log instead. The "Deleting" line printed before each removal attempt is folded into the `Deleted` or `DeleteFailed` action.
- `float('-inf')` is modelled as `None`. Scores are unbounded integers, so the survivor's reported score is always an integer.
- `Pipeline.ProcessBaseDir` requires the paths of a readable listing to be distinct, as `iterdir` yields each entry once. `dir_info` and `scores` are dicts keyed by path, so the source silently depends on this too.

