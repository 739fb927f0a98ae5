# conventional-commit-helper: scope suggestion, modelled in Dafny

conventional-commit-helper suggests the type and the scope of a
conventional-commit message. This project models how it suggests scopes:

- **History indexing.** The reflog of HEAD is walked. Each commit message
  yields a scope: the text inside its first pair of brackets. Every scoped
  commit adds the files it changed to that scope's entry in an index
  (`scope -> set of changed files`).
- **Staged files.** The repository's status entries are filtered down to
  the staged paths.
- **Closest neighbour.** This picks the scope whose changed files overlap
  the staged files most. Ties go to the alphabetically first scope.
- **Assembly.** The scopes from the configuration file are merged with the
  history scopes. A configured name wins over the same name in the history.
  The list is sorted, and the closest neighbour is moved to the front.
- **Scope cache.** A single cache file holds one index per repository.
  Entries can be created, updated, dropped and deleted. This code is not
  live in the program: `src/cache.rs` is not in the binary's module tree
  (src/main.rs:8-11), and the `cache` subcommands are `todo!()`
  (src/main.rs:104-122). It is modelled as written.
- **`PrintableEntity` record.** This is the record behind every scope and
  type, with its derived ordering, its `Display` format and
  `Config::from_toml`.

Modules:

| file | module | models |
|---|---|---|
| `wrappers.dfy` | `Wrappers` | `Option`, `Result`, and `Outcome` for `Result<()>` |
| `utils.dfy` | `Utils` | `src/utils.rs` |
| `sorting.dfy` | `Sorting` | `Vec::sort` / `itertools::sorted` as a function: sorted, a permutation, unique |
| `history.dfy` | `History` | `src/commit_scopes/commit.rs` |
| `distance.dfy` | `Distance` | `src/commit_scopes/distance.rs` |
| `scopes.dfy` | `CommitScopes` | `src/commit_scopes/mod.rs` |
| `cache.dfy` | `ScopeCache` | `src/cache.rs` |

How the Rust maps onto Dafny:

- **Imperative code.** `get_changed_files_from_commit` and
  `get_scopes_x_changes` fill an accumulator in loops. They are Dafny
  methods with loops, proved equal to the fold functions `ChangedFilesOf`
  and `BuildIndex`. The theorems about those folds are lemmas.
- **`push_to_first`.** It removes and reinserts one element of a vector.
  It is an in-place array method proved against the function
  `PushedToFirst`.
- **Cache.** The cache, and the cache file it is saved to, are classes
  whose methods update their fields.
- **Iteration order.** Rust's `HashMap`/`HashSet` iteration order is
  unspecified. Here it is `Enumerate`, an arbitrary enumeration. Results
  computed from the history index are proved not to depend on it:
  - `FindByOverlapOrderIndependent` for the overlap fold.
  - `SortSeqOrderIndependent` and `SortedUnique` for every sorted list.
- **Order that does leak.** When only configured scopes exist, the list is
  returned unsorted (src/commit_scopes/mod.rs:45-49). It is then
  `Config::from_toml`'s list, which follows the iteration order of the
  `[scopes]` table (src/utils.rs:113-115). The program's output order is
  unspecified in that case, and so is the model's (`Utils.Section` lists the
  pairs in `Enumerate` order).

## Model

| member | source | states |
|---|---|---|
| Utils.StrLessIrreflexive | src/utils.rs:12-19 | No string is less than itself under the derived `String` order. |
| Utils.StrLessTransitive | src/utils.rs:12-19 | The string order is transitive. |
| Utils.StrLessTrichotomy | src/utils.rs:12-19 | Any two distinct strings are ordered one way or the other. |
| Utils.New | src/utils.rs:21-31 | `PrintableEntity::new` keeps the name and leaves the description empty (its default). |
| Utils.FromPair | src/utils.rs:42-53 | A key/value pair becomes the entity with that name and that description. |
| Utils.Less | src/utils.rs:12 | The derived `Ord`: a different name decides by the name order; with equal names the description decides. No entity is less than itself. |
| Utils.LessIsStrictTotalOrder | src/utils.rs:12-19 | The derived `Ord` (name, then description) is irreflexive, transitive and asymmetric. Two entities are equal iff neither is less. |
| Utils.LessEqIsTotalOrder | src/utils.rs:12-19 | `<=` on entities is reflexive, antisymmetric, transitive and total. |
| Utils.NameDecidesOrder | src/utils.rs:12-31 | A smaller name orders first whatever the descriptions. `new(name)` is the least entity with that name and equals `from((name, ""))`. |
| Utils.Display | src/utils.rs:33-40 | The display is the name, then ": ", then the description, with that exact length. |
| Utils.DisplayRoundTrip | src/utils.rs:33-40 | For a name without ':', splitting the display at its first ": " gives back the entity. |
| Utils.FindChar | src/commit_scopes/commit.rs:118-119 | Returns the first occurrence of a character at or after a position, or reports that there is none. |
| Utils.Enumerate | src/commit_scopes/mod.rs:54 | The iteration of a hash set or map lists every element exactly once. |
| Utils.EntitiesOf | src/utils.rs:110-115 | Each key/value pair maps to its entity, in the same order. |
| Utils.SectionIsListed | src/utils.rs:110-115 | A section becomes a list with exactly one entity per key/value pair and nothing else. |
| Utils.Section | src/utils.rs:110-115 | A present section gives Some list of its pairs; a missing one gives None. |
| Utils.FromToml | src/utils.rs:109-120 | `types` and `scopes` are Some exactly when their section is present, each listing exactly its pairs. |
| Utils.FromTomlExample | src/utils.rs:213-236 | `[types] foo = "bar"` and `[scopes] foz = "baz"` give one type (foo, bar) and one scope (foz, baz). |
| Sorting.Insert | src/commit_scopes/mod.rs:86 | Inserting into a sorted list keeps it sorted and adds exactly that element. |
| Sorting.SortSeq | src/commit_scopes/mod.rs:53-54 | The sorted list is in ascending `Ord` order and a permutation of its input. |
| Sorting.HeadIsLeast | src/commit_scopes/distance.rs:128-131 | The first element of a sorted list is `<=` every element. |
| Sorting.SortedUnique | src/commit_scopes/mod.rs:86 | Two sorted permutations of the same elements are equal, so the result of a sort does not depend on the sort algorithm. |
| Sorting.SortSeqOrderIndependent | src/commit_scopes/mod.rs:53-54 | Sorting gives the same list for any input order, so hash-map order does not leak. |
| History.ScopeFromMessage | src/commit_scopes/commit.rs:115-133 | A scope exists iff some '(' is followed later by ')'. The scope is the text between the first '(' and the first ')' after it, and holds no ')'. |
| History.ScopeIsFirstBracketed | src/commit_scopes/commit.rs:118-128 | For the leftmost bracket pair, the result is exactly the text between the brackets. |
| History.ScopeAbsentAfter | src/commit_scopes/commit.rs:118-119 | If no ')' follows the first '(', the regex has no match at all. |
| History.ScopeExampleSimple | src/commit_scopes/commit.rs:240 | "foo(foz): baz" gives "foz". |
| History.ScopeExampleInnerSpaces | src/commit_scopes/commit.rs:242 | "foo(foz baz): bar" gives "foz baz". |
| History.ScopeExampleFirstBracketOnly | src/commit_scopes/commit.rs:244 | "foo(bar): baz (foz)" gives "bar". |
| History.ScopeExampleAbsent | src/commit_scopes/commit.rs:246 | "foo: baz" gives None. |
| History.ScopeExample | src/commit_scopes/commit.rs:118-128 | For a '(' with no '(' before it and a later ')' with no ')' in between, the scope is the text between them. |
| History.DeltaPaths | src/commit_scopes/commit.rs:58-67 | The paths a diff contributes are exactly the new-file paths of its deltas. |
| History.UnionOverParents | src/commit_scopes/commit.rs:47-69 | Every parent's diff paths are in the union. |
| History.UnionOverParentsMembership | src/commit_scopes/commit.rs:48-68 | A path is collected iff the diff against some parent has it. |
| History.ChangedFilesOf | src/commit_scopes/commit.rs:41-71 | A commit's changed files are exactly the paths in the diff against some parent. A root commit has none. |
| History.ChangedFilesFromCommit | src/commit_scopes/commit.rs:41-71 | The loop over parents and deltas returns exactly `ChangedFilesOf`, and the empty set for a root commit. |
| History.KeyOf | src/commit_scopes/commit.rs:148-151 | A scoped commit's key is `new(scope)`, with an empty description. |
| History.AddCommit | src/commit_scopes/commit.rs:150-158 | One accumulator step: the keys are the old keys plus the commit's scope, and no entry loses a file. |
| History.BuildIndex | src/commit_scopes/commit.rs:143-160 | The fold over the walk. Every key has an empty description. |
| History.IndexAt | src/commit_scopes/commit.rs:143-160 | For one scope and path: the scope is a key iff some walked commit carries it, and the path is in its entry iff some such commit changed it. |
| History.AddCommitAt | src/commit_scopes/commit.rs:150-158 | One accumulator step: the commit's scope becomes or stays a key, and the entry gains exactly the commit's files. |
| History.WalkSnoc | src/commit_scopes/commit.rs:146 | Walking one more commit adds exactly its scope and its files to what the walk carries. |
| History.IndexCharacterization | src/commit_scopes/commit.rs:143-160 | The accumulated index matches its reference definition for all scopes and paths: a key per carried scope, mapped to the union of its commits' files. |
| History.IndexKeysAreNewScopes | src/commit_scopes/commit.rs:151 | Every key has an empty description and is carried by some walked commit. |
| History.IndexDependsOnlyOnWalkedCommits | src/commit_scopes/commit.rs:143-160 | The index depends only on which commits are walked, not on their order or repetition. |
| History.IndexIgnoresRepeatedCommits | src/commit_scopes/commit.rs:146-160 | A commit the reflog lists twice adds nothing the second time. |
| History.IndexEmptyIffNoScope | src/commit_scopes/commit.rs:162 | The index is empty iff no walked commit has a scope. |
| History.ScopesXChanges | src/commit_scopes/commit.rs:135-163 | Returns None iff no walked commit has a scope, and otherwise the index the fold defines. |
| History.CollectStaged | src/commit_scopes/commit.rs:77-111 | The filtered UTF-8 paths without duplicates, non-UTF-8 ones dropped; None, never an empty set, when nothing remains. |
| History.CollectedPaths | src/commit_scopes/commit.rs:91-105 | A path is collected iff some kept entry has it. |
| History.IsStagedAsWritten | src/commit_scopes/commit.rs:81-89 | The status must equal one of the four flags, so a kept status has an index flag and no WT_MODIFIED flag. |
| History.StagedFilesAsWritten | src/commit_scopes/commit.rs:76-112 | With the status-equality filter as written: a path is returned iff its status is exactly one of the four index flags. |
| History.StagedFiles | src/commit_scopes/commit.rs:76-112 | With the intended filter: a path is returned iff its status has at least one of INDEX_NEW, INDEX_MODIFIED, INDEX_DELETED or INDEX_RENAMED set. |
| History.StagedFilesExtendsAsWritten | src/commit_scopes/commit.rs:81-89 | The corrected filter keeps every path the written one keeps. |
| History.StagedThenEditedIsDropped | src/commit_scopes/commit.rs:81-89 | For INDEX_MODIFIED with WT_MODIFIED, the written filter gives None and the corrected one gives the file. |
| Distance.Overlap | src/commit_scopes/distance.rs:97-100 | The overlap is 0 iff the sets are disjoint. It is at most either size, and equals the smaller set's size when one contains the other. |
| Distance.Step | src/commit_scopes/distance.rs:105-115 | One fold step: the kept maximum never drops and covers a positive overlap. At an unchanged maximum the set only gains this scope; at a new maximum it becomes this scope alone. |
| Distance.FoldOverlaps | src/commit_scopes/distance.rs:94-118 | The kept set is empty exactly when the kept maximum is 0. |
| Distance.FoldOverlapsInvariant | src/commit_scopes/distance.rs:101-117 | After any prefix of the iteration: the kept maximum is the largest positive overlap seen, and the kept set holds exactly the scopes seen with that overlap. |
| Distance.FoldMaximum | src/commit_scopes/distance.rs:105-115 | The kept overlap bounds every overlap seen and, when positive, is attained. |
| Distance.FoldKeeps | src/commit_scopes/distance.rs:105-115 | The kept set holds exactly the scopes seen whose overlap equals the positive kept maximum. |
| Distance.FindByOverlapIsBest | src/commit_scopes/distance.rs:90-119 | The fold over all keys keeps exactly the scopes with the largest positive overlap. |
| Distance.FindByOverlap | src/commit_scopes/distance.rs:90-119 | A scope is returned iff its overlap is positive and maximal. The set is empty iff every overlap is 0. |
| Distance.FindByOverlapOrderIndependent | src/commit_scopes/distance.rs:94-117 | The result does not depend on the hash map's iteration order. |
| Distance.FindClosestNeighbor | src/commit_scopes/distance.rs:121-132 | None iff no scope overlaps the staged files. Otherwise a maximal-overlap scope that is `<=` every other maximal one. |
| Distance.FirstSortedIsLeast | src/commit_scopes/distance.rs:128-131 | The head of the sorted best set is in it and `<=` all of it. |
| Distance.SoleOverlapWins | src/commit_scopes/distance.rs:157-268 | The only scope overlapping the staged files is chosen, whether it matches them exactly, contains them, is contained, or overlaps partly. |
| Distance.TieBreakPrefersLesser | src/commit_scopes/distance.rs:59 | Of two tied best scopes, the greater is never chosen. |
| Distance.ExactMatchIsBest | src/commit_scopes/distance.rs:32-34 | A scope whose files equal the non-empty staged set has a maximal positive overlap. |
| Distance.ExactTieGoesToLesser | src/commit_scopes/distance.rs:178-202 | When two scopes' files both equal the staged set and a third shares none, the lesser of the two is chosen. |
| Distance.ClosestOverlaps | src/commit_scopes/distance.rs:121-132 | If some scope overlaps the staged files, a neighbour exists and overlaps them too. |
| Distance.NeedleBeatsZNeedle | src/commit_scopes/distance.rs:178-202 | Between "needle" and "z_needle", both matching exactly, "needle" is chosen. |
| Distance.DisjointGivesNone | src/commit_scopes/distance.rs:270-287 | With no overlap anywhere there is no neighbour. |
| CommitScopes.Position | src/commit_scopes/mod.rs:112 | The index of the first equal element, or None iff there is none. |
| CommitScopes.PushedToFirst | src/commit_scopes/mod.rs:111-118 | Same length and elements. `first` leads if it occurs; the vector is unchanged otherwise. |
| CommitScopes.PushedToFirstKeepsOrder | src/commit_scopes/mod.rs:111-118 | Behind `first`, the others keep their order: exactly the input with its first occurrence of `first` removed. |
| CommitScopes.RemoveFirstAt | src/commit_scopes/mod.rs:113 | `Vec::remove` at the found position deletes the first occurrence. |
| CommitScopes.PositionIsFirst | src/commit_scopes/mod.rs:112 | An occurrence with none before it is the one `position` finds. |
| CommitScopes.PushedToFirstIdempotent | src/commit_scopes/mod.rs:111-118 | Promoting the same element twice is the same as once. |
| CommitScopes.PushToFirst | src/commit_scopes/mod.rs:111-118 | The in-place shift leaves the array equal to `PushedToFirst` of its old contents. |
| CommitScopes.ShiftRight | src/commit_scopes/mod.rs:113-114 | Removing at `index` and inserting at 0 moves the elements before `index` one place right and leaves those after it. |
| CommitScopes.PushedAt | src/commit_scopes/mod.rs:111-118 | Element by element: `first` at 0, the earlier elements shifted by one, the later ones in place. |
| CommitScopes.ConfiguredNames | src/commit_scopes/mod.rs:77-78 | The known names are exactly the names of the configured scopes. |
| CommitScopes.Unshadowed | src/commit_scopes/mod.rs:79-83 | Keeps exactly the history scopes whose name is not configured, and nothing when every name is configured. |
| CommitScopes.MatchedScope | src/commit_scopes/mod.rs:57-58 | A match needs staged files and is a key of the history index. |
| CommitScopes.Promote | src/commit_scopes/mod.rs:56-69 | Promotion keeps length and elements. A match in the list leads; otherwise the list is unchanged. |
| CommitScopes.AssembleScopes | src/commit_scopes/mod.rs:38-106 | None iff neither source has scopes. Without history the configured list is returned as given. With history only, the list is as long as the index. |
| CommitScopes.HistoryIndex | src/commit_scopes/commit.rs:135-163 | For a walk on which `get_scopes_x_changes` does not panic: None iff no walked commit has a scope, otherwise the index whose keys are exactly the carried scopes. |
| CommitScopes.ConfiguredScopes | src/commit_scopes/mod.rs:21-31 | The configured scopes exist iff the repository has a configuration with a `[scopes]` section. |
| CommitScopes.ScopesForRepo | src/commit_scopes/mod.rs:17-109 | As written, with `get_staged_files` as written: None iff there are no configured scopes and no walked commit has a scope. |
| CommitScopes.ScopesForRepoIntended | src/commit_scopes/mod.rs:17-109 | The same with the corrected staged-files filter. |
| CommitScopes.AssembleWithoutHistory | src/commit_scopes/mod.rs:38-49 | With no history scopes the result is the configured list, or None, whatever is staged. |
| CommitScopes.SortedWithout | src/commit_scopes/mod.rs:113 | Removing one element keeps a sorted vector sorted. |
| CommitScopes.PromoteSorted | src/commit_scopes/mod.rs:56-69 | Promotion keeps the elements. A match present leads, with the rest ascending; otherwise the list is unchanged. |
| CommitScopes.PushSorted | src/commit_scopes/mod.rs:86-95 | Promoting an element of a sorted list puts it first and leaves the rest sorted. |
| CommitScopes.AssembleHistoryOnly | src/commit_scopes/mod.rs:50-72 | History only: every key once. Ascending with no match; with a match, the match first and the rest ascending. |
| CommitScopes.HistoryOnlyElements | src/commit_scopes/mod.rs:50-72 | History only: exactly the index keys, each once. |
| CommitScopes.HistoryOnlyOrder | src/commit_scopes/mod.rs:53-69 | History only: ascending, or the match first and the rest ascending. |
| CommitScopes.AssembleBoth | src/commit_scopes/mod.rs:74-105 | Both sources: the configured scopes plus the history scopes with unconfigured names. Each configured entry occurs as often as configured; each unconfigured history scope occurs exactly once, so a configured name keeps its description. Ascending, except a present match leads. |
| CommitScopes.BothCounts | src/commit_scopes/mod.rs:77-86 | Both sources, counted: the list is the configured entries plus the unshadowed history keys without repeats. Unconfigured history scopes occur once, configured entries as often as configured. |
| CommitScopes.BothElements | src/commit_scopes/mod.rs:77-86 | Both sources: exactly the configured scopes and the history scopes with unconfigured names. |
| CommitScopes.BothOrder | src/commit_scopes/mod.rs:85-101 | Both sources: ascending unless the match is in the list, in which case it leads and the rest is ascending. |
| CommitScopes.ShadowedMatchNotPromoted | src/commit_scopes/mod.rs:85-101 | A match whose name is configured with another description is not in the list, so the sorted list is returned unchanged. |
| CommitScopes.ConfiguredDescriptionWins | src/commit_scopes/mod.rs:153-172 | Config `foz = "baz"` and history scope `foz` give one entry, ("foz", "baz"). |
| CommitScopes.LeastScopeLeads | src/commit_scopes/mod.rs:50-72 | With history scopes only and nothing staged, the least scope under the derived order comes first. |
| CommitScopes.AlphabeticalWithoutStaged | tests/cli.rs:119-141 | With history scopes z_bar and baz and nothing staged, "baz" comes first. |
| CommitScopes.StagedMatchLeads | tests/cli.rs:142-152 | Once file "one", changed only under z_bar, is staged, "z_bar" comes first. |
| CommitScopes.ScopesForRepoFromHistory | src/commit_scopes/mod.rs:17-72 | Without configured scopes, with either staged-files filter, the list holds exactly the carried scopes, each once. |
| CommitScopes.StagedThenEditedScopeOrder | src/commit_scopes/commit.rs:81-89 | With the index of tests/cli.rs:119-153 and file "one" staged then edited, "baz" leads as written and "z_bar" leads with the corrected filter. |
| ScopeCache.Cache.constructor | src/cache.rs:111-115 | A new cache has no entries. |
| ScopeCache.Cache.GetScopesForRepo | src/cache.rs:117-124 | Returns the repository's cached index if present, else None. |
| ScopeCache.Cache.Insert | src/cache.rs:188-193 | Sets or replaces one repository's entry, and leaves the others as they were. |
| ScopeCache.Cache.Remove | src/cache.rs:216 | Removes one repository's entry and reports whether it existed. |
| ScopeCache.CacheFile.Lock | src/cache.rs:94-102 | Without the directory the lock fails. Opening with `create(true)` turns a missing file into an empty one that does not deserialise; an existing file is untouched. |
| ScopeCache.CacheFile.Load | src/cache.rs:83-92 | An absent file fails with "missing", a file that does not deserialise fails as undecodable. Otherwise a fresh cache with the stored entries. |
| ScopeCache.CacheFile.Save | src/cache.rs:104-109 | With the directory present the file then holds exactly the cache's entries; otherwise the write fails and nothing changes. |
| ScopeCache.CacheFile.Create | src/cache.rs:147-170 | The directory then exists. An absent file becomes an empty cache; an existing one is untouched, even if it does not deserialise. |
| ScopeCache.CacheFile.UpdateCacheForRepo | src/cache.rs:172-203 | As written: without the directory the lock fails. A missing file is created empty by the lock, fails to load, and stays. With no scoped commit nothing changes. Otherwise the repository's entry becomes the history index and all others are kept. |
| ScopeCache.CacheFile.UpdateLoaded | src/cache.rs:179-200 | After the lock: a missing or undecodable file fails unchanged. With no scoped commit nothing changes. Otherwise the repository's entry becomes the history index. |
| ScopeCache.CacheFile.UpdateCacheForRepoIntended | src/cache.rs:172-203 | With a lock that does not create the file: a missing cache fails and stays missing; otherwise as written. |
| ScopeCache.CacheFile.DropCacheForRepo | src/cache.rs:205-227 | As written: without the directory the lock fails. A missing file is created empty and fails to load. Otherwise removes the repository's entry, if any, keeps all others, and reports whether it existed. |
| ScopeCache.CacheFile.Nuke | src/cache.rs:229-240 | Afterwards the cache file is absent and the directory is as before. |
| ScopeCache.NukeUpdateCreateIsStuck | src/cache.rs:94-102 | Nuke, then update, then create leaves an empty file that create keeps and load rejects. |
| ScopeCache.NukeUpdateCreateRecovers | src/cache.rs:162-166 | With the non-creating lock, the same sequence ends with a loadable empty cache. |
| ScopeCache.UpdateThenLookup | src/cache.rs:117-124 | After a successful update of a loadable cache, a lookup gives the new index for that repository and the old entry for any other. |

Generic collection facts that the proofs use have no row of their own: `Distance.SubsetCardinality`, `Utils.MapItemsCardinality`, `CommitScopes.DistinctByMultiset`, `CommitScopes.RepeatCount`, `CommitScopes.DistinctCount`, `CommitScopes.MergedCount` and `CommitScopes.SameElement`.

## Left out

- git2 and the filesystem are inputs, not calls:
  - A walked commit is its message plus, per parent, the new-file paths of the diff.
  - A status entry is its flag word plus its path.
  - The cache file is a field: absent, holding a cache, or holding bytes that do not deserialise. Whether the cache directory exists is a second field.
  - `get_repo_id` is replaced by the `RepoId` its caller passes in.
  - `get_cache_path`, XDG lookup, `bincode` (de)serialisation, `toml::from_str` and `Config::from_file`/`try_from_repo` file reads are not modelled.
- Errors from git are not modelled. Of the filesystem errors only these are: a lock or a write in a missing cache directory, a missing cache file, and a cache file that does not deserialise. "No scopes detected" is modelled too. Permission and I/O errors, and a failure of `create_dir_all`, are not.
- Panics are preconditions:
  - `History.Walkable` excludes a missing or non-UTF-8 commit message.
  - `History.Decodable` excludes a non-UTF-8 delta path of a scoped commit.
- `History.HasIndexChange` tests only the four flags the source lists. INDEX_TYPECHANGE is not among them, as in the source.
- The model follows `\(([^)]*)\)` at src/commit_scopes/commit.rs:118. The regex matches brackets anywhere in the message. It needs neither a ':' after the bracket nor word characters in the scope. It does not check the `type(scope):` header form.
- Mutual exclusion by `Cache::lock` is not modelled, nor is concurrent access. The lock is bound to `_`, so it is released as soon as it is taken. Only the lock's effect on the file, creating it empty, is modelled.
- Logging (`debug!`, `trace!`) and `println!` are not modelled.
- `src/main.rs`, `src/lib.rs`, `src/commit_types.rs`, `src/config.rs`, `src/commit_scopes.rs` and `validate_repo`/`repo_from_path` are outside this model.
- The `PrintableEntity<&str>` / `PrintableEntity<String>` variants and their cross equality are one type over `string`.
- The standard library's sort algorithm is not modelled. It is replaced by any function that returns the sorted permutation, which `Sorting.SortedUnique` shows is unique.
- Utils.FromToml is a total function. The source wraps the same value in an `Ok` that is never an error.
- The test fixture (src/lib.rs:99-107) writes the configuration to a `.json` path, while the code reads `.toml`. The scenario lemmas model the configuration the tests intend: `CommitScopes.ConfiguredDescriptionWins` reads it, and the command-line scenario has none.
- The index built from the multi-scope fixture at src/commit_scopes/commit.rs:274-303 is not stated as a concrete lemma. `History.IndexCharacterization` covers it in general.

## Findings

| source | as written | input that shows it | evidently intended | confidence | as-written member | corrected member |
|---|---|---|---|---|---|---|
| src/commit_scopes/commit.rs:81-89 | `matches!` compares the whole status bit set for equality with one of INDEX_NEW, INDEX_MODIFIED, INDEX_DELETED or INDEX_RENAMED. | A file staged and then edited again has status INDEX_MODIFIED \| WT_MODIFIED (0x102). It is not reported, and with no other staged file the result is None. | A path is staged when at least one of the four listed index flags is set, whatever the working-tree flags. | high for the equality semantics of `matches!` on constant patterns; not executed | History.StagedFilesAsWritten, History.StagedThenEditedIsDropped, CommitScopes.ScopesForRepo | History.StagedFiles, CommitScopes.ScopesForRepoIntended |
| src/cache.rs:94-102 | `Cache::lock` opens the cache file with `create(true)` before `Cache::load` runs (src/cache.rs:177, 210). A missing file is created empty, which does not deserialise. `create_cache` does not replace an existing file (src/cache.rs:162). | `nuke_cache`, then `update_cache_for_repo`, then `create_cache`: the update fails on the empty file, create keeps it, and every later load fails. | A missing cache is reported as missing and not created, so `create_cache` can then make it. | medium: this rests on `file_lock` opening with the given options; not executed | ScopeCache.CacheFile.UpdateCacheForRepo, ScopeCache.NukeUpdateCreateIsStuck | ScopeCache.CacheFile.UpdateCacheForRepoIntended, ScopeCache.NukeUpdateCreateRecovers |
