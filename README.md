# vpv core in Dafny

vpv builds one VitePress site per version of a documentation project. A
version is either a git branch, a git tag or a folder. This project models
the core of that tool and proves properties of the model.

- **Discovery** (`Discover.dfy`, from `src/discover.ts`):
  - the exclusion filter;
  - the sort strategies: custom, `none`, the Fisher–Yates `random` and the
    six presets, with the root base pinned by the wrapped comparators;
  - how the latest base and the default base are resolved;
  - the marking loop, which flags the latest version, moves the default
    version to `/` and groups versions by base;
  - the duplicate-base check.
- **Git ref decoding** (`Git.dfy`, from `src/modes/utils/git.ts`):
  - the placeholder list and its index map;
  - the NUL-framed output of `git for-each-ref`, with its arithmetic
    self-check;
  - record decoding, with empty default fields rejected and empty custom
    fields mapped to null;
  - the ref-to-version mapping;
  - `hasUncommittedChanges`;
  - the worktree set-up and its cleanup.
- **Folder provider** (`FolderMode.dfy`, from `src/modes/folder.ts`): the
  `includeRootAs` defaults, basenames, deduplication of matched paths, and
  the path-to-version mapping.
- **Mode dispatch** (`Modes.dfy`, from `src/modes/index.ts`, `branch.ts`,
  `tag.ts`): the closed set of modes, their default sort strategies and
  their set-ups.
- **Build orchestration** (`Build.dfy`, from `src/build.ts`), run one job at
  a time with no signal arriving. An `Orchestrator` class keeps:
  - the abort flag;
  - the cleanup registry;
  - the build and cleanup error lists.

  The `Run` driver builds the default version first, then the others, then
  drains the registry in reverse. The mode's set-up, VitePress' build and
  each cleanup are oracles: each job's outcome is given in advance.
- **Shared values** (`Types.dfy`): versions, ref data, `Option`/`Result`,
  and sequence helpers with their own properties: deduplication that keeps
  first occurrences, `split`/`join`, reversal and `findIndex`.

Three behaviours of `src/discover.ts` are easy to miss:

- A `*_desc` preset calls the wrapped comparator with its arguments swapped,
  so the root version sorts **first** under every descending preset, not
  last. See `Discover.RootSortsFirst`.
- The marking loop sets `isLatest` but never clears a flag a provider had
  set. Two versions can therefore end up flagged latest. See
  `Discover.TwoLatestFlags`.
- Distinct bases do not guarantee success. When the list already has a
  version at `/` and the default base is another base, marking moves the
  default version onto `/` as well. Resolution then reports duplicate
  bases, as for a folder list with its root entry and `defaultVersion`
  set to one of its directories. See `Discover.DefaultOntoExistingRoot`.
  Without such a collision, distinct bases always resolve; see
  `Discover.MarkKeepsDistinct` and `Discover.Discover`.

## Model

| member | source | states |
|---|---|---|
| Discover.RuleMatches | src/discover.ts:19 | defines one rule: a string rule equals the base, a pattern rule's `test` accepts it (no contract; used by `Excluded`) |
| Discover.Excluded | src/discover.ts:18-20 | defines `exclude.some(...)`: some rule matches the base (no contract; its meaning for the filter is stated by `FilterExcluded`) |
| Discover.FilterExcluded | src/discover.ts:14-21 | a version survives, as often as it occurs, exactly when no exact rule equals its base and no pattern matches it; with nothing excluded the list is unchanged |
| Discover.FilterExcludedAppend | src/discover.ts:14-21 | filtering a concatenation is the concatenation of the filtered parts, so survivors keep their relative order |
| Discover.FilterExcludedSnoc | src/discover.ts:14-21 | one more candidate is appended to the survivors exactly when no rule matches its base |
| Discover.FamilyCompare | src/discover.ts:49-53 | defines the `alpha`, `date` and `num` comparators, with the two collators as parameters (no contract; see `MissingDateIsZero`, `PresetAntisymmetric`) |
| Discover.Pinned | src/discover.ts:57-58 | defines `wrapped`: a root base compares after everything, else the family decides (no contract; see `RootSortsLast`, `RootSortsFirst`) |
| Discover.PresetOrder | src/discover.ts:59-60 | defines `*_asc` as `wrapped(a, b)` and `*_desc` as `wrapped(b, a)` (no contract; see `DescSwapsAsc`, `PresetAntisymmetric`) |
| Discover.DescSwapsAsc | src/discover.ts:57-60 | every descending preset is its ascending comparator with the arguments swapped |
| Discover.MissingDateIsZero | src/discover.ts:51 | the date comparator treats a missing date as timestamp 0 |
| Discover.SortBy | src/discover.ts:33 | sorting keeps length and multiset of versions |
| Discover.Insert | src/discover.ts:33 | inserting adds exactly the one element, at the front or behind the old head |
| Discover.InsertSorted | src/discover.ts:33 | inserting an element that no later element strictly precedes-and-follows keeps a sorted list sorted |
| Discover.SortBySorted | src/discover.ts:33 | with a comparator that never orders two positions both ways, the result is sorted by it |
| Discover.PresetAntisymmetric | src/discover.ts:49-60 | the wrapped preset comparators are antisymmetric on lists with at most one root, given consistent collators |
| Discover.RootSortsLast | src/discover.ts:57-59 | under every ascending preset the root version sorts last |
| Discover.RootSortsFirst | src/discover.ts:57-60 | under every descending preset the root version sorts first |
| Discover.AscRootOnlyLast | src/discover.ts:57-59 | in a list sorted by an ascending preset, no position but the last holds the root |
| Discover.DescRootOnlyFirst | src/discover.ts:57-60 | in a list sorted by a descending preset, no position but the first holds the root |
| Discover.RootPosition | src/discover.ts:33 | a permutation of a list with a root version still contains one |
| Discover.DateDescExample | src/discover.ts:49-60 | `date_desc` puts the newer of two dated versions first |
| Discover.SwapPermutes | src/discover.ts:44-46 | one swap of two positions keeps the multiset of versions |
| Discover.ShuffledPermutes | src/discover.ts:39-47 | the Fisher–Yates swaps produce a permutation of the list |
| Discover.Shuffle | src/discover.ts:39-47 | the loop draws one `j` in `[0, i]` for each `i` from `n - 1` down to 1, swaps, and returns a permutation |
| Discover.SortVersions | src/discover.ts:30-72 | every strategy yields a permutation: custom and presets sort by their comparator, `none` keeps the order, `random` is a Fisher–Yates shuffle |
| Discover.LatestBase | src/discover.ts:75-80 | precedence is explicit base, then the resolver's answer, then the first version flagged latest, then the first sorted version |
| Discover.DefaultBase | src/discover.ts:86-91 | precedence is explicit base, then the resolver's answer, then `/` if present, then the latest base |
| Discover.FallbackLatestDiscovered | src/discover.ts:79-83 | a latest base found by fallback is always present |
| Discover.FallbackDefaultDiscovered | src/discover.ts:90-94 | a default base found by fallback is present whenever the latest base is |
| Discover.Mark | src/discover.ts:99-105 | defines one iteration of the marking loop on one version (no contract; its effect is stated by `MarkAll`) |
| Discover.MarkAll | src/discover.ts:98-105 | marking flags a version latest iff it was flagged already or has the latest base, moves every version with the default base to `/`, leaves every other base, and changes no other field |
| Discover.ConflictsOver | src/discover.ts:115-127 | the conflicts over a list of bases are exactly the bases used by more than one version, each with all their names |
| Discover.ConflictsOverSnoc | src/discover.ts:115-127 | one more map entry adds its conflict exactly when more than one version uses that base |
| Discover.NamesOfDistinct | src/discover.ts:116-117 | with distinct bases, no base has more than one name |
| Discover.NamesOfTwo | src/discover.ts:116-117 | two versions sharing a base give that base at least two names |
| Discover.NamesAbsent | src/discover.ts:107-110 | a base no version uses has no names |
| Discover.NoConflictsOver | src/discover.ts:116-117 | bases used at most once produce no error |
| Discover.ConflictFreeIffDistinct | src/discover.ts:114-131 | no duplicate-base error iff the bases are pairwise distinct |
| Discover.ConflictsExact | src/discover.ts:116-126 | there is an error for a base iff more than one version uses it, and it names all of them |
| Discover.BasesStep | src/discover.ts:107-111 | adding a version appends its base to the first-seen order exactly when the base is new |
| Discover.NamesStep | src/discover.ts:107-111 | adding a version appends its name to the group of its own base and leaves every other group as it was |
| Discover.GroupingSnoc | src/discover.ts:107-111 | the map after one more version is the map before it with that version added |
| Discover.NotGroupedNoNames | src/discover.ts:107-110 | a base with no list in the map is used by no version |
| Discover.GroupingKeysAt | src/discover.ts:107-110 | a base has a list in the map exactly when it is in the first-seen order |
| Discover.GroupingOrder | src/discover.ts:107-110 | the map's insertion order is the bases in order of first use, each once |
| Discover.GroupingNamesAt | src/discover.ts:107-110 | the list of a base holds the names of exactly the versions using it, in list order (`set` of a one-element list for a new base, `push` otherwise) |
| Discover.GroupingGrouped | src/discover.ts:97-112 | the map built version by version holds, in first-seen order, every base with the names of all versions using it |
| Discover.CollectConflicts | src/discover.ts:115-127 | the error loop over the map entries yields exactly the conflicts of the marked list |
| Discover.MarkAndGroup | src/discover.ts:97-112 | the in-place loop leaves the array marked and the map grouped |
| Discover.ApplyResolution | src/discover.ts:96-133 | the result is the marked list iff no base is shared, and the aggregate of all conflicts otherwise |
| Discover.Discover | src/discover.ts:13-133 | "no versions discovered" iff the filter leaves nothing; the latest- and default-not-discovered errors fire exactly when those bases are absent; once both are present, a sorted list with distinct bases succeeds whenever the default base is `/` or no version is at `/`; on success the bases are distinct and exactly one is `/` |
| Discover.MarkedOneRoot | src/discover.ts:103-105 | once bases are distinct, the marked list has exactly one `/` |
| Discover.TwoLatestFlags | src/discover.ts:99-101 | a provider's flag survives, so two versions can be flagged latest |
| Discover.MarkKeepsDistinct | src/discover.ts:98-105 | marking keeps distinct bases distinct when the default base is `/` or no version is at `/` |
| Discover.DefaultOntoExistingRoot | src/discover.ts:103-131 | a root entry plus a directory made the default: the bases are distinct and both are present, yet after marking there is a duplicate-base conflict |
| Git.Placeholders | src/modes/utils/git.ts:54-59 | the column list has at least the three default placeholders (the rest of its meaning is in `PlaceholderColumns`) |
| Git.PlaceholderColumns | src/modes/utils/git.ts:54-59 | the placeholders are distinct, start with the three default queries, and contain exactly the default and requested ones |
| Git.RequestedHaveColumns | src/modes/utils/git.ts:54-55 | every requested placeholder gets a column |
| Git.DefaultQueriesDistinct | src/modes/utils/git.ts:27-31 | the three default placeholders differ |
| Git.IndexMap | src/modes/utils/git.ts:101-107 | the map has exactly the placeholders as keys and each points at a column holding it |
| Git.IndexMapOfDistinct | src/modes/utils/git.ts:101-107 | with distinct placeholders, each maps to its own position |
| Git.PlaceholdersIndexed | src/modes/utils/git.ts:101-107 | every default and requested placeholder has an in-range column |
| Git.WellFramed | src/modes/utils/git.ts:73-74 | defines the integer check on `(parts.length - 1) / (1 + P)` (no contract; see `LayoutWindows`, `DivOfMultiple`, `GetRefData`) |
| Git.Window | src/modes/utils/git.ts:112-115 | the slice of record `i` holds exactly `P` values (its content for framed output is stated by `LayoutWindows`) |
| Git.Field | src/modes/utils/git.ts:130 | an empty value becomes null, any other value is kept |
| Git.CustomFields | src/modes/utils/git.ts:129-131 | each requested key maps to the field of its placeholder's column |
| Git.CustomFieldsKeys | src/modes/utils/git.ts:129-131 | no key other than a requested one appears |
| Git.Columns | src/modes/utils/git.ts:101-120 | every placeholder the decoder looks up has a column, the default ones are the first three, and the index map inverts the column list |
| Git.DecodeRecord | src/modes/utils/git.ts:117-131 | defines one record: the default fields in key order, each fatal when empty, then the caller's fields (no contract; see `DecodeRecordColumns`) |
| Git.DecodeRecordColumns | src/modes/utils/git.ts:117-131 | a record decodes iff the three default columns are non-empty, the first empty one names the error, and the fields are the columns |
| Git.CustomFieldColumn | src/modes/utils/git.ts:129-131 | a requested field holds the value of its placeholder's column, or null when that value is empty |
| Git.RefVersion | src/modes/utils/git.ts:136-141 | defines the version of a ref (no contract; see `RefVersionBase`) |
| Git.RefVersionBase | src/modes/utils/git.ts:136-141 | a ref's base is `/name/`, well formed and injective in the name; its source is the cwd when the ref is at the current commit, otherwise its name |
| Git.ReadRecord | src/modes/utils/git.ts:117-131 | the field-by-field loop produces the decoded record or the first empty-field error |
| Git.ReadWindow | src/modes/utils/git.ts:111-131 | the record read from window `i` is the decoded record `i`, and the only way it fails is an empty default field |
| Git.DecodeRecords | src/modes/utils/git.ts:109-134 | the record loop returns every record in order when all decode, and otherwise the error of the first that does not, after the records before it decoded |
| Git.DecodedAt | src/modes/utils/git.ts:109-134 | each record collected by the loop is the decoding of its own window |
| Git.DecodedAsEach | src/modes/utils/git.ts:109-134 | the records collected are at most the record count, each the decoding of its own window |
| Git.GetRefData | src/modes/utils/git.ts:71-141 | "unparseable" iff the part count is not framed; otherwise one version per window in order, or the first window's error |
| Git.LayoutWindows | src/modes/utils/git.ts:111-115 | framed rows yield a part count that passes the check, the row count, and each row as its window |
| Git.WindowOfPrefix | src/modes/utils/git.ts:111-115 | a window of framed output does not depend on the parts after it |
| Git.LastWindow | src/modes/utils/git.ts:111-115 | a row appended to framed output with its separator is the last window, and the count passes the check |
| Git.FrameRoundTrip | src/modes/utils/git.ts:67-73 | joining framed rows with NUL and splitting again gives back every row |
| Git.FramedOutputDecodes | src/modes/utils/git.ts:67-131 | each window of framed output decodes as the row that produced it |
| Git.DivOfMultiple | src/modes/utils/git.ts:73-74 | a multiple of the frame width passes the integer check with the row count as quotient |
| Git.NonEmptyLines | src/modes/utils/git.ts:145 | `filter(Boolean)` keeps exactly the non-empty lines |
| Git.HasUncommittedChanges | src/modes/utils/git.ts:144-145 | defines `hasUncommittedChanges` on the status text (no contract; see `UncommittedIffContent`) |
| Git.UncommittedIffContent | src/modes/utils/git.ts:144-145 | there are uncommitted changes iff the status text has a character other than a newline |
| Git.SplitHasNonEmptyPart | src/modes/utils/git.ts:145 | some split part is non-empty iff some character is not the separator |
| Git.Setup | src/modes/utils/git.ts:150-157 | defines the worktree calls of a set-up and of its cleanup (no contract; see `SetupPairs`) |
| Git.SetupPairs | src/modes/utils/git.ts:150-157 | nothing is added or removed iff the source is the cwd; otherwise the one worktree added is the one removed |
| FolderMode.RootVersion | src/modes/folder.ts:12-25 | a null option gives no root entry |
| FolderMode.RootVersionDefaults | src/modes/folder.ts:12-25 | the default is base `/`, name "Root", source the cwd, flagged latest; in a given entry a given field wins and each missing name, src or isLatest takes that same default on its own |
| FolderMode.StripTrailing | src/modes/folder.ts:38-39 | drops exactly the trailing separators |
| FolderMode.LastSegment | src/modes/folder.ts:38-39 | the text after the last separator, with no separator in it |
| FolderMode.Basename | src/modes/folder.ts:38-39 | defines `path.basename` on `/`-separated paths (no contract; see `BasenameOfDirectory`) |
| FolderMode.BasenameOfDirectory | src/modes/folder.ts:38-39 | the basename of a directory path is the directory's name whatever its parent and trailing separators |
| FolderMode.DiscoverFolders | src/modes/folder.ts:33-43 | the root entry first when present; every later version is the version of a matched path, and every matched path yields exactly one of them, in first-match order |
| FolderMode.FolderVersion | src/modes/folder.ts:37-42 | defines the version of one matched directory (no contract; see `FolderVersionShape`) |
| FolderMode.FolderVersionShape | src/modes/folder.ts:37-42 | a path gives base `/basename/` (well formed, not `/`), name basename, source the path, no date |
| FolderMode.EachPathOnce | src/modes/folder.ts:36-42 | every directory version comes from a matched path, and each path gives exactly one |
| FolderMode.PathBuiltOnce | src/modes/folder.ts:36-42 | a matched path yields exactly one directory version |
| FolderMode.DefaultRootIsOnlyLatest | src/modes/folder.ts:12-43 | at the defaults the root entry is first and the only version flagged latest or at `/` |
| FolderMode.DefaultsResolveToRoot | src/modes/folder.ts:12-25 | at the defaults, with no configured bases, the root entry is both the latest and the default version |
| FolderMode.FlaggedAreRoot | src/modes/folder.ts:12-43 | at the defaults only the root entry carries the latest flag |
| Modes.DefaultSortStrategy | src/modes/folder.ts:27 | defines each provider's default strategy: `date_desc` for branches (src/modes/branch.ts line 17), `alpha_asc` for folders, `num_desc` for tags (src/modes/tag.ts line 33) (no contract; see `FolderDefaultsRootLast`, `GitModesRootFirst`) |
| Modes.ModeSetup | src/modes/folder.ts:45 | defines the set-up of each provider: none for folders, `git.setup` for branches (src/modes/branch.ts line 32), and for tags only when the version carries ref data (src/modes/tag.ts line 50) (no contract; see `ModeSetupNoOp`) |
| Modes.ModeSetupNoOp | src/modes/folder.ts:45 | a set-up does nothing exactly for folders, the tag checkout entry, or a source equal to the cwd; otherwise its cleanup removes its worktree |
| Modes.RootEntryLast | src/modes/folder.ts:27 | sorted `alpha_asc`, a list with its only root first ends with it |
| Modes.FolderDefaultsRootLast | src/modes/folder.ts:27 | the folder default `alpha_asc` puts the root entry last |
| Modes.GitModesRootFirst | src/modes/branch.ts:17 | the branch and tag defaults are descending presets, so the root sorts first |
| Types.Dedup | src/modes/folder.ts:36 | every element once, each from the input, every input element kept |
| Types.DedupOfDistinct | src/modes/utils/git.ts:55 | deduplication leaves a distinct list unchanged |
| Types.DedupPrefix | src/modes/utils/git.ts:55 | deduplication keeps first occurrences, so it is monotone in prefixes |
| Types.DedupKeepsDistinctFront | src/modes/utils/git.ts:55 | a distinct front, such as the default queries, stays in front |
| Types.ReversedMembers | src/build.ts:19 | reversing keeps the elements and their distinctness |
| Types.FirstIndex | src/build.ts:93 | the first position satisfying the predicate, or none |
| Types.Split | src/modes/utils/git.ts:71 | never empty and no part holds the separator |
| Types.SplitJoin | src/modes/utils/git.ts:71 | splitting a join of separator-free parts gives back the parts |
| Build.SourceDir | src/build.ts:54 | the source is the version's `src`, or `.` followed by its base, under `srcRoot` |
| Build.Registered | src/build.ts:69-70 | the registry holds only versions whose job started |
| Build.CleanupErrorsOf | src/build.ts:18-25 | one cleanup error at most per cleanup run |
| Build.Call | src/build.ts:54-72 | defines the VitePress call of one version: its source, output directory and base (no contract; see `SourceDir`, `Run`) |
| Build.Orchestrator.constructor | src/build.ts:11-17 | a run starts not aborted, with no errors, an empty registry and nothing started or cleaned |
| Build.Orchestrator.BuildVersion | src/build.ts:48-89 | nothing once aborted; otherwise the job starts and the state stays what the started jobs made of it |
| Build.Orchestrator.CleanupOne | src/build.ts:19-24 | one cleanup runs and a throw is recorded |
| Build.Orchestrator.Cleanup | src/build.ts:18-25 | every registered cleanup runs, newest first, with throws recorded |
| Build.DefaultIndex | src/build.ts:93 | the default version is the first one at `/` |
| Build.Others | src/build.ts:99-100 | every other version, once each, in list order |
| Build.Offered | src/build.ts:93-100 | every version is offered, as a position of the list, the default one first |
| Build.Started | src/build.ts:48-52 | the started jobs are positions of the version list |
| Build.Start | src/build.ts:69-85 | defines what one started job does to the job state (no contract; see `ReplaySnoc`, `Orchestrator.BuildVersion`) |
| Build.ReplaySnoc | src/build.ts:48-89 | starting one more job before any throw is one more step of the job state |
| Build.Offer | src/build.ts:94-104 | offering a job keeps the job state equal to the replay of the started jobs, which grow by the job unless a build already failed |
| Build.BuildRest | src/build.ts:97-107 | offering the other versions in list order starts exactly the attempted prefix of them and keeps the job state |
| Build.AttemptedSnoc | src/build.ts:50-52 | offering one more job starts it exactly when no started job threw |
| Build.BuildErrorsOf | src/build.ts:83-85 | every build error is a build failure |
| Build.BuildErrorsOfLast | src/build.ts:83-85 | when only the last started job can throw, its error is the only build error |
| Build.Run | src/build.ts:7-130 | the jobs that start, the registry, the VitePress calls, the cleanups in reverse registration order, and build errors followed by cleanup errors |
| Build.Attempted | src/build.ts:50-52 | defines the jobs that get past the abort check (no contract; see `AttemptedPrefix`, `AttemptedStops`) |
| Build.AttemptedStops | src/build.ts:50-52 | after a throw no later job starts |
| Build.OfferedOnce | src/build.ts:93-105 | no version is offered twice |
| Build.AttemptedPrefix | src/build.ts:83-85 | every started job but the last finished; if any offered job did not start, the last one threw |
| Build.DefaultBuiltFirst | src/build.ts:93-97 | the default job starts first; if it throws nothing else starts, otherwise its cleanup is registered first |
| Build.RegisteredHead | src/build.ts:69-70 | the first started job whose set-up returned is registered first |
| Build.RegisteredMembers | src/build.ts:69-72 | a version is registered iff its job started and its set-up returned, even when its build then failed |
| Build.RegisteredDistinct | src/build.ts:69-70 | the registry holds no version twice |
| Build.EachOnce | src/build.ts:97-107 | each version starts at most once, and each registered cleanup runs exactly once |
| Build.BuildErrorsMembers | src/build.ts:83-85 | there is a build error iff some started job threw |
| Build.AtMostOneBuildError | src/build.ts:83-85 | at the default concurrency of 1, a run records at most one build error, that of the job that aborted the rest |
| Build.CleanupErrorsMembers | src/build.ts:18-25 | a throwing cleanup is reported and does not stop the others |
| Build.CleanupThrows | src/build.ts:18-25 | a cleanup error arises iff a registered version's cleanup throws |
| Build.RunFailsIff | src/build.ts:123-129 | the run throws iff some job threw or some registered cleanup threw |
| Build.BuildErrorsFirst | src/build.ts:123 | the aggregate lists build errors before cleanup errors |

## Left out

- Process spawning and git I/O are not modelled. `git()`, `git rev-parse`,
  `git status`, the worktree commands and `getLastCommitDate` are replaced
  by parameters: the stdout text, the current commit and the cwd. The
  worktree commands are returned as a plan of calls.
- The branch and tag providers' own `discover` functions are not modelled.
  They are configuration defaults plus `getRefData` and date parsing over
  git output. Only their default sort strategies and set-ups appear, in
  `Modes`.
- Concurrency is not modelled: `p-limit`, the race against the abort promise
  and `Promise.allSettled`. The build runs one job at a time.
- The SIGINT/SIGTERM listeners are not modelled. Such a listener would
  record an error and call `cleanup` a second time; the registry is not
  memoised.
- `vitePress.build`, the mode's set-up and each cleanup are outcome oracles
  in `Build.JobOutcome`. `Intl.Collator` is two abstract comparator
  parameters. `RegExp.test` is an abstract pure predicate of the base; a
  regular expression with the `g` or `y` flag keeps `lastIndex` between
  calls, so it can answer differently for two versions with the same base,
  which the model does not capture. `Math.random` is a
  nondeterministic `j` in `[0, i]`. Dates are integer timestamps.
- `path.resolve`, `path.join` and `path.posix.join` are kept as unresolved
  `(root, relative)` pairs, with no normalisation. `path.basename` is the
  last `/`-separated segment after trailing separators are dropped.
  Globbing is left out: the matched directory paths are a parameter.
- When the comparators are inconsistent, the order `Array.prototype.sort`
  produces is implementation-defined. The model uses a stable insertion
  sort, which agrees with any stable sort when the comparator is
  consistent.
- The "failed to sort versions." wrapping of a throwing custom comparator
  is left out, because comparators are total functions here.
- Error message texts are not modelled. Errors carry the base, names or
  query they mention, not the formatted string. That includes the error
  count in the aggregate message.
- The unrolled `defaultKeys` loop is not a loop in the model.
  `Git.DecodeRecord` checks the three default fields in key order.
- Configuration loading, the CLI, listing, zod schemas and logging are
  left out. What they or the callers guarantee is taken as a precondition:
  - `Git.GetRefData` requires distinct query keys, since `queries` is an
    object and its keys are distinct;
  - `Git.Setup` requires ref data, and `Modes.ModeSetup` requires it for
    branches, since every branch version comes from `getRefData`;
  - `Build.Run` requires a version at `/`, which discovery guarantees, and
    one outcome per version;
  - the sorting lemmas about the `alpha` and `num` presets require the
    collator parameters to be consistent (`Discover.Consistent`), as
    `Intl.Collator.compare` is.
- Object identity in `src/build.ts` is modelled by position in the version
  list. That covers the `Map` keyed by version (line 17) and the
  `v !== defaultVersion` filter (line 100). Two equal version records at
  different positions are two jobs, as two distinct objects would be.
