# rtags indexing and symbol-listing core, modelled in Dafny

This project models three pieces of the rtags daemon (`rdm`):

- **Indexer jobs** (`src/IndexerJob.cpp`). An `IndexerJob` is built from the compile
  variants (`Source`s) of one source file.
  - The constructor drops variants whose arguments repeat a kept one, takes a
    process-wide job id, and records the primary file as visited.
  - `priority()` scores a job for the indexing queue. The score is a flag term, a
    buffer-state term and a current-project bonus. An inactive file earns its
    bonus only through a cycle-safe search of the include graph. The score is
    memoised behind an `INT_MIN` sentinel until `recalculatePriority()`.
  - `encode()` adjusts each variant's arguments, include paths and defines in a
    fixed order. It then writes the payload behind a 4-byte size prefix.
  - `dumpFlags()` renders a flag set in declaration order.
- **Visited-file bookkeeping** (`src/Project.h`). A project keeps a map from
  file id to the path that claimed it, and a registry of active jobs.
  - `visitFile` is a first-claim check-and-set that also records the id in the
    claiming job.
  - `releaseFileIds` frees ids again.
  - `isActiveJob` and `isIndexing` query the registry.
  - `openFileMap` opens a file's persistent map, or yields nothing when loading fails.
- **The symbol-listing query** (`src/ListSymbolsJob.cpp`). `execute` normalises a
  wildcard query, then lists names with one of two algorithms:
  - path-filtered, when every path filter names an existing file;
  - project-wide, otherwise.

  It writes the result set sorted, reversed, or as an Elisp list, and returns 1
  exactly when the set is empty.

Modules, one per file:

- `Support` (`support.dfy`): `Option`, the C++ integer widths (`uint16_t`,
  `uint32_t`, `int32_t`, `uint64_t`, bytes), `IndexOf` (`std::find` /
  `String::indexOf`) and `RemoveFirst` (find then erase).
- `StringOrder` (`string_order.dfy`): the character-wise lexicographic order of
  `String`, the ascending enumeration of a `std::set<String>`, and reversal.
- `IncludeSearch` (`include_search.dfy`): the dependency-graph search that
  decides the +2 bonus.
- `IndexerJob` (`indexer_job.dfy`): sources, jobs, construction, ids, priority,
  memoisation and `dumpFlags`.
- `JobEncoding` (`job_encoding.dfy`): the per-variant argument pipeline of
  `encode`, the payload record and the size prefix.
- `Project` (`project.dfy`): the visited-file state machine and the file-map openers.
- `ListSymbols` (`list_symbols.dfy`): the symbol-listing query.

Everything outside these files becomes a model input:

- the server singleton's options, buffer states and project lookup;
- the file system;
- `Location` lookups;
- the serializer;
- `compareArguments`, `matchSymbolName`, `isFunctionVariable`, the job's kind
  and path filters, `findSymbols` and `findSymbol`.

These inputs are either plain values or function-typed fields of small
environment records (`Classifier`, `ServerView`, `Collaborators`, `Store`,
`QueryEnv`).

Where the code's behaviour is easy to misread, the model follows the code as written:

- In the include search, the system-header and buffer-state tests look at the
  node being expanded (`n->fileId`), not at the include just reached. A
  non-inactive, non-system file therefore succeeds on any unseen include, even
  one that leads nowhere. An Active file reached only as a leaf earns nothing
  (`IncludeSearch.ActiveLeafIncludeEarnsNothing`).
- `seen` is shared across branches, so the outcome depends on the order in
  which a node's includes are visited (`IncludeSearch.IncludeOrderDecides`).
  Includes are therefore an ordered sequence, standing for the hash
  container's iteration order.
- In the path-filtered listing with parentheses stripped, a parenthesised name
  classified as a function variable contributes nothing. It is not inserted
  verbatim (`src/ListSymbolsJob.cpp:137-139`).
- The Active buffer term (8) is never beaten by a non-Active job. It is tied by
  Reindex + Open + current project (4 + 3 + 1). So `IndexerJob.ActiveBufferRanksFirst`
  states "at least 8" and "above 8 only if Active".

## Model

| member | source | states |
|---|---|---|
| IndexerJob.Dedup | src/IndexerJob.cpp:41-53 | at least one and at most all variants are kept, and the first variant is kept first |
| IndexerJob.DedupKeepsRepresentatives | src/IndexerJob.cpp:41-53 | every input variant is kept or argument-equal to a kept one; no kept variant is argument-equal to an earlier kept one; everything kept comes from the input |
| IndexerJob.DedupFirstOccurrenceWins | src/IndexerJob.cpp:41-53 | the kept variants sit at increasing input positions, and every variant not kept is argument-equal to a kept variant from an earlier position, so the first of each group of equal variants is the one kept |
| IndexerJob.DedupIndicesEmbed | src/IndexerJob.cpp:41-53 | the positions of the kept variants form an order-preserving embedding of the kept list into the input |
| IndexerJob.DedupDroppedAt | src/IndexerJob.cpp:44-51 | a variant that is not kept is argument-equal to a variant kept from an earlier position |
| IndexerJob.FindSameArguments | src/IndexerJob.cpp:44-50 | the inner scan reports a match iff some kept variant is argument-equal to the candidate |
| IndexerJob.DedupIsSubsequence | src/IndexerJob.cpp:41-53 | the kept variants are an order-preserving subsequence of the input |
| IndexerJob.DedupDropsLaterDuplicate | src/IndexerJob.cpp:42-53 | for `[a, b, c]` with `b` argument-equal to `a` and `c` not, exactly `[a, c]` is kept |
| IndexerJob.ConstructJob | src/IndexerJob.cpp:34-59 | the constructor (non-empty source list demanded) keeps the deduplicated variants, so every input variant is represented and no kept one repeats an earlier one's arguments; it takes the first input's source file, marks the primary file id visited, takes the counter's id, advances the counter, and starts with the sentinel priority |
| IndexerJob.NextId | src/IndexerJob.cpp:66-69 | the 64-bit counter's post-increment gives one more than the counter, and wraps to 0 from the largest value |
| IndexerJob.IdsIncrease | src/IndexerJob.cpp:66-69 | until the 64-bit counter wraps, successive constructions receive successive, strictly increasing ids |
| IndexerJob.IdsFromFirstAreNonZero | src/IndexerJob.cpp:33 | starting from 1, the i-th job gets id i + 1, never 0 |
| IndexerJob.ComputePriority | src/IndexerJob.cpp:74-111 | the freshly computed score lies in 0..13 and is never the `INT_MIN` sentinel |
| IncludeSearch.IncludesActiveFile | src/IndexerJob.cpp:91-106 | the bonus search succeeds only for a file with a dependency node from which a chain of includes through non-system files reaches a non-Inactive, non-system file with an include |
| IndexerJob.ActiveBufferRanksFirst | src/IndexerJob.cpp:84-90 | an Active primary buffer scores at least 8, and only an Active one scores above 8 |
| IndexerJob.DirtyMasksReindex | src/IndexerJob.cpp:78-82 | with Dirty set, adding Reindex does not change the score |
| IndexerJob.InactiveBonusWitnessed | src/IndexerJob.cpp:91-107 | an Inactive file earns the +2 only when its include graph holds a chain of non-system files ending at a non-Inactive file that includes something |
| IndexerJob.PriorityDirtyActiveCurrent | src/IndexerJob.cpp:78-111 | Dirty, Active, current project scores 1 + 8 + 1 = 10 |
| IndexerJob.PriorityReindexInactiveElsewhere | src/IndexerJob.cpp:78-111 | Reindex, Inactive without a dependency node, another project scores 4 |
| IndexerJob.Priority | src/IndexerJob.cpp:71-115 | a cached value is returned unchanged; otherwise the score freshly computed from the job and the server (0..13, never the sentinel) is returned and cached; nothing else in the job changes |
| IndexerJob.RecalculatePriority | src/IndexerJob.cpp:215-219 | the cache is refilled with the score under the current server state |
| IndexerJob.PriorityIsMemoised | src/IndexerJob.cpp:71-115 | a second call returns the first call's value whatever the server state has become |
| IndexerJob.RecalculateFollowsServer | src/IndexerJob.cpp:215-219 | after recalculation, later calls report the score under the state at recalculation time, not the stale cached one |
| IndexerJob.PriorityKeepsJobValid | src/IndexerJob.cpp:112-113 | caching and recalculation keep every constructed-job invariant |
| IndexerJob.SetFlagsIn | src/IndexerJob.cpp:189-210 | for an order along which the rank strictly increases, exactly the set members found in the order are listed, each once, by increasing rank; none for the empty set |
| IndexerJob.ParseRendering | src/IndexerJob.cpp:187-213 | any list of flags joined by ", " reads back as that same list |
| IndexerJob.DumpFlags | src/IndexerJob.cpp:187-213 | the rendering reads back, through a reader that splits only at ", ", as exactly the set flags, each once, in declaration order |
| IndexerJob.DumpFlagsEmptyIff | src/IndexerJob.cpp:187-213 | the rendering is the empty string exactly when no flag is set |
| IndexerJob.DumpFlagsRoundTrip | src/IndexerJob.cpp:187-213 | splitting the rendering at ", " and reading the names back yields exactly the set flags, in declaration order |
| IndexerJob.OtherSeparatorsRejected | src/IndexerJob.cpp:212 | the reader accepts only the ", " separator: a text whose first comma is not followed by a space reads back as nothing, so the round trip pins the separator |
| IndexerJob.CommaJoinRejected | src/IndexerJob.cpp:212 | `Dirty` and `Reindex` joined by "," or by ",;" instead of ", " do not read back |
| IndexerJob.JoinedByRejected | src/IndexerJob.cpp:212 | a comma-free text joined to another by any separator that starts with a comma not followed by a space does not read back |
| IncludeSearch.MarkingShrinksUnseen | src/IndexerJob.cpp:97 | the search recurses only after a new node enters `seen`, so the unseen part of the graph shrinks and the search terminates on cyclic graphs |
| IncludeSearch.Expand | src/IndexerJob.cpp:95-104 | the search only ever adds graph nodes to `seen` and never removes any |
| IncludeSearch.Edges | src/IndexerJob.cpp:96-103 | the loop over a node's includes only ever adds graph nodes to `seen` |
| IncludeSearch.ExpandSound | src/IndexerJob.cpp:95-104 | success is witnessed by a chain of includes through non-system files to a non-Inactive, non-system file with an include |
| IncludeSearch.EdgesSound | src/IndexerJob.cpp:96-103 | success of the loop from any include position is witnessed the same way |
| IncludeSearch.EdgesFindUnseenInclude | src/IndexerJob.cpp:97-100 | a non-system, non-Inactive node succeeds as soon as one of its remaining includes is unseen |
| IncludeSearch.ExpandQualifyingNode | src/IndexerJob.cpp:96-103 | for a non-system, non-Inactive node, the search succeeds if and only if some include is not yet seen |
| IncludeSearch.EdgesAllSeen | src/IndexerJob.cpp:96-103 | when every remaining include is already seen, the loop fails |
| IncludeSearch.SystemNodeEdgesFail | src/IndexerJob.cpp:97-98 | a system header never succeeds, yet every include it reaches is marked seen |
| IncludeSearch.ActiveLeafIncludeEarnsNothing | src/IndexerJob.cpp:98-99 | an Inactive file including only an Active leaf earns no bonus, because the tests apply to the expanding node |
| IncludeSearch.IncludeOrderDecides | src/IndexerJob.cpp:93-104 | the same graph with a node's includes in two orders gives different answers, because `seen` is shared |
| Support.RemoveFirst | src/IndexerJob.cpp:133-138 | only the first occurrence is erased: the multiset loses exactly one copy and the remaining elements keep their order |
| Support.ErasesFirstThenFirst | src/IndexerJob.cpp:133-138 | erasing the first `x` and then the first `y` of what is left erases the first occurrence of each in the original, keeping the order of everything else |
| JobEncoding.StripErrorFlags | src/IndexerJob.cpp:132-139 | unless allowed, exactly the first `-Werror` and the first `-Wfatal-errors` are erased (if present) and the remaining arguments keep their order; the multiset loses one copy of each present flag; when allowed the arguments are unchanged |
| JobEncoding.AdjustArguments | src/IndexerJob.cpp:132-147 | the defaults are appended after the stripped input arguments; unless allowed, the first `-Wpedantic` of that combined list is then erased and the rest keeps its order; the argument multiset is the input minus the erased error flags, plus the defaults, minus one `-Wpedantic` unless allowed |
| JobEncoding.DefaultWErrorSurvives | src/IndexerJob.cpp:132-140 | a `-Werror` among the defaults survives, since defaults are appended after stripping |
| JobEncoding.DefaultPedanticRemoved | src/IndexerJob.cpp:140-147 | a single `-Wpedantic` coming from the defaults is removed, since that removal follows the append |
| JobEncoding.SecondWErrorSurvives | src/IndexerJob.cpp:133-135 | a repeated `-Werror` survives, since only the first is erased |
| JobEncoding.MergeDefines | src/IndexerJob.cpp:158-163 | the configured defines are merged in; `NDEBUG` is then absent unless enabled, and nothing else is lost |
| JobEncoding.AdjustSource | src/IndexerJob.cpp:131-163 | whatever the foreign rewriting steps do, `NDEBUG` is absent unless enabled and every configured define other than `NDEBUG` is present, and `NDEBUG` too when enabled |
| JobEncoding.AdjustSourceAlone | src/IndexerJob.cpp:149-163 | with neutral foreign steps, the variant keeps its file, gets the adjusted arguments, has the configured include paths prepended, and gets the merged defines |
| JobEncoding.MakePayload | src/IndexerJob.cpp:119-180 | the payload carries one adjusted variant per source, in order, with the variant count equal to their number, plus the job's id, project and source file |
| JobEncoding.LittleEndian32RoundTrip | src/IndexerJob.cpp:182-183 | reading back the four stored bytes of a `uint32_t` yields the value |
| JobEncoding.ReadLittleEndian32RoundTrip | src/IndexerJob.cpp:182-183 | every four-byte sequence is the stored form of the value read from it |
| JobEncoding.Frame | src/IndexerJob.cpp:182-183 | the first four bytes hold the total length minus 4 (as `uint32_t`), followed by the body unchanged |
| JobEncoding.Encode | src/IndexerJob.cpp:117-185 | the encoding is the serialized payload behind a prefix that reads as the encoding's length minus 4 |
| JobEncoding.SizePrefixDelimitsBody | src/IndexerJob.cpp:182-183 | a reader that takes the first four bytes as a length recovers exactly the body |
| Project.VisitFile | src/Project.h:193-209 | returns true iff the id has no entry or an empty one; on true the entry becomes the path and, with a non-zero key, that job alone gains the id; on false nothing changes; the registry keys never change |
| Project.SecondVisitFails | src/Project.h:197-208 | after a claim with a non-empty path, any later visit of that id fails and changes nothing |
| Project.EmptyPathClaimIsNotExclusive | src/Project.h:197-199 | a claim with an empty path succeeds but leaves the entry empty, so the next visit succeeds too |
| Project.ReleaseFileIds | src/Project.h:211-220 | exactly the given ids lose their entries, every other entry is unchanged, the registry is untouched, and an empty set changes nothing |
| Project.ReleaseThenVisitSucceeds | src/Project.h:193-220 | after an id is released, visiting it succeeds again |
| Project.ReleaseKeepsOtherClaims | src/Project.h:214-218 | an id not released stays claimed or free exactly as before |
| Project.TransitionsKeepRegistry | src/Project.h:193-220 | neither visiting nor releasing changes `isActiveJob` or `isIndexing` |
| Project.IsActiveJob | src/Project.h:134 | key 0 is always active, whatever is registered; any other key is active iff it is registered; with an empty registry only key 0 is |
| Project.IsIndexing | src/Project.h:144 | the project is indexing iff some job is registered |
| Project.IdleProjectHasOnlyKeyZero | src/Project.h:134-144 | key 0 is always active, other keys are active iff registered, and `isIndexing` holds iff some job is registered |
| Project.FirstClaimWins | src/Project.h:193-209 | over any run of visits with non-empty paths, only the first visit of an id can succeed, and it does exactly when the id started out free |
| Project.ClaimedStaysClaimed | src/Project.h:197-208 | once claimed, an id is refused by every later visit of the run |
| Project.OpenFileMap | src/Project.h:66-74 | the result is absent exactly when `load` reports failure for the map's file, and otherwise is the map that load produced |
| Project.FailedLoadIsDiscarded | src/Project.h:66-74 | two loaders that agree on success, and on the contents when they succeed, open the same result: what a failing load leaves behind is never seen |
| Project.OpenersUseFixedNames | src/Project.h:76-91 | the typed openers read the files named `symnames`, `symbols`, `targets` and `usrs`, and are absent when those fail to load |
| ListSymbols.NormalizeQuery | src/ListSymbolsJob.cpp:49-52 | the query is kept or gets one `*`; outside wildcard mode, without a wildcard, or already ending in `*` it is kept; a wildcard query in wildcard mode ends in `*`; its wildcards are unchanged |
| ListSymbols.NormalizeQueryIdempotent | src/ListSymbolsJob.cpp:49-52 | normalising twice equals normalising once |
| ListSymbols.NormalizeQueryAppendsIff | src/ListSymbolsJob.cpp:49-52 | the query changes if and only if wildcard mode is on, it holds `*` or `?`, and it does not end in `*` |
| ListSymbols.SelectPaths | src/ListSymbolsJob.cpp:53-66 | the path list is non-empty iff there is a filter and every filter is a Self filter naming an existing file, and then it is the filters' patterns in order |
| ListSymbols.PathFilteredInserts | src/ListSymbolsJob.cpp:133-143 | at most one name is inserted: the name itself unless parentheses are stripped from a name with `(`; then the part before the first `(`, or nothing exactly for a function variable; nothing inserted under strip holds `(` |
| ListSymbols.ProjectWideInserts | src/ListSymbolsJob.cpp:175-183 | only the name and the part before its first `(` can be inserted; a name without `(` is inserted as is; the verbatim name is inserted iff it has no `(` or parentheses are kept; the prefix iff the name has `(` and is not a function variable |
| ListSymbols.InsertRulesCompared | src/ListSymbolsJob.cpp:133-183 | the path-filtered rule never inserts more than the project-wide one, and they agree iff parentheses are stripped, the name has no `(`, or it is a function variable |
| ListSymbols.PathFilteredFooExample | src/ListSymbolsJob.cpp:133-143 | path-filtered, `foo(int)` is inserted whole when parentheses are kept, as `foo` under strip, and not at all under strip for a function variable |
| ListSymbols.ProjectWideFooExample | src/ListSymbolsJob.cpp:175-183 | project-wide, `foo(int)` inserts both `foo` and `foo(int)` when parentheses are kept, `foo` alone under strip, and `foo(int)` alone for a function variable |
| ListSymbols.FileInserts | src/ListSymbolsJob.cpp:107-144 | a listed file contributes exactly what its accepted symbols insert, and nothing without a non-zero id and a symbols map |
| ListSymbols.SymbolAccepted | src/ListSymbolsJob.cpp:116-131 | an accepted symbol passes the kind filter and has a non-empty name; with an empty query every such symbol is accepted; with a non-empty query, acceptance is exactly the kind filter, a non-empty name, and the query matching the name: by the wildcard matcher (under the chosen case sensitivity) when wildcard mode is on and the query holds `*` or `?`, otherwise by case-insensitive `contains` or by the query occurring in the name |
| ListSymbols.EntriesInserts | src/ListSymbolsJob.cpp:115-144 | a symbols map contributes exactly the names its accepted symbols insert |
| ListSymbols.ListWithPathFilter | src/ListSymbolsJob.cpp:99-147 | a name is listed iff some listed file with an id and a symbols map holds an accepted symbol (kind filter, non-empty name, query match) that inserts it |
| ListSymbols.PathFilteredOrigin | src/ListSymbolsJob.cpp:106-143 | every listed name is inserted by some entry `j` of the symbols map of some listed file `i` with a non-zero id, whose symbol is accepted, and it is that symbol's name or the part before its `(`; under strip it holds no `(` |
| ListSymbols.MatchAccepted | src/ListSymbolsJob.cpp:159-174 | a callback passes iff some location passes an active path filter and the symbol at its first location passes an active kind filter: with neither filter it passes, one failing either active filter fails, and one passing both passes |
| ListSymbols.ListProjectWide | src/ListSymbolsJob.cpp:149-188 | a name is listed iff some callback passing the path filter (any location) and the kind filter (first location) inserts it |
| ListSymbols.BothFormsListed | src/ListSymbolsJob.cpp:175-183 | with parentheses kept, an accepted parenthesised non-function-variable name is listed both verbatim and as its prefix |
| ListSymbols.CollectSymbols | src/ListSymbolsJob.cpp:47-72 | no project lists nothing; otherwise the normalised query goes to the path-filtered listing exactly when every filter names an existing file, and to the project-wide listing otherwise |
| ListSymbols.WriteOutput | src/ListSymbolsJob.cpp:74-95 | Elisp output is `(list`, the set ascending, `)`; plain output is the set strictly ascending, or strictly descending under reverse sort |
| ListSymbols.Execute | src/ListSymbolsJob.cpp:44-97 | returns 1 iff the result set is empty and 0 otherwise, with the result set and output described above |
| ListSymbols.OutputDeterminedBySet | src/ListSymbolsJob.cpp:74-95 | the written lines are determined by the result set and the flags alone |
| ListSymbols.ReverseSortExample | src/ListSymbolsJob.cpp:86-90 | `{bar, Bar, baz}` reverse-sorted prints `baz`, `bar`, `Bar`: the order compares characters and is case-sensitive |
| StringOrder.StrLessCharacterised | src/ListSymbolsJob.cpp:76-90 | `a` sorts before `b` iff `a` is a proper prefix of `b` or, at the first position where they differ, `a` has the smaller character |
| StringOrder.SortAscending | src/ListSymbolsJob.cpp:81-90 | the copied vector is strictly ascending and holds exactly the set's elements |
| StringOrder.AscendingEnumerationUnique | src/ListSymbolsJob.cpp:76-78 | a set has exactly one strictly ascending enumeration, so iterating the set and sorting agree |

## Left out

- The serializer's byte layout. The payload after the size prefix is
  `serialize(payload)` for a serializer supplied as a parameter; only the
  logical fields it writes are modelled.
- `Source::encode`, `Source::key` and `Source::compareArguments` are not part of
  this model. Argument equality is a parameter. `Define` equality is
  structural, and the erased `NDEBUG` is the define with that name and an
  empty value.
- `CompilerManager::applyToSource`, `Server::filterBlockedArguments` and
  `Project::fixPCH` are opaque `Source -> Source` functions (`Collaborators`).
  What they do to the arguments is not modelled. `JobEncoding.AdjustSource`
  therefore states only the define properties for arbitrary collaborators.
- `Server::instance()`, its options, `activeBufferType`, `project()` and
  `currentProject()`, `Location::path(...).isSystem()`, `Path::isFile`,
  `Location::fileId`, `sourceFilePath` and `FileMap::load` are model inputs.
  `load` is a function from the path to its success flag and the map it filled. So
  are the query job's `filter`, `filterKind`, `hasFilter` and `hasKindFilter`.
- `Project::matchSymbolName`, `RTags::isFunctionVariable`, case-insensitive
  `String::contains`, `Project::findSymbols` and `Project::findSymbol` have no
  bodies here. They are function inputs. `findSymbols` is represented by the
  list of callbacks it makes. Case-sensitive `contains` is modelled as a
  substring test.
- The project mutex and concurrent access. `visitFile` and `releaseFileIds`
  are atomic transitions.
- Registering and unregistering active jobs, and the project lifecycle
  (load, unload, reindex, remove, job completion, dirty timer, watcher). These
  are only declared in `src/Project.h`. The registry is an input to the
  bookkeeping model.
- The destructor's `destroyed` signal, and `QueryJob::write` quoting, `IgnoreMax`
  and output plumbing. The written lines are modelled before quoting.
- Bytes versus characters. `String` compares unsigned bytes; the model compares
  `char`s (Unicode scalar values). The two orders agree on UTF-8 text, and
  names that are not valid UTF-8 cannot be represented.
- Host byte order. `memcpy` stores the size prefix in the host's byte order;
  the model assumes a little-endian host.
- IndexerJob.IdsIncrease: strict increase is stated only while the 64-bit counter
  does not wrap. `NextId` does model the wrap to 0.
- IndexerJob.ComputePriority: the score is defined only when the job's project
  resolves whenever the primary file's buffer is Inactive (`PriorityDefined`).
  For an Inactive file whose project does not resolve, the source calls
  `p->dependencyNode(fileId)` on a null `p` (`src/IndexerJob.cpp:92`), although
  it tests `p` for null further down (line 110). That null dereference is
  undefined behaviour and has no result to model. `IndexerJob.Priority` and
  `IndexerJob.RecalculatePriority` carry the same precondition.
- ListSymbols.MatchAccepted: a callback with no locations fails an active kind
  filter. There the source dereferences `locations.begin()` of an empty set,
  which is undefined behaviour and has no result to model.
- JobEncoding.MakePayload: the variant count equals `|sources|` only below 2^32.
  Above that it is the `uint32_t` truncation.

## Findings

None. Every behaviour above that could look unintended is modelled as written
and documented by a lemma.
