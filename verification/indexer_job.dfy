/** The indexing job (`IndexerJob`): construction with deduplication of
    argument-equal compile variants, the process-wide id counter, the
    memoised priority score, and the diagnostic rendering of the flag set. */
module IndexerJob {
  import opened Support
  import opened IncludeSearch

  /** A preprocessor define `-Dname=value`. */
  datatype Define = Define(name: string, value: string)

  /** The define that `encode` erases unless NDEBUG is enabled. */
  const NDEBUG: Define := Define("NDEBUG", "")

  /** One compile variant of a source file (`Source`): the parts of it that
      this model reads or rewrites. */
  datatype Source = Source(
    sourceFile: Path,
    fileId: FileId,
    arguments: seq<string>,
    defines: set<Define>,
    includePaths: seq<Path>)

  /** `Source::compareArguments`, whose body is not part of this model. */
  type SameArguments = (Source, Source) -> bool

  /** The job flags, in declaration order. */
  datatype Flag = Dirty | Reindex | Compile | Running | Crashed | Aborted | Complete

  /** Unsaved editor buffers, path to contents. */
  type UnsavedFiles = map<Path, string>

  /** An indexer job. `cachedPriority` holds `INT_MIN` until the priority has
      been computed. */
  datatype Job = Job(
    id: uint64,
    flags: set<Flag>,
    project: Path,
    unsavedFiles: UnsavedFiles,
    crashCount: int,
    cachedPriority: int,
    sources: seq<Source>,
    sourceFile: Path,
    visited: set<FileId>)

  /** What every constructed job satisfies. */
  ghost predicate ValidJob(job: Job)
  {
    && |job.sources| > 0
    && job.sourceFile == job.sources[0].sourceFile
    && job.sources[0].fileId in job.visited
    && (job.cachedPriority == INT_MIN || 0 <= job.cachedPriority <= 13)
  }

  // ---------------------------------------------------------------------
  // Construction

  /** Some already-kept variant has the same arguments as `x`
      (`x.compareArguments(kept[j])`). */
  predicate MatchesKept(x: Source, kept: seq<Source>, same: SameArguments)
  {
    exists j :: 0 <= j < |kept| && same(x, kept[j])
  }

  /** The variants the constructor keeps: the first one always, then each
      later one unless it matches one kept before it. */
  function Dedup(s: seq<Source>, same: SameArguments): (kept: seq<Source>)
    requires |s| > 0
    decreases |s|
    ensures 0 < |kept| <= |s|
    ensures kept[0] == s[0]
  {
    if |s| == 1 then [s[0]]
    else DedupAdd(Dedup(s[..|s| - 1], same), s[|s| - 1], same)
  }

  /** Every input variant is kept or argument-equal to a kept one, no kept
      variant is argument-equal to an earlier kept one, and only input
      variants are kept. */
  lemma {:induction false} DedupKeepsRepresentatives(s: seq<Source>, same: SameArguments)
    requires |s| > 0
    ensures var kept := Dedup(s, same);
      && (forall i :: 0 <= i < |s| ==> s[i] in kept || MatchesKept(s[i], kept, same))
      && (forall i, j :: 0 <= i < j < |kept| ==> !same(kept[j], kept[i]))
      && (forall x :: x in kept ==> x in s)
    decreases |s|
  {
    if |s| > 1 {
      var init := s[..|s| - 1];
      DedupKeepsRepresentatives(init, same);
      var prev := Dedup(init, same);
      var x := s[|s| - 1];
      assert forall i :: 0 <= i < |s| - 1 ==> s[i] == init[i];
      assert forall j :: 0 <= j < |prev| ==> (prev + [x])[j] == prev[j];
    }
  }

  /** One step of the constructor's outer loop. */
  function DedupAdd(kept: seq<Source>, x: Source, same: SameArguments): seq<Source>
  {
    if MatchesKept(x, kept, same) then kept else kept + [x]
  }

  /** The input positions of the kept variants: position 0, then each later
      position whose variant matches none kept before it. */
  ghost function DedupIndices(s: seq<Source>, same: SameArguments): (idx: seq<int>)
    requires |s| > 0
    decreases |s|
  {
    if |s| == 1 then [0]
    else
      var init := s[..|s| - 1];
      if MatchesKept(s[|s| - 1], Dedup(init, same), same) then DedupIndices(init, same)
      else DedupIndices(init, same) + [|s| - 1]
  }

  /** One more input variant: it is dropped when it matches a kept one, and
      otherwise kept, at its own position. */
  lemma DedupSnoc(s: seq<Source>, same: SameArguments)
    requires |s| > 1
    ensures var init := s[..|s| - 1]; var x := s[|s| - 1];
      if MatchesKept(x, Dedup(init, same), same)
      then Dedup(s, same) == Dedup(init, same) && DedupIndices(s, same) == DedupIndices(init, same)
      else Dedup(s, same) == Dedup(init, same) + [x] && DedupIndices(s, same) == DedupIndices(init, same) + [|s| - 1]
  {
  }

  /** The kept variants sit at the increasing input positions `DedupIndices`
      names. */
  lemma {:induction false} DedupIndicesEmbed(s: seq<Source>, same: SameArguments)
    requires |s| > 0
    ensures IsEmbedding(DedupIndices(s, same), Dedup(s, same), s)
    decreases |s|
  {
    if |s| > 1 {
      var init := s[..|s| - 1];
      var x := s[|s| - 1];
      DedupIndicesEmbed(init, same);
      DedupSnoc(s, same);
      var prev := Dedup(init, same);
      var pidx := DedupIndices(init, same);
      assert forall i :: 0 <= i < |s| - 1 ==> s[i] == init[i];
      assert IsEmbedding(pidx, prev, s);
      if !MatchesKept(x, prev, same) {
        var idx := pidx + [|s| - 1];
        var kept := prev + [x];
        assert forall k :: 0 <= k < |prev| ==> kept[k] == prev[k] && idx[k] == pidx[k];
        assert IsEmbedding(idx, kept, s);
      }
    }
  }

  /** A variant the constructor drops has the same arguments as a variant
      kept at an earlier input position. */
  lemma {:induction false} DedupDroppedAt(s: seq<Source>, same: SameArguments, i: nat)
    requires 0 < i < |s| && i !in DedupIndices(s, same)
    ensures exists k :: 0 <= k < |Dedup(s, same)| && k < |DedupIndices(s, same)|
              && DedupIndices(s, same)[k] < i && same(s[i], Dedup(s, same)[k])
    decreases |s|
  {
    var init := s[..|s| - 1];
    var x := s[|s| - 1];
    DedupSnoc(s, same);
    DedupIndicesEmbed(init, same);
    var prev := Dedup(init, same);
    var pidx := DedupIndices(init, same);
    if i == |s| - 1 {
      assert MatchesKept(x, prev, same);
      var k :| 0 <= k < |prev| && same(x, prev[k]);
      assert pidx[k] < |init|;
    } else {
      assert s[i] == init[i];
      DedupDroppedAt(init, same, i);
      var k :| 0 <= k < |prev| && k < |pidx| && pidx[k] < i && same(init[i], prev[k]);
      if !MatchesKept(x, prev, same) {
        assert (prev + [x])[k] == prev[k] && (pidx + [|s| - 1])[k] == pidx[k];
      }
    }
  }

  /** The first occurrence wins: the kept variants sit at increasing input
      positions, and every variant the constructor does not keep has the same
      arguments as a variant kept at an earlier position. Together with
      `DedupKeepsRepresentatives` this pins down the constructor's greedy
      scan. */
  lemma DedupFirstOccurrenceWins(s: seq<Source>, same: SameArguments)
    requires |s| > 0
    ensures var kept := Dedup(s, same); var idx := DedupIndices(s, same);
      && IsEmbedding(idx, kept, s)
      && (forall i :: 0 <= i < |s| && i !in idx ==>
            exists k :: 0 <= k < |kept| && idx[k] < i && same(s[i], kept[k]))
  {
    DedupIndicesEmbed(s, same);
    forall i | 0 <= i < |s| && i !in DedupIndices(s, same)
      ensures exists k :: 0 <= k < |Dedup(s, same)| && DedupIndices(s, same)[k] < i
                && same(s[i], Dedup(s, same)[k])
    {
      DedupZeroKept(s, same);
      DedupDroppedAt(s, same, i);
    }
  }

  /** Position 0 is always kept. */
  lemma {:induction false} DedupZeroKept(s: seq<Source>, same: SameArguments)
    requires |s| > 0
    ensures 0 in DedupIndices(s, same)
    decreases |s|
  {
    if |s| > 1 {
      DedupZeroKept(s[..|s| - 1], same);
      DedupSnoc(s, same);
    }
  }

  /** The kept variants appear in the input, in input order. */
  lemma {:induction false} DedupIsSubsequence(s: seq<Source>, same: SameArguments)
    requires |s| > 0
    ensures IsSubsequence(Dedup(s, same), s)
    decreases |s|
  {
    if |s| == 1 {
      assert IsEmbedding([0], Dedup(s, same), s);
    } else {
      var init := s[..|s| - 1];
      DedupIsSubsequence(init, same);
      var prev := Dedup(init, same);
      var idx :| IsEmbedding(idx, prev, init);
      assert IsEmbedding(idx, prev, s);
      if !MatchesKept(s[|s| - 1], prev, same) {
        var idx' := idx + [|s| - 1];
        assert IsEmbedding(idx', prev + [s[|s| - 1]], s);
      }
    }
  }

  /** `[A, B, C]` with B argument-equal to A and C equal to neither keeps
      exactly `[A, C]`. */
  lemma DedupDropsLaterDuplicate(a: Source, b: Source, c: Source, same: SameArguments)
    requires same(b, a) && !same(c, a)
    ensures Dedup([a, b, c], same) == [a, c]
  {
    assert [a, b, c][..2] == [a, b];
    assert [a, b][..1] == [a];
    assert Dedup([a, b], same) == [a];
  }

  /** The first id handed out by the counter. */
  const FirstId: uint64 := 1

  /** `sNextId++` on a `uint64_t`: the counter after one job took its id. */
  function NextId(counter: uint64): (r: uint64)
    ensures counter < 0xFFFF_FFFF_FFFF_FFFF ==> r == counter + 1 && r > counter
    ensures counter == 0xFFFF_FFFF_FFFF_FFFF ==> r == 0
  {
    (counter + 1) % 0x1_0000_0000_0000_0000
  }

  /** The ids that `n` successive constructions receive from `counter`. */
  function IdsFrom(counter: uint64, n: nat): (ids: seq<uint64>)
    ensures |ids| == n
    decreases n
  {
    if n == 0 then [] else [counter] + IdsFrom(NextId(counter), n - 1)
  }

  /** Until the 64-bit counter wraps, successive jobs get successive, hence
      strictly increasing, ids. */
  lemma {:induction false} IdsIncrease(counter: uint64, n: nat)
    requires counter + n <= 0x1_0000_0000_0000_0000
    ensures forall i :: 0 <= i < n ==> IdsFrom(counter, n)[i] == counter + i
    ensures forall i, j :: 0 <= i < j < n ==> IdsFrom(counter, n)[i] < IdsFrom(counter, n)[j]
    decreases n
  {
    if n > 0 {
      IdsIncrease(NextId(counter), n - 1);
      assert NextId(counter) == counter + 1 || n == 1;
    }
  }

  /** Starting from the initial counter, no job ever gets the id 0 before the
      counter wraps. */
  lemma IdsFromFirstAreNonZero(n: nat)
    requires n < 0x1_0000_0000_0000_0000
    ensures forall i :: 0 <= i < n ==> IdsFrom(FirstId, n)[i] == i + 1 > 0
  {
    IdsIncrease(FirstId, n);
  }

  /** The constructor's inner loop: whether `src` has the same arguments as
      some variant kept so far. */
  method FindSameArguments(src: Source, sources: seq<Source>, same: SameArguments) returns (found: bool)
    ensures found <==> MatchesKept(src, sources, same)
  {
    found := false;
    var j := 0;
    while j < |sources|
      invariant 0 <= j <= |sources|
      invariant !MatchesKept(src, sources[..j], same)
    {
      if same(src, sources[j]) {
        found := true;
        break;
      }
      assert forall k :: 0 <= k < j ==> sources[..j + 1][k] == sources[..j][k];
      j := j + 1;
    }
    if !found {
      assert sources[..j] == sources;
    }
  }

  /** Extending the input by one variant extends the kept list by it exactly
      when it matches no kept variant. */
  lemma DedupStep(s: seq<Source>, i: nat, same: SameArguments)
    requires 1 <= i < |s|
    ensures Dedup(s[..i + 1], same) == DedupAdd(Dedup(s[..i], same), s[i], same)
  {
    var t := s[..i + 1];
    assert |t| != 1;
    assert Dedup(t, same) == DedupAdd(Dedup(t[..|t| - 1], same), t[|t| - 1], same);
    assert t[..|t| - 1] == s[..i];
  }

  /** The constructor: keeps the variants as `Dedup` describes, takes the
      source file from the first input and the id from the counter, and
      marks the first variant's file as visited. */
  method ConstructJob(s: seq<Source>, flags: set<Flag>, project: Path, unsaved: UnsavedFiles,
                      same: SameArguments, counter: uint64)
    returns (job: Job, counter': uint64)
    requires |s| > 0
    ensures job.sources == Dedup(s, same)
    ensures forall i :: 0 <= i < |s| ==> s[i] in job.sources || MatchesKept(s[i], job.sources, same)
    ensures forall i, j :: 0 <= i < j < |job.sources| ==> !same(job.sources[j], job.sources[i])
    ensures job.sourceFile == s[0].sourceFile
    ensures job.visited == {s[0].fileId}
    ensures job.id == counter && counter' == NextId(counter)
    ensures job.cachedPriority == INT_MIN && job.crashCount == 0
    ensures job.flags == flags && job.project == project && job.unsavedFiles == unsaved
    ensures ValidJob(job)
  {
    var sources := [s[0]];
    assert s[..1] == [s[0]];
    var i := 1;
    while i < |s|
      invariant 1 <= i <= |s|
      invariant sources == Dedup(s[..i], same)
    {
      var found := FindSameArguments(s[i], sources, same);
      DedupStep(s, i, same);
      if !found {
        sources := sources + [s[i]];
      }
      i := i + 1;
    }
    assert s[..|s|] == s;
    DedupKeepsRepresentatives(s, same);
    job := Job(counter, flags, project, unsaved, 0, INT_MIN, sources, s[0].sourceFile, {sources[0].fileId});
    counter' := NextId(counter);
  }

  // ---------------------------------------------------------------------
  // Priority

  /** The parts of the server's state that `priority` reads: the buffer and
      system-header classification, the loaded projects' dependency graphs
      by project path, and the current project. */
  datatype ServerView = ServerView(
    classifier: Classifier,
    projects: map<Path, Graph>,
    currentProject: Option<Path>)

  /** `priority` dereferences the job's project when the primary file's
      buffer is Inactive, so the project must resolve then. */
  predicate PriorityDefined(job: Job, server: ServerView)
  {
    && |job.sources| > 0
    && (server.classifier.bufferType(job.sources[0].fileId) == Inactive ==> job.project in server.projects)
  }

  function FlagScore(flags: set<Flag>): int
  {
    if Dirty in flags then 1 else if Reindex in flags then 4 else 0
  }

  function BufferScore(job: Job, server: ServerView): int
    requires PriorityDefined(job, server)
  {
    var f := job.sources[0].fileId;
    match server.classifier.bufferType(f)
    case Active => 8
    case Open => 3
    case Inactive =>
      if IncludesActiveFile(server.projects[job.project], server.classifier, f) then 2 else 0
  }

  function ProjectScore(job: Job, server: ServerView): int
  {
    if job.project in server.projects && server.currentProject == Some(job.project) then 1 else 0
  }

  /** The score `priority` computes when nothing is cached. */
  function ComputePriority(job: Job, server: ServerView): (p: int)
    requires PriorityDefined(job, server)
    ensures 0 <= p <= 13
    ensures p != INT_MIN
  {
    FlagScore(job.flags) + BufferScore(job, server) + ProjectScore(job, server)
  }

  /** An Active primary buffer scores at least 8, which every other
      combination of terms can at best tie (Reindex, Open and the current
      project also sum to 8): a score above 8 means an Active buffer. */
  lemma ActiveBufferRanksFirst(job: Job, server: ServerView)
    requires PriorityDefined(job, server)
    ensures server.classifier.bufferType(job.sources[0].fileId) == Active ==> ComputePriority(job, server) >= 8
    ensures ComputePriority(job, server) > 8 ==> server.classifier.bufferType(job.sources[0].fileId) == Active
  {
  }

  /** The Dirty and Reindex contributions are exclusive: once Dirty is set,
      adding Reindex changes nothing. */
  lemma DirtyMasksReindex(job: Job, server: ServerView)
    requires PriorityDefined(job, server) && Dirty in job.flags
    ensures ComputePriority(job.(flags := job.flags + {Reindex}), server) == ComputePriority(job, server)
  {
  }

  /** The +2 bonus is only ever granted to an Inactive file whose dependency
      node leads, through non-system files, to a non-Inactive file with an
      include. */
  lemma InactiveBonusWitnessed(job: Job, server: ServerView)
    requires PriorityDefined(job, server)
    requires server.classifier.bufferType(job.sources[0].fileId) == Inactive
    requires ComputePriority(job, server) - FlagScore(job.flags) - ProjectScore(job, server) == 2
    ensures LeadsToQualifying(server.projects[job.project], server.classifier, job.sources[0].fileId)
  {
    var f := job.sources[0].fileId;
    ExpandSound(server.projects[job.project], server.classifier, f, {f});
  }

  /** Dirty, Active, current project: 1 + 8 + 1. */
  lemma PriorityDirtyActiveCurrent(job: Job, server: ServerView)
    requires |job.sources| > 0 && Dirty in job.flags
    requires server.classifier.bufferType(job.sources[0].fileId) == Active
    requires job.project in server.projects && server.currentProject == Some(job.project)
    ensures PriorityDefined(job, server) && ComputePriority(job, server) == 10
  {
  }

  /** Reindex, Inactive with no dependency node, another project: 4. */
  lemma PriorityReindexInactiveElsewhere(job: Job, server: ServerView)
    requires |job.sources| > 0 && Dirty !in job.flags && Reindex in job.flags
    requires server.classifier.bufferType(job.sources[0].fileId) == Inactive
    requires job.project in server.projects
    requires job.sources[0].fileId !in server.projects[job.project]
    requires server.currentProject != Some(job.project)
    ensures PriorityDefined(job, server) && ComputePriority(job, server) == 4
  {
  }

  /** `priority()`: returns the cached score, computing and caching it first
      when the cache holds the `INT_MIN` sentinel. */
  function Priority(job: Job, server: ServerView): (res: (int, Job))
    requires job.cachedPriority == INT_MIN ==> PriorityDefined(job, server)
    ensures res.0 != INT_MIN && res.1.cachedPriority == res.0
    ensures job.cachedPriority != INT_MIN ==> res.0 == job.cachedPriority && res.1 == job
    ensures job.cachedPriority == INT_MIN ==> 0 <= res.0 <= 13 && res.0 == ComputePriority(job, server)
    ensures res.1 == job.(cachedPriority := res.0)
  {
    if job.cachedPriority == INT_MIN then
      var p := ComputePriority(job, server);
      (p, job.(cachedPriority := p))
    else
      (job.cachedPriority, job)
  }

  /** `recalculatePriority()`: resets the sentinel and computes again. */
  function RecalculatePriority(job: Job, server: ServerView): (r: Job)
    requires PriorityDefined(job, server)
    ensures r.cachedPriority != INT_MIN
    ensures r == job.(cachedPriority := ComputePriority(job, server))
  {
    Priority(job.(cachedPriority := INT_MIN), server).1
  }

  /** Memoisation: once computed, the priority no longer follows the server's
      state; every later call returns the first value. */
  lemma PriorityIsMemoised(job: Job, s1: ServerView, s2: ServerView)
    requires job.cachedPriority == INT_MIN ==> PriorityDefined(job, s1)
    ensures Priority(Priority(job, s1).1, s2).0 == Priority(job, s1).0
    ensures Priority(Priority(job, s1).1, s2).1 == Priority(job, s1).1
  {
  }

  /** After `recalculatePriority` under the new state, `priority()` reports the
      score of the new state, whatever state it is later called in. */
  lemma RecalculateFollowsServer(job: Job, s0: ServerView, s1: ServerView, later: ServerView)
    requires job.cachedPriority == INT_MIN ==> PriorityDefined(job, s0)
    requires PriorityDefined(job, s1)
    ensures Priority(RecalculatePriority(Priority(job, s0).1, s1), later).0 == ComputePriority(job, s1)
  {
  }

  /** Caching and recalculation keep a job valid. */
  lemma PriorityKeepsJobValid(job: Job, server: ServerView)
    requires ValidJob(job) && PriorityDefined(job, server)
    ensures ValidJob(Priority(job, server).1)
    ensures ValidJob(RecalculatePriority(job, server))
  {
  }

  // ---------------------------------------------------------------------
  // dumpFlags

  /** The flags in declaration order. */
  const FlagOrder: seq<Flag> := [Dirty, Reindex, Compile, Running, Crashed, Aborted, Complete]

  function Rank(f: Flag): nat
  {
    match f
    case Dirty => 0
    case Reindex => 1
    case Compile => 2
    case Running => 3
    case Crashed => 4
    case Aborted => 5
    case Complete => 6
  }

  function FlagName(f: Flag): string
  {
    match f
    case Dirty => "Dirty"
    case Reindex => "Reindex"
    case Compile => "Compile"
    case Running => "Running"
    case Crashed => "Crashed"
    case Aborted => "Aborted"
    case Complete => "Complete"
  }

  function FlagFromName(n: string): Option<Flag>
  {
    if n == "Dirty" then Some(Dirty)
    else if n == "Reindex" then Some(Reindex)
    else if n == "Compile" then Some(Compile)
    else if n == "Running" then Some(Running)
    else if n == "Crashed" then Some(Crashed)
    else if n == "Aborted" then Some(Aborted)
    else if n == "Complete" then Some(Complete)
    else None
  }

  /** The members of `flags`, taken in the order of `order`, which `rank`
      strictly increases along. */
  function SetFlagsIn<T(==,!new)>(order: seq<T>, flags: set<T>, rank: T -> nat): (r: seq<T>)
    requires forall i, j :: 0 <= i < j < |order| ==> rank(order[i]) < rank(order[j])
    ensures forall f :: f in r <==> f in order && f in flags
    ensures forall i, j :: 0 <= i < j < |r| ==> rank(r[i]) < rank(r[j])
    ensures flags == {} ==> r == []
  {
    if |order| == 0 then []
    else
      var rest := SetFlagsIn(order[1..], flags, rank);
      assert forall f :: f in rest ==> rank(order[0]) < rank(f);
      if order[0] in flags then [order[0]] + rest else rest
  }

  function Names(fs: seq<Flag>): (r: seq<string>)
    ensures |r| == |fs|
    ensures forall i :: 0 <= i < |fs| ==> r[i] == FlagName(fs[i])
  {
    if |fs| == 0 then [] else [FlagName(fs[0])] + Names(fs[1..])
  }

  /** `String::join`. */
  function Join(parts: seq<string>, sep: string): string
  {
    if |parts| == 0 then ""
    else if |parts| == 1 then parts[0]
    else parts[0] + sep + Join(parts[1..], sep)
  }

  /** `dumpFlags`: the names of the set flags, in declaration order, joined by
      ", ". */
  function DumpFlags(flags: set<Flag>): (r: string)
    ensures ParseFlags(r) == Some(SetFlagsIn(FlagOrder, flags, Rank))
  {
    var fs := SetFlagsIn(FlagOrder, flags, Rank);
    ParseRendering(fs);
    Join(Names(fs), ", ")
  }

  lemma AllFlagsInOrder(f: Flag)
    ensures f in FlagOrder
  {
    match f
    case Dirty =>
    case Reindex =>
    case Compile =>
    case Running =>
    case Crashed =>
    case Aborted =>
    case Complete =>
  }

  /** The rendering is empty exactly for the empty flag set. */
  lemma DumpFlagsEmptyIff(flags: set<Flag>)
    ensures DumpFlags(flags) == "" <==> flags == {}
  {
    var fs := SetFlagsIn(FlagOrder, flags, Rank);
    var names := Names(fs);
    if flags != {} {
      var f :| f in flags;
      AllFlagsInOrder(f);
      forall i | 0 <= i < |names| ensures |names[i]| > 0 {
        FlagNameShape(fs[i]);
      }
      NonEmptyJoin(names, ", ");
    }
  }

  lemma {:induction false} NonEmptyJoin(parts: seq<string>, sep: string)
    requires |parts| > 0 && forall i :: 0 <= i < |parts| ==> |parts[i]| > 0
    ensures |Join(parts, sep)| > 0
  {
  }

  /** Splits at each ", " (the inverse of `Join(_, ", ")`). A comma that is
      not followed by a space leaves the text unsplit, so the piece holding it
      names no flag. */
  function SplitAtCommas(s: string): seq<string>
    decreases |s|
  {
    var i := IndexOf(s, ',');
    if i != -1 && i + 1 < |s| && s[i + 1] == ' ' then [s[..i]] + SplitAtCommas(s[i + 2..])
    else [s]
  }

  function ParseNames(ns: seq<string>): Option<seq<Flag>>
  {
    if |ns| == 0 then Some([])
    else
      var head := FlagFromName(ns[0]);
      var tail := ParseNames(ns[1..]);
      if head.Some? && tail.Some? then Some([head.value] + tail.value) else None
  }

  /** Reads a `dumpFlags` rendering back into the flags it lists. */
  function ParseFlags(s: string): Option<seq<Flag>>
  {
    if s == "" then Some([]) else ParseNames(SplitAtCommas(s))
  }

  lemma {:induction false} SplitJoin(parts: seq<string>)
    requires |parts| > 0
    requires forall i :: 0 <= i < |parts| ==> ',' !in parts[i]
    ensures SplitAtCommas(Join(parts, ", ")) == parts
    decreases |parts|
  {
    if |parts| > 1 {
      SplitAtCommasStep(parts[0], Join(parts[1..], ", "));
      SplitJoin(parts[1..]);
      assert parts == [parts[0]] + parts[1..];
    }
  }

  /** A comma-free part followed by ", " splits off as the first piece. */
  lemma SplitAtCommasStep(p: string, rest: string)
    requires ',' !in p
    ensures SplitAtCommas(p + ", " + rest) == [p] + SplitAtCommas(rest)
  {
    var s := p + ", " + rest;
    assert s[..|p|] == p && s[|p|] == ',';
    IndexOfAt(s, ',', |p|);
    assert s[|p| + 2..] == rest;
  }

  lemma {:induction false} ParseNamesOfNames(fs: seq<Flag>)
    ensures ParseNames(Names(fs)) == Some(fs)
    decreases |fs|
  {
    if |fs| > 0 {
      ParseNamesOfNames(fs[1..]);
      var ns := Names(fs);
      assert ns[0] == FlagName(fs[0]) && ns[1..] == Names(fs[1..]);
      FlagFromNameOfName(fs[0]);
      assert fs == [fs[0]] + fs[1..];
    }
  }

  /** Each flag's name reads back as that flag. */
  lemma FlagFromNameOfName(f: Flag)
    ensures FlagFromName(FlagName(f)) == Some(f)
  {
  }

  /** `dumpFlags` loses nothing and keeps declaration order: reading the
      rendering back yields exactly the set flags, each once, by increasing
      declaration rank. */
  lemma DumpFlagsRoundTrip(flags: set<Flag>)
    ensures ParseFlags(DumpFlags(flags)).Some?
    ensures var fs := ParseFlags(DumpFlags(flags)).value;
      && (forall f :: f in fs <==> f in flags)
      && (forall i, j :: 0 <= i < j < |fs| ==> Rank(fs[i]) < Rank(fs[j]))
  {
    forall f ensures f in FlagOrder {
      AllFlagsInOrder(f);
    }
    ParseRendering(SetFlagsIn(FlagOrder, flags, Rank));
  }

  /** The separator is part of the format: a rendering whose first comma is
      not followed by a space (names joined by "," alone, say) does not read
      back. */
  lemma OtherSeparatorsRejected(s: string)
    requires ',' in s
    requires var i := IndexOf(s, ','); i + 1 == |s| || s[i + 1] != ' '
    ensures ParseFlags(s) == None
  {
    assert SplitAtCommas(s) == [s];
    NoFlagNameHasComma(s);
    assert [s][1..] == [];
  }

  /** A text holding a comma names no flag. */
  lemma NoFlagNameHasComma(n: string)
    requires ',' in n
    ensures FlagFromName(n) == None
  {
    forall f: Flag ensures n != FlagName(f) {
      FlagNameShape(f);
    }
  }

  lemma CommaJoinRejected()
    ensures ParseFlags("Dirty" + "," + "Reindex") == None
    ensures ParseFlags("Dirty" + ",;" + "Reindex") == None
  {
    JoinedByRejected("Dirty", ",", "Reindex");
    JoinedByRejected("Dirty", ",;", "Reindex");
  }

  /** Two texts joined by a separator that starts with a comma but does not
      continue with a space do not read back. */
  lemma JoinedByRejected(a: string, sep: string, b: string)
    requires ',' !in a && |sep| > 0 && sep[0] == ','
    requires |sep + b| > 1 && (sep + b)[1] != ' '
    ensures ParseFlags(a + sep + b) == None
  {
    var s := a + sep + b;
    assert s[..|a|] == a && s[|a|] == ',' && s[|a| + 1] == (sep + b)[1];
    IndexOfAt(s, ',', |a|);
    OtherSeparatorsRejected(s);
  }

  /** Every flag name is a non-empty word without a comma. */
  lemma FlagNameShape(f: Flag)
    ensures |FlagName(f)| > 0 && ',' !in FlagName(f)
  {
  }

  /** Any flag list rendered with `, ` reads back as itself. */
  lemma ParseRendering(fs: seq<Flag>)
    ensures ParseFlags(Join(Names(fs), ", ")) == Some(fs)
  {
    ParseNamesOfNames(fs);
    if |fs| > 0 {
      var names := Names(fs);
      forall i | 0 <= i < |names| ensures |names[i]| > 0 && ',' !in names[i] {
        FlagNameShape(fs[i]);
      }
      NonEmptyJoin(names, ", ");
      SplitJoin(names);
    }
  }

}
