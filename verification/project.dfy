/** The visited-file bookkeeping of `Project`: the map of claimed file ids
    and the registry of active jobs, with `visitFile` and `releaseFileIds`
    taken as atomic transitions (the project mutex is held for each), plus
    opening a file's persistent symbol maps. */
module Project {
  import opened Support
  import opened IndexerJob

  /** `Source::key()` of an active job; 0 stands for "no job". */
  type JobKey = uint64

  /** `mVisitedFiles` and `mActiveJobs`. */
  datatype ProjectState = ProjectState(
    visitedFiles: map<FileId, Path>,
    activeJobs: map<JobKey, Job>)

  /** An id is free to claim when it has no entry or an empty path. */
  predicate Unclaimed(st: ProjectState, fileId: FileId)
  {
    fileId !in st.visitedFiles || st.visitedFiles[fileId] == ""
  }

  /** `visitFile` asserts a non-zero id, and a job key that is active
      whenever the claim succeeds. */
  predicate VisitAllowed(st: ProjectState, fileId: FileId, key: JobKey)
  {
    fileId != 0 && (key != 0 && Unclaimed(st, fileId) ==> key in st.activeJobs)
  }

  /** `visitFile(fileId, path, key)`: a first-claim check-and-set. On success
      the entry takes the path and, for a non-zero key, the owning job's
      visited set gains the id. */
  function VisitFile(st: ProjectState, fileId: FileId, path: Path, key: JobKey): (res: (bool, ProjectState))
    requires VisitAllowed(st, fileId, key)
    ensures res.0 <==> Unclaimed(st, fileId)
    ensures !res.0 ==> res.1 == st
    ensures res.0 ==> res.1.visitedFiles == st.visitedFiles[fileId := path]
    ensures res.1.activeJobs.Keys == st.activeJobs.Keys
    ensures forall k :: k in st.activeJobs && (k != key || !res.0) ==> res.1.activeJobs[k] == st.activeJobs[k]
    ensures res.0 && key != 0 ==>
      res.1.activeJobs[key].visited == st.activeJobs[key].visited + {fileId}
      && res.1.activeJobs[key] == st.activeJobs[key].(visited := res.1.activeJobs[key].visited)
  {
    if Unclaimed(st, fileId) then
      var jobs :=
        if key != 0 then
          var job := st.activeJobs[key];
          st.activeJobs[key := job.(visited := job.visited + {fileId})]
        else st.activeJobs;
      (true, ProjectState(st.visitedFiles[fileId := path], jobs))
    else
      (false, st)
  }

  /** `releaseFileIds(ids)`: the ids become claimable again. */
  function ReleaseFileIds(st: ProjectState, ids: set<FileId>): (r: ProjectState)
    ensures r.visitedFiles.Keys == st.visitedFiles.Keys - ids
    ensures forall f :: f in r.visitedFiles ==> r.visitedFiles[f] == st.visitedFiles[f]
    ensures r.activeJobs == st.activeJobs
    ensures ids == {} ==> r == st
  {
    if ids == {} then st else st.(visitedFiles := st.visitedFiles - ids)
  }

  /** `isActiveJob(key)`. */
  function IsActiveJob(st: ProjectState, key: JobKey): (r: bool)
    ensures key == 0 ==> r
    ensures key != 0 ==> (r <==> key in st.activeJobs)
    ensures st.activeJobs == map[] ==> (r <==> key == 0)
  {
    key == 0 || key in st.activeJobs
  }

  /** `isIndexing()`. */
  function IsIndexing(st: ProjectState): (r: bool)
    ensures r <==> exists k :: k in st.activeJobs
  {
    |st.activeJobs| > 0
  }

  /** A claimed id with a non-empty path stays claimed: visiting it again
      fails and changes nothing. */
  lemma SecondVisitFails(st: ProjectState, fileId: FileId, path: Path, key: JobKey, path2: Path, key2: JobKey)
    requires VisitAllowed(st, fileId, key) && Unclaimed(st, fileId) && path != ""
    ensures var st1 := VisitFile(st, fileId, path, key).1;
      VisitAllowed(st1, fileId, key2) && VisitFile(st1, fileId, path2, key2) == (false, st1)
  {
  }

  /** Claiming with an empty path records nothing that blocks a later claim:
      the next visit of the same id succeeds as well. */
  lemma EmptyPathClaimIsNotExclusive(st: ProjectState, fileId: FileId, key: JobKey, path2: Path, key2: JobKey)
    requires VisitAllowed(st, fileId, key) && Unclaimed(st, fileId)
    requires key2 == 0 || key2 in st.activeJobs
    ensures var (ok, st1) := VisitFile(st, fileId, "", key);
      ok && fileId in st1.visitedFiles && st1.visitedFiles[fileId] == ""
      && VisitAllowed(st1, fileId, key2) && VisitFile(st1, fileId, path2, key2).0
  {
  }

  /** After an id is released, visiting it succeeds again. */
  lemma ReleaseThenVisitSucceeds(st: ProjectState, ids: set<FileId>, fileId: FileId, path: Path, key: JobKey)
    requires fileId in ids && fileId != 0
    requires key == 0 || key in st.activeJobs
    ensures var st1 := ReleaseFileIds(st, ids);
      VisitAllowed(st1, fileId, key) && VisitFile(st1, fileId, path, key).0
  {
  }

  /** Releasing leaves untouched every id not released: they stay claimed
      exactly as before. */
  lemma ReleaseKeepsOtherClaims(st: ProjectState, ids: set<FileId>, fileId: FileId)
    requires fileId !in ids
    ensures Unclaimed(ReleaseFileIds(st, ids), fileId) <==> Unclaimed(st, fileId)
  {
  }

  /** Neither transition touches the registry, so neither changes the
      registry queries. */
  lemma TransitionsKeepRegistry(st: ProjectState, fileId: FileId, path: Path, key: JobKey, ids: set<FileId>, probe: JobKey)
    requires VisitAllowed(st, fileId, key)
    ensures IsActiveJob(VisitFile(st, fileId, path, key).1, probe) <==> IsActiveJob(st, probe)
    ensures IsIndexing(VisitFile(st, fileId, path, key).1) <==> IsIndexing(st)
    ensures IsActiveJob(ReleaseFileIds(st, ids), probe) <==> IsActiveJob(st, probe)
    ensures IsIndexing(ReleaseFileIds(st, ids)) <==> IsIndexing(st)
  {
    var st1 := VisitFile(st, fileId, path, key).1;
    assert |st1.activeJobs.Keys| == |st.activeJobs.Keys|;
  }

  /** The key 0 is always considered active; no other key is active in an idle
      project. */
  lemma IdleProjectHasOnlyKeyZero(st: ProjectState, key: JobKey)
    ensures IsActiveJob(st, 0)
    ensures key != 0 ==> (IsActiveJob(st, key) <==> key in st.activeJobs)
    ensures IsIndexing(st) <==> exists k :: k in st.activeJobs
    ensures !IsIndexing(st) ==> (IsActiveJob(st, key) <==> key == 0)
  {
    if IsIndexing(st) {
      var k :| k in st.activeJobs.Keys;
    }
    if !IsIndexing(st) {
      assert st.activeJobs == map[];
    }
  }

  /** One `visitFile` call. */
  datatype Visit = Visit(fileId: FileId, path: Path, key: JobKey)

  /** Each call is allowed by the registry, which visits never change. */
  predicate VisitsAllowed(st: ProjectState, calls: seq<Visit>)
  {
    forall i :: 0 <= i < |calls| ==> calls[i].fileId != 0 && (calls[i].key == 0 || calls[i].key in st.activeJobs)
  }

  /** A sequence of `visitFile` calls: the result of each and the final state. */
  function RunVisits(st: ProjectState, calls: seq<Visit>): (res: (seq<bool>, ProjectState))
    requires VisitsAllowed(st, calls)
    ensures |res.0| == |calls|
    ensures res.1.activeJobs.Keys == st.activeJobs.Keys
    decreases |calls|
  {
    if |calls| == 0 then ([], st)
    else
      var (ok, st1) := VisitFile(st, calls[0].fileId, calls[0].path, calls[0].key);
      var rest := RunVisits(st1, calls[1..]);
      ([ok] + rest.0, rest.1)
  }

  /** First claim wins: among visits of one id with non-empty paths, only the
      first succeeds, and it succeeds exactly when the id started out free. */
  lemma {:induction false} FirstClaimWins(st: ProjectState, calls: seq<Visit>, fileId: FileId)
    requires VisitsAllowed(st, calls)
    requires forall i :: 0 <= i < |calls| && calls[i].fileId == fileId ==> calls[i].path != ""
    ensures forall i, j :: (0 <= i < j < |calls| && calls[i].fileId == fileId && calls[j].fileId == fileId
                            ==> !RunVisits(st, calls).0[j])
    ensures forall i :: (0 <= i < |calls| && calls[i].fileId == fileId
                         && (forall k :: 0 <= k < i ==> calls[k].fileId != fileId)
                         ==> (RunVisits(st, calls).0[i] <==> Unclaimed(st, fileId)))
    decreases |calls|
  {
    if |calls| > 0 {
      var (ok, st1) := VisitFile(st, calls[0].fileId, calls[0].path, calls[0].key);
      assert VisitsAllowed(st1, calls[1..]);
      FirstClaimWins(st1, calls[1..], fileId);
      var results := RunVisits(st, calls).0;
      assert results == [ok] + RunVisits(st1, calls[1..]).0;
      if calls[0].fileId == fileId {
        assert !Unclaimed(st1, fileId);
        ClaimedStaysClaimed(st1, calls[1..], fileId);
      } else {
        assert Unclaimed(st1, fileId) <==> Unclaimed(st, fileId);
      }
    }
  }

  /** A claimed id is refused by every later visit. */
  lemma {:induction false} ClaimedStaysClaimed(st: ProjectState, calls: seq<Visit>, fileId: FileId)
    requires VisitsAllowed(st, calls) && !Unclaimed(st, fileId)
    ensures forall j :: 0 <= j < |calls| && calls[j].fileId == fileId ==> !RunVisits(st, calls).0[j]
    decreases |calls|
  {
    if |calls| > 0 {
      var (ok, st1) := VisitFile(st, calls[0].fileId, calls[0].path, calls[0].key);
      assert VisitsAllowed(st1, calls[1..]);
      assert !Unclaimed(st1, fileId);
      ClaimedStaysClaimed(st1, calls[1..], fileId);
      assert RunVisits(st, calls).0 == [ok] + RunVisits(st1, calls[1..]).0;
    }
  }

  // ---------------------------------------------------------------------
  // Persistent per-file maps

  /** A source location; ordered by file, then position. */
  datatype Location = Location(fileId: FileId, line: nat, column: nat)

  /** A symbol record as stored in a file's `symbols` map. */
  datatype Symbol = Symbol(symbolName: string, kind: nat, location: Location)

  /** A persistent sorted map, read as its entries in key order. */
  type FileMap<K, V> = seq<(K, V)>

  /** The map types and their fixed file names. */
  datatype MapType = SymNames | Symbols | Targets | Usrs

  function TypeName(t: MapType): string
  {
    match t
    case SymNames => "symnames"
    case Symbols => "symbols"
    case Targets => "targets"
    case Usrs => "usrs"
  }

  /** `FileMap::load` on a path: whether loading succeeded, and the contents
      the map holds afterwards. */
  type Load<K, V> = Path -> (bool, FileMap<K, V>)

  /** The file system as the openers see it: `sourceFilePath` and the
      `FileMap::load` of each value type. */
  datatype Store = Store(
    sourceFilePath: (FileId, string) -> Path,
    loadSymbolNames: Load<string, set<Location>>,
    loadSymbols: Load<Location, Symbol>,
    loadTargets: Load<Location, map<Location, uint16>>,
    loadUsrs: Load<string, set<Location>>)

  /** `openFileMap`: allocates a map, loads the file stored for this file id
      and type into it, and drops it again (a null pointer, not an error) when
      the load reports failure. */
  function OpenFileMap<K, V>(fileId: FileId, typeName: string, sourceFilePath: (FileId, string) -> Path,
                             load: Load<K, V>): (r: Option<FileMap<K, V>>)
    ensures r.None? <==> !load(sourceFilePath(fileId, typeName)).0
    ensures r.Some? ==> r.value == load(sourceFilePath(fileId, typeName)).1
  {
    var path := sourceFilePath(fileId, typeName);
    var loaded := load(path);
    if loaded.0 then Some(loaded.1) else None
  }

  /** Whatever a failed load leaves in the map is discarded: two loads that
      agree on success, and on the contents when they succeed, open the same
      result. */
  lemma FailedLoadIsDiscarded<K, V>(fileId: FileId, typeName: string, sourceFilePath: (FileId, string) -> Path,
                                    l1: Load<K, V>, l2: Load<K, V>)
    requires l1(sourceFilePath(fileId, typeName)).0 == l2(sourceFilePath(fileId, typeName)).0
    requires l1(sourceFilePath(fileId, typeName)).0 ==>
      l1(sourceFilePath(fileId, typeName)).1 == l2(sourceFilePath(fileId, typeName)).1
    ensures OpenFileMap(fileId, typeName, sourceFilePath, l1) == OpenFileMap(fileId, typeName, sourceFilePath, l2)
  {
  }

  function OpenSymbolNames(store: Store, fileId: FileId): Option<FileMap<string, set<Location>>>
  {
    OpenFileMap(fileId, TypeName(SymNames), store.sourceFilePath, store.loadSymbolNames)
  }

  function OpenSymbols(store: Store, fileId: FileId): Option<FileMap<Location, Symbol>>
  {
    OpenFileMap(fileId, TypeName(Symbols), store.sourceFilePath, store.loadSymbols)
  }

  function OpenTargets(store: Store, fileId: FileId): Option<FileMap<Location, map<Location, uint16>>>
  {
    OpenFileMap(fileId, TypeName(Targets), store.sourceFilePath, store.loadTargets)
  }

  function OpenUsrs(store: Store, fileId: FileId): Option<FileMap<string, set<Location>>>
  {
    OpenFileMap(fileId, TypeName(Usrs), store.sourceFilePath, store.loadUsrs)
  }

  /** The typed openers read the file stored under their fixed type name, and
      a failed load yields no map. */
  lemma OpenersUseFixedNames(store: Store, fileId: FileId)
    ensures OpenSymbols(store, fileId).None? <==> !store.loadSymbols(store.sourceFilePath(fileId, "symbols")).0
    ensures OpenSymbolNames(store, fileId).None? <==> !store.loadSymbolNames(store.sourceFilePath(fileId, "symnames")).0
    ensures OpenTargets(store, fileId).None? <==> !store.loadTargets(store.sourceFilePath(fileId, "targets")).0
    ensures OpenUsrs(store, fileId).None? <==> !store.loadUsrs(store.sourceFilePath(fileId, "usrs")).0
    ensures OpenSymbols(store, fileId).Some? ==>
      OpenSymbols(store, fileId).value == store.loadSymbols(store.sourceFilePath(fileId, "symbols")).1
  {
  }
}
