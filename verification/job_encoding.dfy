/** `IndexerJob::encode`: the per-variant argument adjustments and the
    dispatch payload handed to the out-of-process parser. The serializer's
    byte layout is not modelled: the payload body is an opaque function of
    the fields written, and only the 4-byte size prefix is spelled out. */
module JobEncoding {
  import opened Support
  import opened IndexerJob

  /** The server options `encode` reads. */
  datatype ServerOptions = ServerOptions(
    allowWErrorAndWFatalErrors: bool,
    allowPedantic: bool,
    enableCompilerManager: bool,
    pchEnabled: bool,
    enableNdebug: bool,
    defaultArguments: seq<string>,
    includePaths: seq<Path>,
    defines: set<Define>,
    sandboxRoot: Path,
    socketFile: Path,
    rpVisitFileTimeout: int,
    rpIndexDataMessageTimeout: int,
    rpConnectTimeout: int,
    rpConnectAttempts: int,
    rpNiceValue: int,
    optionBits: nat,
    dataDir: Path,
    debugLocations: seq<string>)

  /** Calls into code outside this model that may rewrite a variant:
      `CompilerManager::applyToSource` (include paths only),
      `Server::filterBlockedArguments` and `Project::fixPCH`. */
  datatype Collaborators = Collaborators(
    applyCompilerIncludePaths: Source -> Source,
    filterBlockedArguments: Source -> Source,
    fixPch: Source -> Source)

  const WError: string := "-Werror"
  const WFatalErrors: string := "-Wfatal-errors"
  const WPedantic: string := "-Wpedantic"

  function ErrorFlagsRemoved(opts: ServerOptions): multiset<string>
  {
    if opts.allowWErrorAndWFatalErrors then multiset{} else multiset{WError, WFatalErrors}
  }

  function PedanticRemoved(opts: ServerOptions): multiset<string>
  {
    if opts.allowPedantic then multiset{} else multiset{WPedantic}
  }

  /** Unless allowed, the first `-Werror` and the first `-Wfatal-errors` are
      erased; everything else stays, in order. */
  function StripErrorFlags(args: seq<string>, opts: ServerOptions): (r: seq<string>)
    ensures multiset(r) == multiset(args) - ErrorFlagsRemoved(opts)
    ensures opts.allowWErrorAndWFatalErrors ==> r == args
    ensures !opts.allowWErrorAndWFatalErrors ==> ErasesFirstOfBoth(args, WError, WFatalErrors, r)
  {
    if opts.allowWErrorAndWFatalErrors then args
    else
      var once := RemoveFirst(args, WError);
      var twice := RemoveFirst(once, WFatalErrors);
      MinusTwice(multiset(args), WError, WFatalErrors);
      ErasesFirstThenFirst(args, WError, WFatalErrors, once, twice);
      twice
  }

  lemma MinusTwice(m: multiset<string>, a: string, b: string)
    ensures m - multiset{a} - multiset{b} == m - multiset{a, b}
  {
    assert forall x :: (m - multiset{a} - multiset{b})[x] == (m - multiset{a, b})[x];
  }

  /** The argument steps of `encode`, in their order: strip the error flags,
      append the default arguments, then strip the first `-Wpedantic`, which
      may come from the defaults. */
  function AdjustArguments(args: seq<string>, opts: ServerOptions): (r: seq<string>)
    ensures multiset(r)
         == multiset(args) - ErrorFlagsRemoved(opts) + multiset(opts.defaultArguments) - PedanticRemoved(opts)
    ensures opts.allowPedantic ==> r == StripErrorFlags(args, opts) + opts.defaultArguments
    ensures !opts.allowPedantic ==> ErasesFirst(StripErrorFlags(args, opts) + opts.defaultArguments, WPedantic, r)
  {
    var withDefaults := StripErrorFlags(args, opts) + opts.defaultArguments;
    if opts.allowPedantic then withDefaults else RemoveFirst(withDefaults, WPedantic)
  }

  /** Error flags are stripped before the defaults are appended, so a
      `-Werror` among the default arguments reaches the parser. */
  lemma DefaultWErrorSurvives(args: seq<string>, opts: ServerOptions)
    requires WError in opts.defaultArguments
    ensures WError in AdjustArguments(args, opts)
  {
    var r := AdjustArguments(args, opts);
    assert multiset(opts.defaultArguments)[WError] > 0;
    assert multiset(r)[WError] > 0;
  }

  /** `-Wpedantic` is stripped after the defaults are appended, so a single one
      coming from the defaults is removed too. */
  lemma DefaultPedanticRemoved(args: seq<string>, opts: ServerOptions)
    requires !opts.allowPedantic
    requires WPedantic !in args && multiset(opts.defaultArguments)[WPedantic] == 1
    ensures WPedantic !in AdjustArguments(args, opts)
  {
    var r := AdjustArguments(args, opts);
    assert multiset(args)[WPedantic] == 0;
    assert multiset(r)[WPedantic] == 0;
  }

  /** Only the first `-Werror` is erased: a repeated one survives. */
  lemma SecondWErrorSurvives(args: seq<string>, opts: ServerOptions)
    requires multiset(args)[WError] >= 2
    ensures WError in AdjustArguments(args, opts)
  {
    var m := multiset(args) - ErrorFlagsRemoved(opts);
    assert m[WError] >= 1;
    var m2 := m + multiset(opts.defaultArguments);
    assert WError != WPedantic;
    assert (m2 - PedanticRemoved(opts))[WError] >= 1;
    assert multiset(AdjustArguments(args, opts))[WError] >= 1;
  }

  /** The configured defines are merged in, then `NDEBUG` is erased unless
      enabled. */
  function MergeDefines(defines: set<Define>, opts: ServerOptions): (r: set<Define>)
    ensures opts.enableNdebug ==> r == defines + opts.defines
    ensures !opts.enableNdebug ==> NDEBUG !in r
    ensures !opts.enableNdebug ==> r + {NDEBUG} == defines + opts.defines + {NDEBUG}
  {
    var merged := defines + opts.defines;
    if opts.enableNdebug then merged else merged - {NDEBUG}
  }

  /** The adjustments `encode` applies to its copy of one variant. */
  function AdjustSource(src: Source, opts: ServerOptions, coll: Collaborators): (r: Source)
    ensures !opts.enableNdebug ==> NDEBUG !in r.defines
    ensures opts.defines - {NDEBUG} <= r.defines
    ensures opts.enableNdebug ==> opts.defines <= r.defines
  {
    var a := src.(arguments := AdjustArguments(src.arguments, opts));
    var b := if opts.enableCompilerManager then coll.applyCompilerIncludePaths(a) else a;
    var c := coll.filterBlockedArguments(b);
    var d := c.(includePaths := opts.includePaths + c.includePaths);
    var e := if opts.pchEnabled then coll.fixPch(d) else d;
    e.(defines := MergeDefines(e.defines, opts))
  }

  /** With collaborators that change nothing, the variant keeps its identity,
      its arguments are adjusted, the configured include paths come first, and
      the defines are merged. */
  lemma AdjustSourceAlone(src: Source, opts: ServerOptions, coll: Collaborators)
    requires forall s :: coll.applyCompilerIncludePaths(s) == s
    requires forall s :: coll.filterBlockedArguments(s) == s
    requires forall s :: coll.fixPch(s) == s
    ensures AdjustSource(src, opts, coll).sourceFile == src.sourceFile
    ensures AdjustSource(src, opts, coll).fileId == src.fileId
    ensures AdjustSource(src, opts, coll).arguments == AdjustArguments(src.arguments, opts)
    ensures AdjustSource(src, opts, coll).includePaths == opts.includePaths + src.includePaths
    ensures AdjustSource(src, opts, coll).defines == MergeDefines(src.defines, opts)
  {
    var a := src.(arguments := AdjustArguments(src.arguments, opts));
    var b := if opts.enableCompilerManager then coll.applyCompilerIncludePaths(a) else a;
    assert b == a;
    var c := coll.filterBlockedArguments(b);
    assert c == a;
    var d := c.(includePaths := opts.includePaths + c.includePaths);
    var e := if opts.pchEnabled then coll.fixPch(d) else d;
    assert e == d;
  }

  /** The logical content of the dispatch payload, field by field in the
      order it is written (the size prefix excluded). */
  datatype Payload = Payload(
    version: uint16,
    sandboxRoot: Path,
    id: uint64,
    socketFile: Path,
    project: Path,
    variantCount: uint32,
    variants: seq<Source>,
    sourceFile: Path,
    flags: set<Flag>,
    visitFileTimeout: uint32,
    indexDataMessageTimeout: uint32,
    connectTimeout: uint32,
    connectAttempts: uint32,
    niceValue: int32,
    optionBits: nat,
    unsavedFiles: UnsavedFiles,
    dataDir: Path,
    debugLocations: seq<string>,
    visitedFiles: map<FileId, Path>)

  function AdjustAll(sources: seq<Source>, opts: ServerOptions, coll: Collaborators): (r: seq<Source>)
    ensures |r| == |sources|
    ensures forall i :: 0 <= i < |sources| ==> r[i] == AdjustSource(sources[i], opts, coll)
  {
    if |sources| == 0 then []
    else [AdjustSource(sources[0], opts, coll)] + AdjustAll(sources[1..], opts, coll)
  }

  /** `encode` asserts the source path is non-empty while writing each
      variant. */
  predicate EncodeDefined(job: Job)
  {
    |job.sources| > 0 ==> job.sourceFile != ""
  }

  /** The fields `encode` writes. `visitedFiles` is the visited-files map of
      the job's project, which must resolve. */
  function MakePayload(job: Job, opts: ServerOptions, coll: Collaborators, version: uint16,
                       visitedFiles: map<FileId, Path>): (p: Payload)
    requires EncodeDefined(job)
    ensures |p.variants| == |job.sources|
    ensures |job.sources| < 0x1_0000_0000 ==> p.variantCount == |job.sources|
    ensures forall i :: 0 <= i < |job.sources| ==> p.variants[i] == AdjustSource(job.sources[i], opts, coll)
    ensures p.id == job.id && p.project == job.project && p.sourceFile == job.sourceFile
  {
    Payload(
      version, opts.sandboxRoot, job.id, opts.socketFile, job.project,
      ToUint32(|job.sources|), AdjustAll(job.sources, opts, coll),
      job.sourceFile, job.flags,
      ToUint32(opts.rpVisitFileTimeout), ToUint32(opts.rpIndexDataMessageTimeout),
      ToUint32(opts.rpConnectTimeout), ToUint32(opts.rpConnectAttempts),
      ToInt32(opts.rpNiceValue), opts.optionBits, job.unsavedFiles, opts.dataDir,
      opts.debugLocations, visitedFiles)
  }

  /** A `uint32_t` in host (little-endian) byte order, as `memcpy` stores it. */
  function LittleEndian32(x: uint32): (b: seq<byte>)
    ensures |b| == 4
  {
    [x % 0x100, (x / 0x100) % 0x100, (x / 0x1_0000) % 0x100, x / 0x100_0000]
  }

  function ReadLittleEndian32(b: seq<byte>): uint32
    requires |b| == 4
  {
    var b0: int, b1: int, b2: int, b3: int := b[0], b[1], b[2], b[3];
    b0 + 0x100 * b1 + 0x1_0000 * b2 + 0x100_0000 * b3
  }

  lemma LittleEndian32RoundTrip(x: uint32)
    ensures ReadLittleEndian32(LittleEndian32(x)) == x
  {
    var q1 := x / 0x100;
    var q2 := q1 / 0x100;
    var q3 := q2 / 0x100;
    assert x == x % 0x100 + 0x100 * q1;
    assert q1 == q1 % 0x100 + 0x100 * q2;
    assert q2 == q2 % 0x100 + 0x100 * q3;
    assert x / 0x1_0000 == q2;
    assert x / 0x100_0000 == q3;
  }

  lemma ReadLittleEndian32RoundTrip(b: seq<byte>)
    requires |b| == 4
    ensures LittleEndian32(ReadLittleEndian32(b)) == b
  {
    var b0: int, b1: int, b2: int, b3: int := b[0], b[1], b[2], b[3];
    var x: int := ReadLittleEndian32(b);
    var q2 := b2 + 0x100 * b3;
    var q1 := b1 + 0x100 * q2;
    assert x == b0 + 0x100 * q1;
    assert x % 0x100 == b0 && x / 0x100 == q1;
    assert q1 % 0x100 == b1 && q1 / 0x100 == q2;
    assert q2 % 0x100 == b2 && q2 / 0x100 == b3;
    assert x / 0x1_0000 == q2 by {
      assert x == (b0 + 0x100 * b1) + 0x1_0000 * q2;
    }
    assert x / 0x100_0000 == b3 by {
      assert x == (b0 + 0x100 * b1 + 0x1_0000 * b2) + 0x100_0000 * b3;
    }
  }

  /** Prefixes a payload body with its length, as `encode` overwrites its
      4-byte placeholder with `size() - sizeof(int)`. */
  function Frame(body: seq<byte>): (bytes: seq<byte>)
    ensures |bytes| == |body| + 4
    ensures bytes[4..] == body
    ensures ReadLittleEndian32(bytes[..4]) == ToUint32(|bytes| - 4)
  {
    var prefix := LittleEndian32(ToUint32(|body|));
    LittleEndian32RoundTrip(ToUint32(|body|));
    assert (prefix + body)[..4] == prefix;
    prefix + body
  }

  /** `encode()`: the serialized payload, behind its size prefix.
      `serialize` stands for the serializer's byte layout. */
  function Encode(job: Job, opts: ServerOptions, coll: Collaborators, version: uint16,
                  visitedFiles: map<FileId, Path>, serialize: Payload -> seq<byte>): (bytes: seq<byte>)
    requires EncodeDefined(job)
    ensures |bytes| >= 4
    ensures ReadLittleEndian32(bytes[..4]) == ToUint32(|bytes| - 4)
    ensures bytes[4..] == serialize(MakePayload(job, opts, coll, version, visitedFiles))
  {
    Frame(serialize(MakePayload(job, opts, coll, version, visitedFiles)))
  }

  /** A reader that takes the first four bytes as a length recovers exactly
      the body, for every payload shorter than 4 GiB. */
  lemma SizePrefixDelimitsBody(body: seq<byte>)
    requires |body| < 0x1_0000_0000
    ensures var bytes := Frame(body);
      && ReadLittleEndian32(bytes[..4]) == |body|
      && bytes[4..4 + ReadLittleEndian32(bytes[..4])] == body
  {
  }
}
