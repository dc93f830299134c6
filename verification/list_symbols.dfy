/** The symbol-listing query: query normalisation, the choice between the
    path-filtered and the project-wide listing, the two insertion rules, and
    how the collected names are written out. */
module ListSymbols {
  import opened Support
  import opened StringOrder
  import Project

  type Location = Project.Location
  type Symbol = Project.Symbol

  // ---------------------------------------------------------------------
  // Query normalisation

  predicate HasWildcard(q: string)
  {
    '*' in q || '?' in q
  }

  predicate EndsWithStar(q: string)
  {
    |q| > 0 && q[|q| - 1] == '*'
  }

  /** In wildcard mode a pattern that holds `*` or `?` is made open-ended by
      a trailing `*`; every other query is kept as it is. */
  function NormalizeQuery(q: string, wildcardSymbolNames: bool): (r: string)
    ensures r == q || r == q + "*"
    ensures !wildcardSymbolNames || !HasWildcard(q) ==> r == q
    ensures wildcardSymbolNames && HasWildcard(q) ==> EndsWithStar(r)
    ensures EndsWithStar(q) ==> r == q
    ensures HasWildcard(r) <==> HasWildcard(q)
  {
    if wildcardSymbolNames && HasWildcard(q) && !EndsWithStar(q) then q + "*" else q
  }

  /** Normalising twice is normalising once. */
  lemma NormalizeQueryIdempotent(q: string, wildcardSymbolNames: bool)
    ensures NormalizeQuery(NormalizeQuery(q, wildcardSymbolNames), wildcardSymbolNames)
         == NormalizeQuery(q, wildcardSymbolNames)
  {
  }

  /** The `*` is appended exactly to wildcard patterns that lack it. */
  lemma NormalizeQueryAppendsIff(q: string, wildcardSymbolNames: bool)
    ensures NormalizeQuery(q, wildcardSymbolNames) != q
        <==> wildcardSymbolNames && HasWildcard(q) && !EndsWithStar(q)
  {
    if NormalizeQuery(q, wildcardSymbolNames) != q {
      assert |NormalizeQuery(q, wildcardSymbolNames)| == |q| + 1;
    }
  }

  // ---------------------------------------------------------------------
  // Path filters

  datatype FilterMode = Self | Dependency

  datatype PathFilter = PathFilter(pattern: Path, mode: FilterMode)

  /** Every filter restricts the query to one existing file by name. */
  predicate UsesPathFilter(filters: seq<PathFilter>, isFile: Path -> bool)
  {
    |filters| > 0 && forall i :: 0 <= i < |filters| ==> filters[i].mode == Self && isFile(filters[i].pattern)
  }

  /** The path list the query hands to the path-filtered listing: the filter
      patterns in order when every filter is a Self filter naming an existing
      file, and empty (so the project-wide listing runs) otherwise. */
  method SelectPaths(filters: seq<PathFilter>, isFile: Path -> bool) returns (paths: seq<Path>)
    ensures paths != [] <==> UsesPathFilter(filters, isFile)
    ensures paths != [] ==> |paths| == |filters| && forall i :: 0 <= i < |filters| ==> paths[i] == filters[i].pattern
  {
    paths := [];
    var i := 0;
    while i < |filters|
      invariant 0 <= i <= |filters|
      invariant |paths| == i
      invariant forall k :: 0 <= k < i ==> paths[k] == filters[k].pattern
      invariant forall k :: 0 <= k < i ==> filters[k].mode == Self && isFile(filters[k].pattern)
    {
      if filters[i].mode == Self {
        paths := paths + [filters[i].pattern];
        if !isFile(paths[|paths| - 1]) {
          paths := [];
          break;
        }
      } else {
        paths := [];
        break;
      }
      i := i + 1;
    }
  }

  // ---------------------------------------------------------------------
  // Insertion rules

  /** The name up to its first `(`. */
  function BeforeParen(name: string): (r: string)
    requires '(' in name
    ensures '(' !in r
    ensures |r| < |name| && r + name[|r|..] == name && name[|r|] == '('
  {
    var p := IndexOf(name, '(');
    assert name[..p] + name[p..] == name;
    name[..p]
  }

  /** What the path-filtered listing inserts for an accepted name. */
  function PathFilteredInserts(name: string, strip: bool, functionVariable: bool): (r: set<string>)
    ensures |r| <= 1
    ensures !strip || '(' !in name ==> r == {name}
    ensures strip && '(' in name ==> (r == {} <==> functionVariable)
    ensures strip && '(' in name && !functionVariable ==> r == {BeforeParen(name)}
    ensures strip ==> forall x :: x in r ==> '(' !in x
  {
    if strip && '(' in name then
      (if functionVariable then {} else {BeforeParen(name)})
    else {name}
  }

  /** What the project-wide listing inserts for an accepted name. */
  function ProjectWideInserts(name: string, strip: bool, functionVariable: bool): (r: set<string>)
    ensures '(' !in name ==> r == {name}
    ensures name in r <==> '(' !in name || !strip
    ensures '(' in name ==> (BeforeParen(name) in r <==> !functionVariable)
    ensures forall x :: x in r ==> x == name || ('(' in name && x == BeforeParen(name))
    ensures strip ==> forall x :: x in r ==> '(' !in x
  {
    if '(' !in name then {name}
    else
      (if functionVariable then {} else {BeforeParen(name)})
      + (if strip then {} else {name})
  }

  /** The two rules compared: the path-filtered rule never inserts more, and
      the two insert the same exactly unless parentheses are kept and the name
      is a parenthesised non-function-variable, whose bare prefix only the
      project-wide rule adds. In particular a function variable under strip
      mode contributes nothing under either rule. */
  lemma InsertRulesCompared(name: string, strip: bool, functionVariable: bool)
    ensures PathFilteredInserts(name, strip, functionVariable) <= ProjectWideInserts(name, strip, functionVariable)
    ensures PathFilteredInserts(name, strip, functionVariable) == ProjectWideInserts(name, strip, functionVariable)
        <==> strip || '(' !in name || functionVariable
  {
    if !strip && '(' in name && !functionVariable {
      var b := BeforeParen(name);
      assert b != name;
      assert b !in PathFilteredInserts(name, strip, functionVariable);
    }
  }

  /** The bare prefix of `foo(int)` is `foo`. */
  lemma FooPrefix()
    ensures '(' in "foo(int)" && BeforeParen("foo(int)") == "foo"
    ensures '(' !in "foo" && "foo" != "foo(int)"
  {
    var name := "foo(int)";
    assert name[3] == '(';
    assert name[..3] == "foo";
    IndexOfAt(name, '(', 3);
    assert |"foo"| != |name|;
  }

  /** `foo(int)` under the path-filtered rule: kept whole unless stripping,
      cut to `foo` under strip, dropped under strip when a function variable. */
  lemma PathFilteredFooExample()
    ensures PathFilteredInserts("foo(int)", false, false) == {"foo(int)"}
    ensures PathFilteredInserts("foo(int)", true, false) == {"foo"}
    ensures PathFilteredInserts("foo(int)", true, true) == {}
  {
    assert PathFilteredInserts("foo(int)", false, false) == {"foo(int)"} by { FooPrefix(); }
    assert PathFilteredInserts("foo(int)", true, false) == {"foo"} by { FooPrefix(); }
    assert PathFilteredInserts("foo(int)", true, true) == {} by { FooPrefix(); }
  }

  /** `foo(int)` under the project-wide rule: both spellings when parentheses
      are kept, `foo` alone under strip, the whole name alone for a function
      variable. */
  lemma ProjectWideFooExample()
    ensures ProjectWideInserts("foo(int)", false, false) == {"foo", "foo(int)"}
    ensures ProjectWideInserts("foo(int)", true, false) == {"foo"}
    ensures ProjectWideInserts("foo(int)", false, true) == {"foo(int)"}
  {
    assert ProjectWideInserts("foo(int)", true, false) == {"foo"} by { FooPrefix(); }
    assert ProjectWideInserts("foo(int)", false, true) == {"foo(int)"} by { FooPrefix(); }
    assert ProjectWideInserts("foo(int)", false, false) == {"foo", "foo(int)"} by { FooPrefix(); }
  }

  // ---------------------------------------------------------------------
  // The query environment

  /** One `findSymbols` callback: a matching name and its locations in
      ascending order, the first being `locations.begin()`. */
  datatype SymbolMatch = SymbolMatch(name: string, locations: seq<Location>)

  /** The query flags this listing consults. */
  datatype QueryFlags = QueryFlags(
    elisp: bool,
    wildcardSymbolNames: bool,
    stripParentheses: bool,
    matchCaseInsensitive: bool,
    reverseSort: bool)

  /** Everything the listing asks of the project, the file system and the
      query job, none of which is defined here: `Location::fileId` of a path,
      `Path::isFile`, the location-to-path mapping, the job's `filter` and
      `filterKind` together with whether either is set, `matchSymbolName`,
      case-insensitive `contains`, `isFunctionVariable`, `findSymbols` (the
      callbacks it makes, in order) and `findSymbol`. */
  datatype QueryEnv = QueryEnv(
    store: Project.Store,
    fileIdOf: Path -> FileId,
    isFile: Path -> bool,
    pathOf: FileId -> Path,
    hasFilter: bool,
    filter: Path -> bool,
    hasKindFilter: bool,
    filterKind: Symbol -> bool,
    matchSymbolName: (string, string, bool) -> bool,
    containsCaseInsensitive: (string, string) -> bool,
    isFunctionVariable: string -> bool,
    findSymbols: (string, QueryFlags) -> seq<SymbolMatch>,
    findSymbol: Location -> Symbol)

  /** `needle` occurs in `haystack` as a contiguous run. */
  predicate IsSubstring(needle: string, haystack: string)
  {
    exists i :: 0 <= i <= |haystack| && needle <= haystack[i..]
  }

  /** `String::contains` under the chosen case sensitivity. */
  predicate ContainsText(env: QueryEnv, haystack: string, needle: string, caseInsensitive: bool)
  {
    if caseInsensitive then env.containsCaseInsensitive(haystack, needle) else IsSubstring(needle, haystack)
  }

  /** Whether the wildcard matcher is used: wildcard mode and a wildcard in
      the (already normalised) query. */
  predicate UseWildcard(q: string, flags: QueryFlags)
  {
    flags.wildcardSymbolNames && HasWildcard(q)
  }

  /** A symbol of a listed file that the path-filtered listing accepts. */
  function SymbolAccepted(env: QueryEnv, q: string, flags: QueryFlags, symbol: Symbol): (r: bool)
    ensures r ==> env.filterKind(symbol) && symbol.symbolName != ""
    ensures env.filterKind(symbol) && symbol.symbolName != "" && q == "" ==> r
    ensures q != "" && !flags.wildcardSymbolNames && !flags.matchCaseInsensitive ==>
      (r <==> env.filterKind(symbol) && symbol.symbolName != "" && IsSubstring(q, symbol.symbolName))
    ensures q != "" && UseWildcard(q, flags) ==>
      (r <==> env.filterKind(symbol) && symbol.symbolName != ""
              && env.matchSymbolName(q, symbol.symbolName, flags.matchCaseInsensitive))
    ensures q != "" && !UseWildcard(q, flags) && flags.matchCaseInsensitive ==>
      (r <==> env.filterKind(symbol) && symbol.symbolName != ""
              && env.containsCaseInsensitive(symbol.symbolName, q))
    ensures q != "" && !UseWildcard(q, flags) && !flags.matchCaseInsensitive ==>
      (r <==> env.filterKind(symbol) && symbol.symbolName != "" && IsSubstring(q, symbol.symbolName))
  {
    env.filterKind(symbol)
    && symbol.symbolName != ""
    && (q == ""
        || (if UseWildcard(q, flags)
            then env.matchSymbolName(q, symbol.symbolName, flags.matchCaseInsensitive)
            else ContainsText(env, symbol.symbolName, q, flags.matchCaseInsensitive)))
  }

  /** The names one symbol contributes to the path-filtered result. */
  function SymbolInserts(env: QueryEnv, q: string, flags: QueryFlags, symbol: Symbol): set<string>
  {
    if SymbolAccepted(env, q, flags, symbol)
    then PathFilteredInserts(symbol.symbolName, flags.stripParentheses, env.isFunctionVariable(symbol.symbolName))
    else {}
  }

  /** The symbols map of a listed file, when the file has an id and a map. */
  function FileSymbols(env: QueryEnv, path: Path): Option<Project.FileMap<Location, Symbol>>
  {
    var id := env.fileIdOf(path);
    if id == 0 then None else Project.OpenSymbols(env.store, id)
  }

  // ---------------------------------------------------------------------
  // The path-filtered listing

  /** `x` is inserted by some accepted symbol of the file's symbols map. */
  ghost predicate FileContributes(env: QueryEnv, q: string, flags: QueryFlags, path: Path, x: string)
  {
    var m := FileSymbols(env, path);
    m.Some? && exists j :: 0 <= j < |m.value| && x in SymbolInserts(env, q, flags, m.value[j].1)
  }

  /** Reference reading of the path-filtered listing: `x` is listed when some
      listed path has a non-zero file id and a symbols map, and some symbol of
      that map is accepted and inserts `x`. */
  ghost predicate PathFilteredContributes(env: QueryEnv, q: string, flags: QueryFlags, paths: seq<Path>, x: string)
  {
    exists i :: 0 <= i < |paths| && FileContributes(env, q, flags, paths[i], x)
  }

  /** The names the symbols of one map contribute. */
  function EntriesInserts(env: QueryEnv, q: string, flags: QueryFlags, entries: Project.FileMap<Location, Symbol>): (r: set<string>)
    ensures forall x :: x in r <==> exists j :: 0 <= j < |entries| && x in SymbolInserts(env, q, flags, entries[j].1)
    decreases |entries|
  {
    if |entries| == 0 then {}
    else
      var init := entries[..|entries| - 1];
      var r := EntriesInserts(env, q, flags, init) + SymbolInserts(env, q, flags, entries[|entries| - 1].1);
      assert forall j :: 0 <= j < |init| ==> init[j] == entries[j];
      r
  }

  /** The names one listed file contributes. */
  function FileInserts(env: QueryEnv, q: string, flags: QueryFlags, path: Path): (r: set<string>)
    ensures forall x :: x in r <==> FileContributes(env, q, flags, path, x)
  {
    var m := FileSymbols(env, path);
    if m.Some? then EntriesInserts(env, q, flags, m.value) else {}
  }

  /** One more listed path adds exactly what its file contributes. */
  lemma PathFilteredSnoc(env: QueryEnv, q: string, flags: QueryFlags, paths: seq<Path>)
    requires |paths| > 0
    ensures forall x :: (PathFilteredContributes(env, q, flags, paths, x)
                         <==> PathFilteredContributes(env, q, flags, paths[..|paths| - 1], x)
                              || FileContributes(env, q, flags, paths[|paths| - 1], x))
  {
    var init := paths[..|paths| - 1];
    assert forall i :: 0 <= i < |init| ==> init[i] == paths[i];
  }

  /** `listSymbolsWithPathFilter`. */
  function ListWithPathFilter(env: QueryEnv, q: string, flags: QueryFlags, paths: seq<Path>): (out: set<string>)
    ensures forall x :: x in out <==> PathFilteredContributes(env, q, flags, paths, x)
    decreases |paths|
  {
    if |paths| == 0 then {}
    else
      PathFilteredSnoc(env, q, flags, paths);
      ListWithPathFilter(env, q, flags, paths[..|paths| - 1]) + FileInserts(env, q, flags, paths[|paths| - 1])
  }

  /** Every listed name comes from one entry of one listed file: the file has
      a non-zero id and a symbols map, the entry's symbol is accepted, and the
      name is that symbol's name or, under strip, its part before `(`. */
  lemma PathFilteredOrigin(env: QueryEnv, q: string, flags: QueryFlags, paths: seq<Path>, x: string)
    ensures x in ListWithPathFilter(env, q, flags, paths) ==>
      exists i, j :: 0 <= i < |paths| && EntryInserts(env, q, flags, paths[i], j, x)
    ensures x in ListWithPathFilter(env, q, flags, paths) && flags.stripParentheses ==> '(' !in x
  {
    if x in ListWithPathFilter(env, q, flags, paths) {
      var i :| 0 <= i < |paths| && FileContributes(env, q, flags, paths[i], x);
      var m := FileSymbols(env, paths[i]).value;
      var j :| 0 <= j < |m| && x in SymbolInserts(env, q, flags, m[j].1);
      assert EntryInserts(env, q, flags, paths[i], j, x);
    }
  }

  /** Entry `j` of the symbols map of the file at `path` inserts `x`: the file
      has a non-zero id and a map with that entry, its symbol is accepted, and
      `x` is the symbol's name or, under strip, the part before its `(`. */
  ghost predicate EntryInserts(env: QueryEnv, q: string, flags: QueryFlags, path: Path, j: int, x: string)
  {
    var m := FileSymbols(env, path);
    && env.fileIdOf(path) != 0
    && m.Some? && 0 <= j < |m.value|
    && var name := m.value[j].1.symbolName;
    && SymbolAccepted(env, q, flags, m.value[j].1)
    && x in PathFilteredInserts(name, flags.stripParentheses, env.isFunctionVariable(name))
    && (x == name || (flags.stripParentheses && '(' in name && x == BeforeParen(name)))
  }

  // ---------------------------------------------------------------------
  // The project-wide listing

  /** The inserter's gate: some location passes the path filter, if there is
      one, and the symbol at the first location passes the kind filter, if
      there is one. A callback without locations fails the kind filter. */
  function MatchAccepted(env: QueryEnv, m: SymbolMatch): (r: bool)
    ensures !env.hasFilter && !env.hasKindFilter ==> r
    ensures r && env.hasKindFilter ==> |m.locations| > 0 && env.filterKind(env.findSymbol(m.locations[0]))
    ensures env.hasFilter && (forall k :: 0 <= k < |m.locations| ==> !env.filter(env.pathOf(m.locations[k].fileId))) ==> !r
    ensures (!env.hasFilter || exists k :: 0 <= k < |m.locations| && env.filter(env.pathOf(m.locations[k].fileId)))
            && (!env.hasKindFilter || (|m.locations| > 0 && env.filterKind(env.findSymbol(m.locations[0]))))
            ==> r
  {
    (!env.hasFilter || exists k :: 0 <= k < |m.locations| && env.filter(env.pathOf(m.locations[k].fileId)))
    && (!env.hasKindFilter || (|m.locations| > 0 && env.filterKind(env.findSymbol(m.locations[0]))))
  }

  /** The names the inserter adds for one callback. */
  function MatchInserts(env: QueryEnv, strip: bool, m: SymbolMatch): (r: set<string>)
    ensures forall x :: x in r <==> MatchContributes(env, strip, m, x)
    ensures !MatchAccepted(env, m) ==> r == {}
  {
    if MatchAccepted(env, m) then ProjectWideInserts(m.name, strip, env.isFunctionVariable(m.name)) else {}
  }

  /** The callback `m` passes the inserter's gate and inserts `x`. */
  ghost predicate MatchContributes(env: QueryEnv, strip: bool, m: SymbolMatch, x: string)
  {
    MatchAccepted(env, m) && x in ProjectWideInserts(m.name, strip, env.isFunctionVariable(m.name))
  }

  /** Reference reading of the project-wide listing: some callback passes
      the inserter's gate and inserts `x`. */
  ghost predicate ProjectWideContributes(env: QueryEnv, strip: bool, matches: seq<SymbolMatch>, x: string)
  {
    exists i :: 0 <= i < |matches| && MatchContributes(env, strip, matches[i], x)
  }

  /** One more callback adds exactly what the inserter adds for it, for one
      name `x`. */
  lemma ProjectWideSnocAt(env: QueryEnv, strip: bool, matches: seq<SymbolMatch>, x: string)
    requires |matches| > 0
    ensures ProjectWideContributes(env, strip, matches, x)
            <==> ProjectWideContributes(env, strip, matches[..|matches| - 1], x)
                 || MatchContributes(env, strip, matches[|matches| - 1], x)
  {
    SomeSatisfiesSnoc(matches, matches[..|matches| - 1], m => MatchContributes(env, strip, m, x));
  }

  /** One more callback adds exactly what the inserter adds for it. */
  lemma ProjectWideSnoc(env: QueryEnv, strip: bool, matches: seq<SymbolMatch>)
    requires |matches| > 0
    ensures forall x :: (ProjectWideContributes(env, strip, matches, x)
                         <==> ProjectWideContributes(env, strip, matches[..|matches| - 1], x)
                              || MatchContributes(env, strip, matches[|matches| - 1], x))
  {
    forall x
      ensures ProjectWideContributes(env, strip, matches, x)
              <==> ProjectWideContributes(env, strip, matches[..|matches| - 1], x)
                   || MatchContributes(env, strip, matches[|matches| - 1], x)
    {
      ProjectWideSnocAt(env, strip, matches, x);
    }
  }

  /** `listSymbols`: the inserter applied to every callback. */
  function ListProjectWide(env: QueryEnv, strip: bool, matches: seq<SymbolMatch>): (out: set<string>)
    ensures forall x :: x in out <==> ProjectWideContributes(env, strip, matches, x)
    decreases |matches|
  {
    if |matches| == 0 then {}
    else
      ProjectWideSnoc(env, strip, matches);
      ListProjectWide(env, strip, matches[..|matches| - 1]) + MatchInserts(env, strip, matches[|matches| - 1])
  }

  /** Both spellings of a parenthesised non-function-variable name appear in
      the project-wide result when parentheses are kept and it is accepted. */
  lemma BothFormsListed(env: QueryEnv, matches: seq<SymbolMatch>, i: nat)
    requires i < |matches| && MatchAccepted(env, matches[i])
    requires '(' in matches[i].name && !env.isFunctionVariable(matches[i].name)
    ensures var out := ListProjectWide(env, false, matches);
      matches[i].name in out && BeforeParen(matches[i].name) in out
  {
    assert matches[i].name in MatchInserts(env, false, matches[i]);
    assert BeforeParen(matches[i].name) in MatchInserts(env, false, matches[i]);
  }

  // ---------------------------------------------------------------------
  // execute

  /** The lines `execute` writes for a result set, before quoting. */
  ghost predicate FormatsOutput(out: set<string>, flags: QueryFlags, lines: seq<string>)
  {
    if flags.elisp then
      |lines| >= 2 && lines[0] == "(list" && lines[|lines| - 1] == ")"
      && StrictlyAscending(lines[1..|lines| - 1])
      && (forall x :: x in lines[1..|lines| - 1] <==> x in out)
    else
      (if flags.reverseSort then StrictlyDescending(lines) else StrictlyAscending(lines))
      && (forall x :: x in lines <==> x in out)
  }

  /** The result set `execute` collects: nothing without a project, the
      path-filtered listing when every filter names an existing file, and the
      project-wide listing otherwise, both over the normalised query. */
  method CollectSymbols(env: QueryEnv, hasProject: bool, query: string, flags: QueryFlags, filters: seq<PathFilter>)
    returns (out: set<string>)
    ensures !hasProject ==> out == {}
    ensures hasProject && UsesPathFilter(filters, env.isFile) ==>
      forall x :: x in out <==> PathFilteredContributes(env, NormalizeQuery(query, flags.wildcardSymbolNames), flags,
                                                       Patterns(filters), x)
    ensures hasProject && !UsesPathFilter(filters, env.isFile) ==>
      out == ListProjectWide(env, flags.stripParentheses, env.findSymbols(NormalizeQuery(query, flags.wildcardSymbolNames), flags))
  {
    out := {};
    if hasProject {
      var q := NormalizeQuery(query, flags.wildcardSymbolNames);
      var paths := SelectPaths(filters, env.isFile);
      if paths != [] {
        assert paths == Patterns(filters);
        out := ListWithPathFilter(env, q, flags, paths);
      } else {
        out := ListProjectWide(env, flags.stripParentheses, env.findSymbols(q, flags));
      }
    }
  }

  /** The patterns of the filters, in order. */
  function Patterns(filters: seq<PathFilter>): (r: seq<Path>)
    ensures |r| == |filters| && forall i :: 0 <= i < |filters| ==> r[i] == filters[i].pattern
  {
    seq(|filters|, i requires 0 <= i < |filters| => filters[i].pattern)
  }

  /** The lines written for a result set: the set between `(list` and `)`
      for Elisp, otherwise sorted, descending under reverse sort. */
  method WriteOutput(out: set<string>, flags: QueryFlags) returns (lines: seq<string>)
    ensures FormatsOutput(out, flags, lines)
    ensures |lines| == |out| + (if flags.elisp then 2 else 0)
  {
    var sorted := SortAscending(out);
    if flags.elisp {
      lines := ["(list"] + sorted + [")"];
      assert lines[1..|lines| - 1] == sorted;
    } else if flags.reverseSort {
      ReverseOfAscendingIsDescending(sorted);
      lines := Reverse(sorted);
    } else {
      lines := sorted;
    }
  }

  /** `execute`: collect, write, and return 1 exactly when nothing was found. */
  method Execute(env: QueryEnv, hasProject: bool, query: string, flags: QueryFlags, filters: seq<PathFilter>)
    returns (out: set<string>, lines: seq<string>, code: int)
    ensures code == 1 <==> out == {}
    ensures code == 0 <==> out != {}
    ensures !hasProject ==> out == {} && code == 1
    ensures hasProject && UsesPathFilter(filters, env.isFile) ==>
      forall x :: x in out <==> PathFilteredContributes(env, NormalizeQuery(query, flags.wildcardSymbolNames), flags,
                                                       Patterns(filters), x)
    ensures hasProject && !UsesPathFilter(filters, env.isFile) ==>
      out == ListProjectWide(env, flags.stripParentheses, env.findSymbols(NormalizeQuery(query, flags.wildcardSymbolNames), flags))
    ensures FormatsOutput(out, flags, lines)
  {
    out := CollectSymbols(env, hasProject, query, flags, filters);
    lines := WriteOutput(out, flags);
    code := if out == {} then 1 else 0;
  }

  /** `Reverse` undoes itself. */
  lemma ReverseInvolutive(s: seq<string>)
    ensures Reverse(Reverse(s)) == s
  {
  }

  lemma ReverseOfDescendingIsAscending(s: seq<string>)
    requires StrictlyDescending(s)
    ensures StrictlyAscending(Reverse(s))
    ensures forall x :: x in Reverse(s) <==> x in s
  {
    var r := Reverse(s);
    forall x | x in s ensures x in r {
      var i :| 0 <= i < |s| && s[i] == x;
      assert r[|s| - 1 - i] == x;
    }
  }

  /** The written lines are determined by the result set and the flags. */
  lemma {:induction false} OutputDeterminedBySet(out: set<string>, flags: QueryFlags, a: seq<string>, b: seq<string>)
    requires FormatsOutput(out, flags, a) && FormatsOutput(out, flags, b)
    ensures a == b
  {
    if flags.elisp {
      var a', b' := a[1..|a| - 1], b[1..|b| - 1];
      assert forall x :: x in a' <==> x in out;
      assert forall x :: x in b' <==> x in out;
      AscendingEnumerationUnique(a', b');
      assert a == [a[0]] + a[1..|a| - 1] + [a[|a| - 1]];
      assert b == [b[0]] + b[1..|b| - 1] + [b[|b| - 1]];
    } else if flags.reverseSort {
      ReverseOfDescendingIsAscending(a);
      ReverseOfDescendingIsAscending(b);
      AscendingEnumerationUnique(Reverse(a), Reverse(b));
      ReverseInvolutive(a);
      ReverseInvolutive(b);
    } else {
      AscendingEnumerationUnique(a, b);
    }
  }

  /** The sort is character-wise and case-sensitive: reversed, `baz` comes first
      and the upper-case `Bar` last. */
  lemma ReverseSortExample(lines: seq<string>)
    requires FormatsOutput({"bar", "Bar", "baz"}, QueryFlags(false, false, false, false, true), lines)
    ensures lines == ["baz", "bar", "Bar"]
  {
    var expected := ["baz", "bar", "Bar"];
    var flags := QueryFlags(false, false, false, false, true);
    assert StrLess("bar", "baz") by {
      assert "bar"[0] == "baz"[0] && "bar"[1..] == "ar" && "baz"[1..] == "az";
      assert "ar"[1..] == "r" && "az"[1..] == "z";
    }
    assert StrLess("Bar", "bar");
    assert StrLess("Bar", "baz");
    assert StrictlyDescending(expected);
    assert forall x :: x in expected <==> x in {"bar", "Bar", "baz"};
    assert FormatsOutput({"bar", "Bar", "baz"}, flags, expected);
    OutputDeterminedBySet({"bar", "Bar", "baz"}, flags, lines, expected);
  }
}
