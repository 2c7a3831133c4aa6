/** The aggregation of the older DotnetSolutionDependenciesAnalyzer. It shares
    the traversal of SymbolAnalysis and the graph helpers of StaticAnalyzer, but
    gives an upstream entry only to the files that have results, gives a
    downstream entry only to the files something depends on, and returns both
    graphs unfiltered. */
module LegacyAnalyzer {
  import opened Wrappers
  import opened Text
  import opened IgnoreCase
  import opened FileSystem
  import opened DependenciesGraphs
  import opened Symbols
  import opened SymbolAnalysis
  import opened StaticAnalyzer

  /** The older `DependenciesGraph`: the two builder graphs as they are. */
  datatype LegacyGraph = LegacyGraph(upstream: Graph, downstream: Graph)

  /** The folded names of the files the results are about. */
  function ResultFiles(results: seq<AnalyzeResult>): (r: set<string>)
    ensures r <= ResultKeys(results)
  {
    if results == [] then {}
    else ResultFiles(results[..|results| - 1]) + {Fold(results[|results| - 1].fullPath)}
  }

  /** The upstream graph of the older analyzer: an entry for every file with a
      result, holding the union of those results' dependencies, and no entry
      for a file that is only depended on. */
  predicate IsLegacyUpstream(g: Graph, results: seq<AnalyzeResult>)
  {
    WellKeyed(g)
    && g.Keys == ResultFiles(results)
    && (forall f | f in g :: g[f].value.Keys == UpstreamOf(results, f))
    && SpelledFrom(g, ResultSpellings(results))
  }

  /** The upstream loop of AnalyzeSolutionAsync. */
  method CreateLegacyUpstream(results: seq<AnalyzeResult>) returns (upstream: Graph)
    requires KeyedResults(results)
    ensures IsLegacyUpstream(upstream, results)
  {
    upstream := map[];
    for i := 0 to |results|
      invariant IsLegacyUpstream(upstream, results[..i])
    {
      var g := AddLegacyResult(upstream, results[i], ResultSpellings(results[..i]));
      LegacyUpstreamStep(upstream, g, results, i);
      upstream := g;
    }
    assert results[..|results|] == results;
  }

  /** The entries of AddLegacyResult's loop once the dependencies in `done` are in. */
  ghost predicate LegacyEntries(graph: Graph, g: Graph, file: string, done: set<string>)
  {
    g.Keys == graph.Keys + {file}
    && forall f, k {:trigger k in g[f].value} | f in g :: k in g[f].value <==> (f in graph && k in graph[f].value) || (f == file && k in done)
  }

  /** The state of AddLegacyResult's loop once the dependencies in `done` are in. */
  ghost predicate AddingLegacyResult(graph: Graph, g: Graph, x: AnalyzeResult, done: set<string>, spellings: set<string>)
  {
    LegacyEntries(graph, g, Fold(x.fullPath), done)
    && WellKeyed(g)
    && SpelledFrom(g, spellings + {x.fullPath} + x.dependsFullPaths.Values)
  }

  /** One result into the older upstream graph: its file gets an entry that
      every dependency joins; the dependencies get no entry of their own. */
  method AddLegacyResult(graph: Graph, x: AnalyzeResult, ghost spellings: set<string>) returns (g: Graph)
    requires WellKeyed(graph) && Keyed(x.dependsFullPaths) && SpelledFrom(graph, spellings)
    ensures AddingLegacyResult(graph, g, x, x.dependsFullPaths.Keys, spellings)
  {
    var file := x.fullPath;
    g := EnsureEntry(graph, file);
    AddingLegacyStart(graph, x, spellings);
    var remaining := x.dependsFullPaths.Keys;
    while remaining != {}
      invariant remaining <= x.dependsFullPaths.Keys
      invariant AddingLegacyResult(graph, g, x, x.dependsFullPaths.Keys - remaining, spellings)
      decreases remaining
    {
      var k :| k in remaining;
      var dependency := x.dependsFullPaths[k];
      AddingLegacyStep(graph, g, x, x.dependsFullPaths.Keys - remaining, spellings, k);
      RemoveOne(x.dependsFullPaths.Keys, remaining, k);
      g := AddTo(g, Fold(file), dependency);
      remaining := remaining - {k};
    }
    assert x.dependsFullPaths.Keys - remaining == x.dependsFullPaths.Keys;
  }

  lemma AddingLegacyStart(graph: Graph, x: AnalyzeResult, spellings: set<string>)
    requires WellKeyed(graph) && SpelledFrom(graph, spellings)
    ensures AddingLegacyResult(graph, EnsureEntry(graph, x.fullPath), x, {}, spellings)
  {
    var all := spellings + {x.fullPath} + x.dependsFullPaths.Values;
    assert SpelledFrom(graph, all);
    EnsureEntryKeeps(graph, x.fullPath, all);
  }

  lemma AddingLegacyStep(graph: Graph, g: Graph, x: AnalyzeResult, done: set<string>, spellings: set<string>, k: string)
    requires AddingLegacyResult(graph, g, x, done, spellings)
    requires Keyed(x.dependsFullPaths) && k in x.dependsFullPaths && k !in done
    ensures AddingLegacyResult(graph, AddTo(g, Fold(x.fullPath), x.dependsFullPaths[k]), x, done + {k}, spellings)
  {
    var all := spellings + {x.fullPath} + x.dependsFullPaths.Values;
    var s := x.dependsFullPaths[k];
    assert s in all;
    AddToKeeps(g, Fold(x.fullPath), s, all);
    LegacyEntriesStep(graph, g, Fold(x.fullPath), done, k, s);
  }

  lemma LegacyEntriesStep(graph: Graph, g: Graph, file: string, done: set<string>, k: string, s: string)
    requires LegacyEntries(graph, g, file, done) && Fold(s) == k
    ensures LegacyEntries(graph, AddTo(g, file, s), file, done + {k})
  {
  }

  lemma LegacyUpstreamStep(upstream: Graph, g: Graph, results: seq<AnalyzeResult>, i: nat)
    requires i < |results|
    requires IsLegacyUpstream(upstream, results[..i])
    requires AddingLegacyResult(upstream, g, results[i], results[i].dependsFullPaths.Keys, ResultSpellings(results[..i]))
    ensures IsLegacyUpstream(g, results[..i + 1])
  {
    ResultFilesStep(results, i);
    UpstreamSpellingsStep(results, i);
    forall f | f in g
      ensures g[f].value.Keys == UpstreamOf(results[..i + 1], f)
    {
      LegacyValueStep(upstream, g, results, i, f);
    }
  }

  lemma ResultFilesStep(results: seq<AnalyzeResult>, i: nat)
    requires i < |results|
    ensures ResultFiles(results[..i + 1]) == ResultFiles(results[..i]) + {Fold(results[i].fullPath)}
  {
    assert results[..i + 1][..i] == results[..i];
  }

  lemma LegacyValueStep(upstream: Graph, g: Graph, results: seq<AnalyzeResult>, i: nat, f: string)
    requires i < |results|
    requires IsLegacyUpstream(upstream, results[..i])
    requires LegacyEntries(upstream, g, Fold(results[i].fullPath), results[i].dependsFullPaths.Keys)
    requires f in g
    ensures g[f].value.Keys == UpstreamOf(results[..i + 1], f)
  {
    LegacyEntryUnion(upstream, g, Fold(results[i].fullPath), results[i].dependsFullPaths.Keys, f);
    UpstreamOfLast(results, i, f);
    if f !in upstream {
      UpstreamOfResultFiles(results[..i], f);
    }
  }

  lemma LegacyEntryUnion(graph: Graph, g: Graph, file: string, done: set<string>, f: string)
    requires LegacyEntries(graph, g, file, done) && f in g
    ensures g[f].value.Keys == (if f in graph then graph[f].value.Keys else {}) + (if f == file then done else {})
  {
    forall k
      ensures k in g[f].value.Keys <==> k in (if f in graph then graph[f].value.Keys else {}) + (if f == file then done else {})
    {
    }
  }

  /** `down` is the older downstream graph of `up`: `b` is in `down[a]` exactly
      when `a` is in `up[b]`, and only a file that something depends on has an
      entry. */
  predicate IsLegacyTranspose(down: Graph, up: Graph)
  {
    Reverses(up, down) && Reverses(down, up)
    && forall a | a in down :: down[a].value != map[]
  }

  /** The downstream graph once the upstream entries in `done` are in. */
  predicate LegacyDownstreamSoFar(down: Graph, up: Graph, done: set<string>, spellings: set<string>)
  {
    WellKeyed(down)
    && EdgesReversed(up, down, done)
    && EdgesFrom(down, up, done)
    && (forall a | a in down :: down[a].value != map[])
    && SpelledFrom(down, spellings)
  }

  /** The downstream loop of AnalyzeSolutionAsync. */
  method CreateLegacyDownstream(upstream: Graph, ghost spellings: set<string>) returns (downstream: Graph)
    requires WellKeyed(upstream) && SpelledFrom(upstream, spellings)
    ensures WellKeyed(downstream) && SpelledFrom(downstream, spellings)
    ensures IsLegacyTranspose(downstream, upstream)
  {
    downstream := map[];
    var remaining := upstream.Keys;
    while remaining != {}
      invariant remaining <= upstream.Keys
      invariant LegacyDownstreamSoFar(downstream, upstream, upstream.Keys - remaining, spellings)
      decreases remaining
    {
      var d :| d in remaining;
      ghost var done := upstream.Keys - remaining;
      var g := AddLegacyDependents(downstream, upstream, d, spellings);
      LegacyDownstreamStep(downstream, g, upstream, done, d, spellings);
      RemoveOne(upstream.Keys, remaining, d);
      downstream := g;
      remaining := remaining - {d};
    }
    assert upstream.Keys - remaining == upstream.Keys;
    LegacyDownstreamDone(downstream, upstream, spellings);
  }

  lemma LegacyDownstreamDone(down: Graph, up: Graph, spellings: set<string>)
    requires LegacyDownstreamSoFar(down, up, up.Keys, spellings)
    ensures IsLegacyTranspose(down, up)
  {
  }

  /** One upstream entry into the older downstream graph: the entry's file
      joins the entry of every file it depends on; it gets no entry of its own. */
  method AddLegacyDependents(graph: Graph, upstream: Graph, d: string, ghost spellings: set<string>) returns (g: Graph)
    requires d in upstream
    requires WellKeyed(upstream) && WellKeyed(graph)
    requires SpelledFrom(upstream, spellings) && SpelledFrom(graph, spellings)
    ensures DependentEntries(graph, g, d, {}, upstream[d].value.Keys)
    ensures WellKeyed(g) && SpelledFrom(g, spellings)
  {
    var downstreamDependency := upstream[d].key;
    var upstreamDependencies := upstream[d].value;
    g := graph;
    var remaining := upstreamDependencies.Keys;
    while remaining != {}
      invariant remaining <= upstreamDependencies.Keys
      invariant DependentEntries(graph, g, d, {}, upstreamDependencies.Keys - remaining)
      invariant WellKeyed(g) && SpelledFrom(g, spellings)
      decreases remaining
    {
      var k :| k in remaining;
      var upstreamDependency := upstreamDependencies[k];
      DependentsStep(graph, g, upstream, d, upstreamDependencies.Keys - remaining, k, spellings);
      RemoveOne(upstreamDependencies.Keys, remaining, k);
      g := AddTo(EnsureEntry(g, upstreamDependency), k, downstreamDependency);
      remaining := remaining - {k};
    }
    assert upstreamDependencies.Keys - remaining == upstreamDependencies.Keys;
  }

  lemma LegacyDownstreamStep(down: Graph, g: Graph, up: Graph, done: set<string>, d: string, spellings: set<string>)
    requires d in up && d !in done
    requires LegacyDownstreamSoFar(down, up, done, spellings)
    requires DependentEntries(down, g, d, {}, up[d].value.Keys)
    requires WellKeyed(g) && SpelledFrom(g, spellings)
    ensures LegacyDownstreamSoFar(g, up, done + {d}, spellings)
  {
    ReversedStep(down, g, up, done, d, {});
    FromStep(down, g, up, done, d, {});
    forall a | a in g
      ensures g[a].value != map[]
    {
      if a !in down {
        assert d in g[a].value;
      } else {
        assert down[a].value.Keys <= g[a].value.Keys;
      }
    }
  }

  /** The older AnalyzeSolutionAsync: no argument checks, the analysis of every
      C# compilation, and the two graphs unfiltered. */
  method AnalyzeLegacySolution(fs: FileSystem, projects: seq<Option<Compilation>>) returns (graph: LegacyGraph)
    ensures IsLegacyUpstream(graph.upstream, ProjectResults(projects, fs))
    ensures IsLegacyTranspose(graph.downstream, graph.upstream)
    ensures SpelledFrom(graph.downstream, ResultSpellings(ProjectResults(projects, fs)))
  {
    var compilations := [];
    for i := 0 to |projects|
      invariant compilations == CSharpCompilations(projects[..i])
    {
      assert projects[..i + 1][..i] == projects[..i];
      if projects[i].None? {
        continue;
      }
      compilations := compilations + [projects[i].value];
    }
    assert projects[..|projects|] == projects;
    var results := AnalyzeCompilations(compilations, fs);
    assert KeyedResults(results) by {
      assert forall i | 0 <= i < |results| :: results[i] in results;
    }
    var upstream := CreateLegacyUpstream(results);
    var downstream := CreateLegacyDownstream(upstream, ResultSpellings(results));
    return LegacyGraph(upstream, downstream);
  }

  // ---------------------------------------------------------------------------
  // Relation to the later analyzer

  /** Only a file with a result has upstream files. */
  lemma {:induction false} UpstreamOfResultFiles(results: seq<AnalyzeResult>, f: string)
    requires f !in ResultFiles(results)
    ensures UpstreamOf(results, f) == {}
  {
    if results != [] {
      UpstreamOfResultFiles(results[..|results| - 1], f);
    }
  }

  /** The older upstream graph is the later one without the entries of files
      that have no result, and those entries are all empty. */
  lemma LegacyUpstreamAgrees(legacy: Graph, later: Graph, results: seq<AnalyzeResult>)
    requires IsLegacyUpstream(legacy, results) && IsUpstreamGraph(later, results)
    ensures legacy.Keys <= later.Keys
    ensures forall f | f in legacy :: legacy[f].value.Keys == later[f].value.Keys
    ensures forall f | f in later && f !in legacy :: later[f].value == map[]
  {
    forall f | f in later && f !in legacy
      ensures later[f].value == map[]
    {
      UpstreamOfResultFiles(results, f);
    }
  }

  /** Both analyzers give a file the same dependents; the older one leaves out
      the files that have none. */
  lemma LegacyDownstreamAgrees(legacyUp: Graph, laterUp: Graph, legacyDown: Graph, laterDown: Graph)
    requires legacyUp.Keys <= laterUp.Keys
    requires forall f | f in legacyUp :: legacyUp[f].value.Keys == laterUp[f].value.Keys
    requires forall f | f in laterUp && f !in legacyUp :: laterUp[f].value == map[]
    requires IsLegacyTranspose(legacyDown, legacyUp) && IsTranspose(laterDown, laterUp)
    ensures legacyDown.Keys <= laterDown.Keys
    ensures forall a | a in legacyDown :: legacyDown[a].value.Keys == laterDown[a].value.Keys
    ensures forall a | a in laterDown && a !in legacyDown :: laterDown[a].value == map[]
  {
    forall a | a in legacyDown
      ensures a in laterDown && legacyDown[a].value.Keys == laterDown[a].value.Keys
    {
      NonEmptyHasKey(legacyDown[a].value);
      var b :| b in legacyDown[a].value;
      assert a in laterUp[b].value;
      forall c
        ensures c in legacyDown[a].value <==> c in laterDown[a].value
      {
        if c in legacyDown[a].value {
          assert c in legacyUp && a in legacyUp[c].value;
          assert a in laterUp[c].value;
        }
        if c in laterDown[a].value {
          assert c in laterUp && a in laterUp[c].value;
          assert c in legacyUp;
          assert a in legacyUp[c].value;
        }
      }
    }
    forall a | a in laterDown && laterDown[a].value != map[]
      ensures a in legacyDown
    {
      NonEmptyHasKey(laterDown[a].value);
      var b :| b in laterDown[a].value;
      assert a in laterUp[b].value;
      assert a in legacyUp[b].value;
    }
  }
}
