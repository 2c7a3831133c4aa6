/** The aggregation of StaticDotnetSolutionDependenciesAnalyzer: the results of
    every type declaration become an upstream graph (file -> files it depends
    on), its transpose becomes the downstream graph (file -> files that depend
    on it), and both are restricted to files that exist and lie under the
    project root. The two builder graphs compare file names ignoring case; the
    result graphs are keyed by the spelling the builder stored. */
module StaticAnalyzer {
  import opened Wrappers
  import opened Text
  import opened Paths
  import opened IgnoreCase
  import opened FileSystem
  import opened Symbols
  import opened SymbolAnalysis
  import opened DependenciesGraphs

  /** `Dictionary<string, HashSet<string>>`, both compared ignoring case. */
  type Graph = CiMap<CiSet>

  /** Every key of the graph, and of each of its sets, is the folded form of
      the spelling stored under it. */
  predicate WellKeyed(g: Graph)
  {
    KeyedMap(g) && forall f | f in g :: Keyed(g[f].value)
  }

  /** Every spelling a graph stores lies in `spellings`. */
  predicate SpelledFrom(g: Graph, spellings: set<string>)
  {
    forall f | f in g :: g[f].key in spellings && forall k | k in g[f].value :: g[f].value[k] in spellings
  }

  // ---------------------------------------------------------------------------
  // Upstream

  /** The folded names of the files the results mention: each result's file
      and its dependencies. */
  function ResultKeys(results: seq<AnalyzeResult>): set<string>
  {
    if results == [] then {}
    else
      var x := results[|results| - 1];
      ResultKeys(results[..|results| - 1]) + {Fold(x.fullPath)} + x.dependsFullPaths.Keys
  }

  /** The folded names of the files that the results for file `f` depend on. */
  function UpstreamOf(results: seq<AnalyzeResult>, f: string): set<string>
  {
    if results == [] then {}
    else
      var x := results[|results| - 1];
      UpstreamOf(results[..|results| - 1], f) + (if Fold(x.fullPath) == f then x.dependsFullPaths.Keys else {})
  }

  /** Every spelling of a file name the results use. */
  function ResultSpellings(results: seq<AnalyzeResult>): set<string>
  {
    if results == [] then {}
    else
      var x := results[|results| - 1];
      ResultSpellings(results[..|results| - 1]) + {x.fullPath} + x.dependsFullPaths.Values
  }

  /** The graph CreateUpstreamGraph builds: a key for every file the results
      mention (empty for a file no result is about), holding the union of the
      dependencies of the results for that file. */
  predicate IsUpstreamGraph(g: Graph, results: seq<AnalyzeResult>)
  {
    WellKeyed(g)
    && g.Keys == ResultKeys(results)
    && (forall f | f in g :: g[f].value.Keys == UpstreamOf(results, f))
    && SpelledFrom(g, ResultSpellings(results))
  }

  /** The results hold their dependencies as the analysis builds them: keyed
      by folded form. */
  predicate KeyedResults(results: seq<AnalyzeResult>)
  {
    forall i | 0 <= i < |results| :: Keyed(results[i].dependsFullPaths)
  }

  /** `if (!graph.ContainsKey(s)) graph[s] = new(comparer)`. */
  function EnsureEntry(g: Graph, s: string): (r: Graph)
    ensures r.Keys == g.Keys + {Fold(s)}
    ensures forall f | f in g :: r[f] == g[f]
    ensures Fold(s) !in g ==> r[Fold(s)] == Entry(s, EmptySet)
  {
    if Fold(s) in g then g else g[Fold(s) := Entry(s, EmptySet)]
  }

  /** `graph[f].Add(s)`. */
  function AddTo(g: Graph, f: string, s: string): (r: Graph)
    requires f in g
    ensures r.Keys == g.Keys
    ensures forall h | h in g && h != f :: r[h] == g[h]
    ensures r[f] == Entry(g[f].key, Add(g[f].value, s))
  {
    g[f := Entry(g[f].key, Add(g[f].value, s))]
  }

  /** CreateUpstreamGraph. */
  method CreateUpstreamGraph(results: seq<AnalyzeResult>) returns (upstream: Graph)
    requires KeyedResults(results)
    ensures IsUpstreamGraph(upstream, results)
  {
    upstream := map[];
    for i := 0 to |results|
      invariant IsUpstreamGraph(upstream, results[..i])
    {
      var g := AddResult(upstream, results[i], ResultSpellings(results[..i]));
      UpstreamStep(upstream, g, results, i);
      upstream := g;
    }
    assert results[..|results|] == results;
  }

  lemma EnsureEntryKeeps(g: Graph, s: string, spellings: set<string>)
    requires WellKeyed(g) && SpelledFrom(g, spellings) && s in spellings
    ensures WellKeyed(EnsureEntry(g, s)) && SpelledFrom(EnsureEntry(g, s), spellings)
  {
  }

  lemma AddToKeeps(g: Graph, f: string, s: string, spellings: set<string>)
    requires f in g && WellKeyed(g) && SpelledFrom(g, spellings) && s in spellings
    ensures WellKeyed(AddTo(g, f, s)) && SpelledFrom(AddTo(g, f, s), spellings)
  {
  }

  /** The entries of AddResult's loop once the dependencies in `done` are in. */
  ghost predicate ResultEntries(graph: Graph, g: Graph, file: string, done: set<string>)
  {
    g.Keys == graph.Keys + {file} + done
    && forall f, k {:trigger k in g[f].value} | f in g :: k in g[f].value <==> (f in graph && k in graph[f].value) || (f == file && k in done)
  }

  /** The state of AddResult's loop once the dependencies in `done` are in. */
  ghost predicate AddingResult(graph: Graph, g: Graph, x: AnalyzeResult, done: set<string>, spellings: set<string>)
  {
    ResultEntries(graph, g, Fold(x.fullPath), done)
    && WellKeyed(g)
    && SpelledFrom(g, spellings + {x.fullPath} + x.dependsFullPaths.Values)
  }

  /** One result into the upstream graph: its file gets an entry, every
      dependency joins that entry and gets an entry of its own. */
  method AddResult(graph: Graph, x: AnalyzeResult, ghost spellings: set<string>) returns (g: Graph)
    requires WellKeyed(graph) && Keyed(x.dependsFullPaths) && SpelledFrom(graph, spellings)
    ensures AddingResult(graph, g, x, x.dependsFullPaths.Keys, spellings)
  {
    var file := x.fullPath;
    g := EnsureEntry(graph, file);
    AddingResultStart(graph, x, spellings);
    var remaining := x.dependsFullPaths.Keys;
    while remaining != {}
      invariant remaining <= x.dependsFullPaths.Keys
      invariant AddingResult(graph, g, x, x.dependsFullPaths.Keys - remaining, spellings)
      decreases remaining
    {
      var k :| k in remaining;
      var dependency := x.dependsFullPaths[k];
      AddingResultStep(graph, g, x, x.dependsFullPaths.Keys - remaining, spellings, k);
      g := EnsureEntry(AddTo(g, Fold(file), dependency), dependency);
      RemoveOne(x.dependsFullPaths.Keys, remaining, k);
      remaining := remaining - {k};
    }
    assert x.dependsFullPaths.Keys - remaining == x.dependsFullPaths.Keys;
  }

  lemma AddingResultStart(graph: Graph, x: AnalyzeResult, spellings: set<string>)
    requires WellKeyed(graph) && SpelledFrom(graph, spellings)
    ensures AddingResult(graph, EnsureEntry(graph, x.fullPath), x, {}, spellings)
  {
    var all := spellings + {x.fullPath} + x.dependsFullPaths.Values;
    assert SpelledFrom(graph, all);
    EnsureEntryKeeps(graph, x.fullPath, all);
  }

  lemma AddingResultStep(graph: Graph, g: Graph, x: AnalyzeResult, done: set<string>, spellings: set<string>, k: string)
    requires AddingResult(graph, g, x, done, spellings)
    requires Keyed(x.dependsFullPaths) && k in x.dependsFullPaths && k !in done
    ensures AddingResult(graph, EnsureEntry(AddTo(g, Fold(x.fullPath), x.dependsFullPaths[k]), x.dependsFullPaths[k]),
                         x, done + {k}, spellings)
  {
    var all := spellings + {x.fullPath} + x.dependsFullPaths.Values;
    var s := x.dependsFullPaths[k];
    assert s in all;
    var g1 := AddTo(g, Fold(x.fullPath), s);
    AddToKeeps(g, Fold(x.fullPath), s, all);
    EnsureEntryKeeps(g1, s, all);
    ResultEntriesStep(graph, g, Fold(x.fullPath), done, k, s);
  }

  lemma ResultEntriesStep(graph: Graph, g: Graph, file: string, done: set<string>, k: string, s: string)
    requires ResultEntries(graph, g, file, done) && Fold(s) == k && file in g
    ensures ResultEntries(graph, EnsureEntry(AddTo(g, file, s), s), file, done + {k})
  {
    var r := EnsureEntry(AddTo(g, file, s), s);
    forall f, j | f in r
      ensures j in r[f].value <==> (f in graph && j in graph[f].value) || (f == file && j in done + {k})
    {
      if f == file {
        assert r[f].value.Keys == g[f].value.Keys + {k};
      } else if f in g {
        assert r[f] == g[f];
      }
    }
  }

  lemma UpstreamStep(upstream: Graph, g: Graph, results: seq<AnalyzeResult>, i: nat)
    requires i < |results|
    requires IsUpstreamGraph(upstream, results[..i])
    requires AddingResult(upstream, g, results[i], results[i].dependsFullPaths.Keys, ResultSpellings(results[..i]))
    ensures IsUpstreamGraph(g, results[..i + 1])
  {
    UpstreamKeysStep(results, i);
    UpstreamSpellingsStep(results, i);
    UpstreamValuesStep(upstream, g, results, i);
  }

  lemma UpstreamKeysStep(results: seq<AnalyzeResult>, i: nat)
    requires i < |results|
    ensures ResultKeys(results[..i + 1])
            == ResultKeys(results[..i]) + {Fold(results[i].fullPath)} + results[i].dependsFullPaths.Keys
  {
    assert results[..i + 1][..i] == results[..i];
  }

  lemma UpstreamSpellingsStep(results: seq<AnalyzeResult>, i: nat)
    requires i < |results|
    ensures ResultSpellings(results[..i + 1])
            == ResultSpellings(results[..i]) + {results[i].fullPath} + results[i].dependsFullPaths.Values
  {
    assert results[..i + 1][..i] == results[..i];
  }

  lemma UpstreamValuesStep(upstream: Graph, g: Graph, results: seq<AnalyzeResult>, i: nat)
    requires i < |results|
    requires IsUpstreamGraph(upstream, results[..i])
    requires ResultEntries(upstream, g, Fold(results[i].fullPath), results[i].dependsFullPaths.Keys)
    ensures forall f | f in g :: g[f].value.Keys == UpstreamOf(results[..i + 1], f)
  {
    forall f | f in g
      ensures g[f].value.Keys == UpstreamOf(results[..i + 1], f)
    {
      UpstreamValueStep(upstream, g, results, i, f);
    }
  }

  lemma UpstreamValueStep(upstream: Graph, g: Graph, results: seq<AnalyzeResult>, i: nat, f: string)
    requires i < |results|
    requires IsUpstreamGraph(upstream, results[..i])
    requires ResultEntries(upstream, g, Fold(results[i].fullPath), results[i].dependsFullPaths.Keys)
    requires f in g
    ensures g[f].value.Keys == UpstreamOf(results[..i + 1], f)
  {
    EntryUnion(upstream, g, Fold(results[i].fullPath), results[i].dependsFullPaths.Keys, f);
    UpstreamOfLast(results, i, f);
    if f !in upstream {
      UpstreamOfKeys(results[..i], f);
    }
  }

  lemma EntryUnion(graph: Graph, g: Graph, file: string, done: set<string>, f: string)
    requires ResultEntries(graph, g, file, done) && f in g
    ensures g[f].value.Keys == (if f in graph then graph[f].value.Keys else {}) + (if f == file then done else {})
  {
    forall k
      ensures k in g[f].value.Keys <==> k in (if f in graph then graph[f].value.Keys else {}) + (if f == file then done else {})
    {
      assert k in g[f].value <==> (f in graph && k in graph[f].value) || (f == file && k in done);
    }
  }

  lemma UpstreamOfLast(results: seq<AnalyzeResult>, i: nat, f: string)
    requires i < |results|
    ensures UpstreamOf(results[..i + 1], f)
            == UpstreamOf(results[..i], f) + (if Fold(results[i].fullPath) == f then results[i].dependsFullPaths.Keys else {})
  {
    assert results[..i + 1][..i] == results[..i];
  }

  /** Only a file the results mention can have upstream files. */
  lemma {:induction false} UpstreamOfKeys(results: seq<AnalyzeResult>, f: string)
    requires f !in ResultKeys(results)
    ensures UpstreamOf(results, f) == {}
  {
    if results != [] {
      UpstreamOfKeys(results[..|results| - 1], f);
    }
  }

  // ---------------------------------------------------------------------------
  // Downstream

  /** Every edge `f -> k` of `up` out of a file in `done` appears reversed in
      `down`: `k` has an entry there that lists `f`. */
  predicate EdgesReversed(up: Graph, down: Graph, done: set<string>)
  {
    forall f, k | f in done && f in up && k in up[f].value :: k in down && f in down[k].value
  }

  /** Every edge `a -> b` of `down` is an edge `b -> a` of `up` out of a file
      in `done`. */
  predicate EdgesFrom(down: Graph, up: Graph, done: set<string>)
  {
    forall a, b | a in down && b in down[a].value :: b in done && b in up && a in up[b].value
  }

  /** Every edge `a -> b` of `x` appears reversed in `y`. */
  predicate Reverses(x: Graph, y: Graph)
  {
    forall a, b | a in x && b in x[a].value :: b in y && a in y[b].value
  }

  /** `down` is the transpose of `up`: `b` is in `down[a]` exactly when `a` is
      in `up[b]`; every key of `up` has an entry in `down`, possibly empty; and
      any other entry of `down` is a file that something depends on. */
  predicate IsTranspose(down: Graph, up: Graph)
  {
    (forall f | f in up :: f in down)
    && Reverses(up, down) && Reverses(down, up)
    && (forall a | a in down && a !in up :: down[a].value != map[])
  }

  /** The downstream graph once the upstream entries in `done` are in. */
  predicate DownstreamSoFar(down: Graph, up: Graph, done: set<string>, spellings: set<string>)
  {
    WellKeyed(down)
    && (forall f | f in done :: f in down)
    && EdgesReversed(up, down, done)
    && EdgesFrom(down, up, done)
    && (forall a | a in down && a !in done :: down[a].value != map[])
    && SpelledFrom(down, spellings)
  }

  /** CreateDownstreamGraphFromUpstreamGraph. */
  method CreateDownstreamGraph(upstream: Graph, ghost spellings: set<string>) returns (downstream: Graph)
    requires WellKeyed(upstream) && SpelledFrom(upstream, spellings)
    ensures WellKeyed(downstream)
    ensures IsTranspose(downstream, upstream)
    ensures SpelledFrom(downstream, spellings)
  {
    downstream := map[];
    var remaining := upstream.Keys;
    while remaining != {}
      invariant remaining <= upstream.Keys
      invariant DownstreamSoFar(downstream, upstream, upstream.Keys - remaining, spellings)
      decreases remaining
    {
      var d :| d in remaining;
      ghost var done := upstream.Keys - remaining;
      var g := AddDependents(downstream, upstream, d, spellings);
      DownstreamStep(downstream, g, upstream, done, d, spellings);
      RemoveOne(upstream.Keys, remaining, d);
      downstream := g;
      remaining := remaining - {d};
    }
    assert upstream.Keys - remaining == upstream.Keys;
    DownstreamDone(downstream, upstream, spellings);
  }

  lemma DownstreamDone(down: Graph, up: Graph, spellings: set<string>)
    requires DownstreamSoFar(down, up, up.Keys, spellings)
    ensures IsTranspose(down, up)
  {
  }

  /** The entries of AddDependents once the files in `done` have `d` added. */
  ghost predicate DependentEntries(graph: Graph, g: Graph, d: string, keys: set<string>, done: set<string>)
  {
    g.Keys == graph.Keys + keys + done
    && forall a, b | a in g :: b in g[a].value <==> (a in graph && b in graph[a].value) || (a in done && b == d)
  }

  /** One upstream entry into the downstream graph: the entry's file joins the
      entry of every file it depends on, and gets an entry of its own. */
  method AddDependents(graph: Graph, upstream: Graph, d: string, ghost spellings: set<string>) returns (g: Graph)
    requires d in upstream
    requires WellKeyed(upstream) && WellKeyed(graph)
    requires SpelledFrom(upstream, spellings) && SpelledFrom(graph, spellings)
    ensures DependentEntries(graph, g, d, {d}, upstream[d].value.Keys)
    ensures WellKeyed(g) && SpelledFrom(g, spellings)
  {
    var downstreamDependency := upstream[d].key;
    var upstreamDependencies := upstream[d].value;
    g := graph;
    var remaining := upstreamDependencies.Keys;
    while remaining != {}
      invariant remaining <= upstreamDependencies.Keys
      invariant DependentEntries(graph, g, d, {}, upstreamDependencies.Keys - remaining)
      invariant WellKeyed(g) && SpelledFrom(g, spellings)
      decreases remaining
    {
      var k :| k in remaining;
      var upstreamDependency := upstreamDependencies[k];
      DependentsStep(graph, g, upstream, d, upstreamDependencies.Keys - remaining, k, spellings);
      g := AddTo(EnsureEntry(g, upstreamDependency), k, downstreamDependency);
      RemoveOne(upstreamDependencies.Keys, remaining, k);
      remaining := remaining - {k};
    }
    assert upstreamDependencies.Keys - remaining == upstreamDependencies.Keys;
    DependentsLast(graph, g, upstream, d, spellings);
    g := EnsureEntry(g, downstreamDependency);
  }

  lemma DependentsStep(graph: Graph, g: Graph, up: Graph, d: string, done: set<string>, k: string, spellings: set<string>)
    requires d in up && k in up[d].value && k !in done
    requires WellKeyed(up) && WellKeyed(g) && SpelledFrom(up, spellings) && SpelledFrom(g, spellings)
    requires DependentEntries(graph, g, d, {}, done)
    ensures k in EnsureEntry(g, up[d].value[k])
    ensures DependentEntries(graph, AddTo(EnsureEntry(g, up[d].value[k]), k, up[d].key), d, {}, done + {k})
    ensures WellKeyed(AddTo(EnsureEntry(g, up[d].value[k]), k, up[d].key))
    ensures SpelledFrom(AddTo(EnsureEntry(g, up[d].value[k]), k, up[d].key), spellings)
  {
    var s, t := up[d].value[k], up[d].key;
    EnsureEntryKeeps(g, s, spellings);
    AddToKeeps(EnsureEntry(g, s), k, t, spellings);
    DependentEntriesStep(graph, g, d, done, k, s, t);
  }

  lemma DependentEntriesStep(graph: Graph, g: Graph, d: string, done: set<string>, k: string, s: string, t: string)
    requires Fold(s) == k && Fold(t) == d && k !in done
    requires DependentEntries(graph, g, d, {}, done)
    ensures k in EnsureEntry(g, s)
    ensures DependentEntries(graph, AddTo(EnsureEntry(g, s), k, t), d, {}, done + {k})
  {
  }

  lemma DependentsLast(graph: Graph, g: Graph, up: Graph, d: string, spellings: set<string>)
    requires d in up
    requires WellKeyed(up) && WellKeyed(g) && SpelledFrom(up, spellings) && SpelledFrom(g, spellings)
    requires DependentEntries(graph, g, d, {}, up[d].value.Keys)
    ensures DependentEntries(graph, EnsureEntry(g, up[d].key), d, {d}, up[d].value.Keys)
    ensures WellKeyed(EnsureEntry(g, up[d].key)) && SpelledFrom(EnsureEntry(g, up[d].key), spellings)
  {
    EnsureEntryKeeps(g, up[d].key, spellings);
    DependentEntriesLast(graph, g, d, up[d].key, up[d].value.Keys);
  }

  lemma DependentEntriesLast(graph: Graph, g: Graph, d: string, t: string, targets: set<string>)
    requires Fold(t) == d
    requires DependentEntries(graph, g, d, {}, targets)
    ensures DependentEntries(graph, EnsureEntry(g, t), d, {d}, targets)
  {
    var r := EnsureEntry(g, t);
    forall a | a in r
      ensures r[a].value.Keys == (if a in graph then graph[a].value.Keys else {})
                                 + (if a in targets then {d} else {})
    {
      if a !in g {
        assert a == d && a !in graph && a !in targets;
      }
    }
  }

  lemma DownstreamStep(down: Graph, g: Graph, up: Graph, done: set<string>, d: string, spellings: set<string>)
    requires done <= up.Keys && d in up && d !in done
    requires DownstreamSoFar(down, up, done, spellings)
    requires DependentEntries(down, g, d, {d}, up[d].value.Keys)
    requires WellKeyed(g) && SpelledFrom(g, spellings)
    ensures DownstreamSoFar(g, up, done + {d}, spellings)
  {
    ReversedStep(down, g, up, done, d, {d});
    FromStep(down, g, up, done, d, {d});
    forall a | a in g && a !in done + {d}
      ensures g[a].value != map[]
    {
      if a !in down {
        assert d in g[a].value;
      } else {
        assert down[a].value.Keys <= g[a].value.Keys;
      }
    }
  }

  lemma ReversedStep(down: Graph, g: Graph, up: Graph, done: set<string>, d: string, keys: set<string>)
    requires d in up
    requires EdgesReversed(up, down, done)
    requires DependentEntries(down, g, d, keys, up[d].value.Keys)
    ensures EdgesReversed(up, g, done + {d})
  {
    forall f, k | f in done + {d} && f in up && k in up[f].value
      ensures k in g && f in g[k].value
    {
      if f != d {
        assert k in down && f in down[k].value;
      }
    }
  }

  lemma FromStep(down: Graph, g: Graph, up: Graph, done: set<string>, d: string, keys: set<string>)
    requires d in up
    requires EdgesFrom(down, up, done)
    requires DependentEntries(down, g, d, keys, up[d].value.Keys)
    ensures EdgesFrom(g, up, done + {d})
  {
    forall a, b | a in g && b in g[a].value
      ensures b in done + {d} && b in up && a in up[b].value
    {
      assert b in g[a].value.Keys;
      if !(a in down && b in down[a].value) {
        assert b == d && a in up[d].value;
      }
    }
  }


  // ---------------------------------------------------------------------------
  // Result graphs

  /** The stored spellings of `s` that name existing files. */
  function ExistingSpellings(s: CiSet, fs: FileSystem): (r: set<string>)
    ensures r <= fs.files
  {
    set k | k in s && s[k] in fs.files :: s[k]
  }

  /** In a keyed set, a spelling is kept exactly when it names an existing
      file and is the spelling stored for its folded form. */
  lemma ExistingSpelling(s: CiSet, fs: FileSystem, w: string)
    requires Keyed(s)
    ensures w in ExistingSpellings(s, fs) <==> w in fs.files && Fold(w) in s && s[Fold(w)] == w
  {
    if w in fs.files && Fold(w) in s && s[Fold(w)] == w {
      var k := Fold(w);
      assert k in s && s[k] in fs.files;
    }
  }

  /** `r` is what TransformToResultGraph makes of `g`: the entries whose stored
      key names an existing file, keyed by that spelling, each holding the
      stored spellings of its existing files. */
  predicate IsResultGraph(r: FileGraph, g: Graph, fs: FileSystem)
  {
    (forall f | f in g :: g[f].key in r <==> g[f].key in fs.files)
    && forall v | v in r :: Fold(v) in g && g[Fold(v)].key == v && r[v] == ExistingSpellings(g[Fold(v)].value, fs)
  }

  /** IsResultGraph spelled out edge by edge: `v -> w` is an edge of `r`
      exactly when `v` and `w` are the stored spellings of an entry of `g` and
      of one of its files, and both name existing files. */
  predicate ResultEdges(r: FileGraph, g: Graph, fs: FileSystem)
  {
    (forall f | f in g :: g[f].key in r <==> g[f].key in fs.files)
    && (forall v | v in r :: Fold(v) in g && g[Fold(v)].key == v)
    && (forall v, w | v in r && w in r[v] ::
          w in fs.files && Fold(w) in g[Fold(v)].value && g[Fold(v)].value[Fold(w)] == w)
    && (forall v, k | v in r && k in g[Fold(v)].value && g[Fold(v)].value[k] in fs.files ::
          g[Fold(v)].value[k] in r[v])
  }

  lemma ResultEdgesOf(r: FileGraph, g: Graph, fs: FileSystem)
    requires WellKeyed(g) && IsResultGraph(r, g, fs)
    ensures ResultEdges(r, g, fs)
  {
    forall v, w | v in r && w in r[v]
      ensures w in fs.files && Fold(w) in g[Fold(v)].value && g[Fold(v)].value[Fold(w)] == w
    {
      ExistingSpelling(g[Fold(v)].value, fs, w);
    }
    forall v, k | v in r && k in g[Fold(v)].value && g[Fold(v)].value[k] in fs.files
      ensures g[Fold(v)].value[k] in r[v]
    {
      ExistingSpelling(g[Fold(v)].value, fs, g[Fold(v)].value[k]);
    }
  }

  /** The part of a result graph built from the entries of `g` in `done`. */
  predicate PartialResultGraph(r: FileGraph, g: Graph, done: set<string>, fs: FileSystem)
  {
    (forall f | f in done && f in g :: g[f].key in r <==> g[f].key in fs.files)
    && forall v | v in r :: Fold(v) in done && Fold(v) in g && g[Fold(v)].key == v
                            && r[v] == ExistingSpellings(g[Fold(v)].value, fs)
  }

  /** TransformToResultGraph. */
  method TransformToResultGraph(src: Graph, fs: FileSystem) returns (result: FileGraph)
    requires WellKeyed(src)
    ensures IsResultGraph(result, src, fs)
    ensures forall v | v in result :: v in fs.files && result[v] <= fs.files
  {
    result := map[];
    var remaining := src.Keys;
    while remaining != {}
      invariant remaining <= src.Keys
      invariant PartialResultGraph(result, src, src.Keys - remaining, fs)
      decreases remaining
    {
      var f :| f in remaining;
      var key := src[f].key;
      RemoveOne(src.Keys, remaining, f);
      if key in fs.files {
        var values := ExistingValues(src[f].value, fs);
        ResultGraphStep(result, src, src.Keys - remaining, fs, f);
        result := result[key := values];
      }
      remaining := remaining - {f};
    }
  }

  lemma ResultGraphStep(r: FileGraph, g: Graph, done: set<string>, fs: FileSystem, f: string)
    requires KeyedMap(g) && f in g && f !in done && g[f].key in fs.files
    requires PartialResultGraph(r, g, done, fs)
    ensures PartialResultGraph(r[g[f].key := ExistingSpellings(g[f].value, fs)], g, done + {f}, fs)
  {
  }

  /** The inner loop of TransformToResultGraph over one entry's files. */
  method ExistingValues(values: CiSet, fs: FileSystem) returns (accumulator: set<string>)
    ensures accumulator == ExistingSpellings(values, fs)
  {
    accumulator := {};
    var remaining := values.Keys;
    while remaining != {}
      invariant remaining <= values.Keys
      invariant accumulator == set k | k in values.Keys - remaining && values[k] in fs.files :: values[k]
      decreases remaining
    {
      var k :| k in remaining;
      var value := values[k];
      RemoveOne(values.Keys, remaining, k);
      if value in fs.files {
        accumulator := accumulator + {value};
      }
      remaining := remaining - {k};
    }
  }

  /** What FilterFilesOutsideProjectDirectory keeps: the keys, and within them
      the files, whose full names start with the root (ordinal). */
  function Filtered(g: FileGraph, root: string): (r: FileGraph)
    ensures r.Keys == set k | k in g && StartsWith(k, root)
    ensures forall k | k in r :: r[k] == set v | v in g[k] && StartsWith(v, root)
  {
    map k | k in g && StartsWith(k, root) :: set v | v in g[k] && StartsWith(v, root)
  }

  /** FilterFilesOutsideProjectDirectory. */
  method FilterFilesOutsideProjectDirectory(graph: FileGraph, root: string) returns (result: FileGraph)
    ensures result == Filtered(graph, root)
  {
    result := map[];
    var remaining := graph.Keys;
    while remaining != {}
      invariant remaining <= graph.Keys
      invariant result == map k | k in graph.Keys - remaining && StartsWith(k, root)
                                :: set v | v in graph[k] && StartsWith(v, root)
      decreases remaining
    {
      var key :| key in remaining;
      RemoveOne(graph.Keys, remaining, key);
      if StartsWith(key, root) {
        var values := UnderRoot(graph[key], root);
        result := result[key := values];
      }
      remaining := remaining - {key};
    }
  }

  /** The inner loop of FilterFilesOutsideProjectDirectory. */
  method UnderRoot(values: set<string>, root: string) returns (accumulator: set<string>)
    ensures accumulator == set v | v in values && StartsWith(v, root)
  {
    accumulator := {};
    var remaining := values;
    while remaining != {}
      invariant remaining <= values
      invariant accumulator == set v | v in values - remaining && StartsWith(v, root)
      decreases remaining
    {
      var value :| value in remaining;
      RemoveOne(values, remaining, value);
      if StartsWith(value, root) {
        accumulator := accumulator + {value};
      }
      remaining := remaining - {value};
    }
  }

  // ---------------------------------------------------------------------------
  // Properties of the pipeline

  /** No file of the graph lists itself. */
  predicate NoSelfLoops(g: Graph)
  {
    forall f | f in g :: f !in g[f].value
  }

  /** No file of a result graph lists itself. */
  predicate NoSelfEdges(r: FileGraph)
  {
    forall v | v in r :: v !in r[v]
  }

  lemma {:induction false} UpstreamOfAvoids(results: seq<AnalyzeResult>, f: string)
    requires KeyedResults(results)
    requires forall i | 0 <= i < |results| :: NoSelfEdge(results[i])
    ensures f !in UpstreamOf(results, f)
  {
    if results != [] {
      var before, x := results[..|results| - 1], results[|results| - 1];
      assert KeyedResults(before) by {
        assert forall i | 0 <= i < |before| :: before[i] == results[i];
      }
      assert forall i | 0 <= i < |before| :: NoSelfEdge(before[i]) by {
        assert forall i | 0 <= i < |before| :: before[i] == results[i];
      }
      UpstreamOfAvoids(before, f);
      assert NoSelfEdge(results[|results| - 1]) && Keyed(results[|results| - 1].dependsFullPaths);
    }
  }

  /** Results without self edges give an upstream graph without self loops. */
  lemma UpstreamNoSelfLoops(g: Graph, results: seq<AnalyzeResult>)
    requires IsUpstreamGraph(g, results) && KeyedResults(results)
    requires forall i | 0 <= i < |results| :: NoSelfEdge(results[i])
    ensures NoSelfLoops(g)
  {
    forall f | f in g
      ensures f !in g[f].value
    {
      UpstreamOfAvoids(results, f);
    }
  }

  /** The transpose of a graph without self loops has none. */
  lemma TransposeNoSelfLoops(down: Graph, up: Graph)
    requires IsTranspose(down, up) && NoSelfLoops(up)
    ensures NoSelfLoops(down)
  {
  }

  /** Every file a key of `g` depends on is a key of `g`. */
  predicate Closed(g: Graph)
  {
    forall f, k | f in g && k in g[f].value :: k in g
  }

  /** Every file the upstream graph depends on has an entry of its own. */
  lemma {:induction false} UpstreamClosed(g: Graph, results: seq<AnalyzeResult>)
    requires IsUpstreamGraph(g, results)
    ensures Closed(g)
  {
    forall f, k | f in g && k in g[f].value
      ensures k in g
    {
      UpstreamOfInKeys(results, f, k);
    }
  }

  lemma {:induction false} UpstreamOfInKeys(results: seq<AnalyzeResult>, f: string, k: string)
    requires k in UpstreamOf(results, f)
    ensures k in ResultKeys(results)
  {
    if results != [] {
      var before, x := results[..|results| - 1], results[|results| - 1];
      if k in UpstreamOf(before, f) {
        UpstreamOfInKeys(before, f, k);
      }
    }
  }

  /** A result graph has a self edge only where its builder graph has a self loop. */
  lemma ResultNoSelfEdges(r: FileGraph, g: Graph, fs: FileSystem)
    requires WellKeyed(g) && IsResultGraph(r, g, fs) && NoSelfLoops(g)
    ensures NoSelfEdges(r)
  {
    forall v | v in r
      ensures v !in r[v]
    {
      assert Fold(v) !in g[Fold(v)].value;
    }
  }

  lemma FilteredNoSelfEdges(r: FileGraph, root: string)
    requires NoSelfEdges(r)
    ensures NoSelfEdges(Filtered(r, root))
  {
  }

  /** At most one spelling per folded form. */
  predicate SingleSpelling(spellings: set<string>)
  {
    forall s, t | s in spellings && t in spellings && Fold(s) == Fold(t) :: s == t
  }

  /** Every edge `a -> b` of `x` appears reversed in `y` with the same
      spellings at either end. */
  predicate SpelledEdges(x: Graph, y: Graph)
  {
    forall a, b | a in x && b in x[a].value ::
      b in y && y[b].key == x[a].value[b] && a in y[b].value && y[b].value[a] == x[a].key
  }

  /** `down` is the transpose of `up` down to the spellings: a file has the
      same stored spelling in both, and every edge appears in both directions
      with the same spellings at either end. */
  predicate SpelledTranspose(up: Graph, down: Graph)
  {
    (forall f | f in up && f in down :: up[f].key == down[f].key)
    && SpelledEdges(up, down) && SpelledEdges(down, up)
  }

  /** Built from one set of spellings with one spelling per file, the
      downstream graph is the transpose of the upstream graph down to the
      spellings. */
  lemma BuildersSpelledTranspose(up: Graph, down: Graph, spellings: set<string>)
    requires WellKeyed(up) && WellKeyed(down) && IsTranspose(down, up)
    requires SpelledFrom(up, spellings) && SpelledFrom(down, spellings) && SingleSpelling(spellings)
    ensures SpelledTranspose(up, down)
  {
    forall f | f in up && f in down
      ensures up[f].key == down[f].key
    {
      SameSpelling(spellings, up[f].key, down[f].key);
    }
    ReversesSpelled(up, down, spellings);
    ReversesSpelled(down, up, spellings);
  }

  /** With one spelling per file, reversed edges keep their spellings. */
  lemma {:induction false} ReversesSpelled(x: Graph, y: Graph, spellings: set<string>)
    requires WellKeyed(x) && WellKeyed(y) && Reverses(x, y)
    requires SpelledFrom(x, spellings) && SpelledFrom(y, spellings) && SingleSpelling(spellings)
    ensures SpelledEdges(x, y)
  {
    forall a, b | a in x && b in x[a].value
      ensures b in y && y[b].key == x[a].value[b] && a in y[b].value && y[b].value[a] == x[a].key
    {
      assert b in y && a in y[b].value;
      SameSpelling(spellings, y[b].key, x[a].value[b]);
      SameSpelling(spellings, y[b].value[a], x[a].key);
    }
  }

  lemma SameSpelling(spellings: set<string>, s: string, t: string)
    requires SingleSpelling(spellings) && s in spellings && t in spellings && Fold(s) == Fold(t)
    ensures s == t
  {
  }

  /** The transpose of a closed graph has the same keys. */
  lemma TransposeKeys(down: Graph, up: Graph)
    requires IsTranspose(down, up) && Closed(up)
    ensures down.Keys == up.Keys
  {
    forall a | a in down
      ensures a in up
    {
      NonEmptyHasKey(down[a].value);
      assert a in up;
    }
  }

  lemma NonEmptyHasKey(m: CiSet)
    ensures m != map[] ==> exists k :: k in m
  {
    if m != map[] {
      assert m.Keys != {};
    }
  }

  /** The relation is symmetric. */
  lemma SpelledTransposeSymmetric(up: Graph, down: Graph)
    requires SpelledTranspose(up, down)
    ensures SpelledTranspose(down, up)
  {
  }

  /** Result graphs built from builder graphs that are transposes of each
      other, down to the spellings, are transposes of each other and have the
      same files as keys. */
  lemma ResultGraphsTransposed(up: Graph, down: Graph, upResult: FileGraph, downResult: FileGraph, fs: FileSystem)
    requires up.Keys == down.Keys && SpelledTranspose(up, down)
    requires ResultEdges(upResult, up, fs) && ResultEdges(downResult, down, fs)
    ensures Transposed(upResult, downResult)
    ensures upResult.Keys == downResult.Keys
  {
    ResultEdgesKept(up, down, upResult, downResult, fs);
    SpelledTransposeSymmetric(up, down);
    ResultEdgesKept(down, up, downResult, upResult, fs);
    ResultKeysIncluded(up, down, upResult, downResult, fs);
    ResultKeysIncluded(down, up, downResult, upResult, fs);
  }

  lemma ResultEdgesKept(up: Graph, down: Graph, upResult: FileGraph, downResult: FileGraph, fs: FileSystem)
    requires SpelledTranspose(up, down)
    requires ResultEdges(upResult, up, fs) && ResultEdges(downResult, down, fs)
    ensures EdgesKept(upResult, downResult)
  {
    forall a, b | a in upResult && b in upResult[a]
      ensures b in downResult && a in downResult[b]
    {
      var fa, fb := Fold(a), Fold(b);
      assert fb in up[fa].value && up[fa].value[fb] == b;
      assert down[fb].value[fa] == a;
    }
  }

  lemma ResultKeysIncluded(up: Graph, down: Graph, upResult: FileGraph, downResult: FileGraph, fs: FileSystem)
    requires up.Keys <= down.Keys && SpelledTranspose(up, down)
    requires ResultEdges(upResult, up, fs) && ResultEdges(downResult, down, fs)
    ensures upResult.Keys <= downResult.Keys
  {
    forall a | a in upResult
      ensures a in downResult
    {
      assert down[Fold(a)].key == a;
    }
  }

  /** The root filter, applied to both graphs, keeps them transposes. */
  lemma FilteredTransposed(up: FileGraph, down: FileGraph, root: string)
    requires Transposed(up, down) && up.Keys == down.Keys
    ensures Transposed(Filtered(up, root), Filtered(down, root))
    ensures Filtered(up, root).Keys == Filtered(down, root).Keys
  {
  }

  // ---------------------------------------------------------------------------
  // AnalyzeSolutionAsync

  /** The ArgumentExceptions AnalyzeSolutionAsync throws. */
  datatype AnalyzeError = ProjectRootMissing | SolutionFileMissing | SolutionOutsideProjectRoot

  /** The compilations of the solution's projects that are C# compilations
      (None stands for a project whose compilation is of another language). */
  function CSharpCompilations(projects: seq<Option<Compilation>>): (r: seq<Compilation>)
    ensures |r| <= |projects|
    ensures forall c | c in r :: Some(c) in projects
    ensures forall i | 0 <= i < |projects| && projects[i].Some? :: projects[i].value in r
  {
    if projects == [] then []
    else
      var before := CSharpCompilations(projects[..|projects| - 1]);
      assert forall i | 0 <= i < |projects| - 1 :: projects[..|projects| - 1][i] == projects[i];
      match projects[|projects| - 1]
      case Some(c) => before + [c]
      case None => before
  }

  /** Every file and every dependency of the graph exists and starts with the
      root (ordinal). */
  predicate ExistingUnderRoot(g: FileGraph, root: string, fs: FileSystem)
  {
    forall k | k in g :: k in fs.files && StartsWith(k, root)
                         && forall v | v in g[k] :: v in fs.files && StartsWith(v, root)
  }

  /** Every tree of every C# compilation has no path or an existing one. */
  predicate ProjectTreesExist(projects: seq<Option<Compilation>>, fs: FileSystem)
  {
    forall i | 0 <= i < |projects| && projects[i].Some? :: TreesExist(projects[i].value.syntaxTrees, fs)
  }

  /** The results of analysing the C# compilations of the projects. */
  function ProjectResults(projects: seq<Option<Compilation>>, fs: FileSystem): seq<AnalyzeResult>
  {
    SolutionResults(CSharpCompilations(projects), fs)
  }

  /** AnalyzeSolutionAsync: the argument checks, then the analysis of every C#
      compilation and the aggregation into a filtered DependenciesGraph. The
      two graphs it returns hold only existing files under the root; they
      have no self edges when every tree has an existing path; and when the
      results spell each file one way only they are transposes of each other
      with the same keys. They are the root-filtered existing parts of the
      upstream graph of the solution's results and of its transpose. */
  method AnalyzeSolution(p: Platform, fs: FileSystem, projectRoot: string, solutionFile: string,
                         projects: seq<Option<Compilation>>)
    returns (r: Result<DependenciesGraph, AnalyzeError>)
    ensures FullName(p, projectRoot) !in fs.directories <==> r == Failure(ProjectRootMissing)
    ensures FullName(p, projectRoot) in fs.directories && FullName(p, solutionFile) !in fs.files
            <==> r == Failure(SolutionFileMissing)
    ensures FullName(p, projectRoot) in fs.directories && FullName(p, solutionFile) in fs.files
            && !StartsWith(FullName(p, solutionFile), FullName(p, projectRoot))
            <==> r == Failure(SolutionOutsideProjectRoot)
    ensures r.Success? ==>
      fresh(r.value) && r.value.root == FullName(p, projectRoot)
      && ExistingUnderRoot(r.value.upstream, r.value.root, fs)
      && ExistingUnderRoot(r.value.downstream, r.value.root, fs)
    ensures r.Success? && ProjectTreesExist(projects, fs) ==>
      NoSelfEdges(r.value.upstream) && NoSelfEdges(r.value.downstream)
    ensures r.Success? && SingleSpelling(ResultSpellings(ProjectResults(projects, fs))) ==>
      Transposed(r.value.upstream, r.value.downstream) && r.value.upstream.Keys == r.value.downstream.Keys
    ensures r.Success? ==>
      exists up: Graph, down: Graph, ru: FileGraph, rd: FileGraph ::
        IsUpstreamGraph(up, ProjectResults(projects, fs))
        && WellKeyed(down) && IsTranspose(down, up)
        && SpelledFrom(down, ResultSpellings(ProjectResults(projects, fs)))
        && IsResultGraph(ru, up, fs) && IsResultGraph(rd, down, fs)
        && r.value.upstream == Filtered(ru, r.value.root)
        && r.value.downstream == Filtered(rd, r.value.root)
  {
    var root := FullName(p, projectRoot);
    if root !in fs.directories {
      return Failure(ProjectRootMissing);
    }
    var solutionPath := FullName(p, solutionFile);
    if solutionPath !in fs.files {
      return Failure(SolutionFileMissing);
    }
    if !StartsWith(solutionPath, root) {
      return Failure(SolutionOutsideProjectRoot);
    }
    var compilations := [];
    for i := 0 to |projects|
      invariant compilations == CSharpCompilations(projects[..i])
    {
      assert projects[..i + 1][..i] == projects[..i];
      if projects[i].None? {
        continue;
      }
      compilations := compilations + [projects[i].value];
    }
    assert projects[..|projects|] == projects;
    var results := AnalyzeCompilations(compilations, fs);
    var upstream := CreateUpstreamGraph(results);
    var downstream := CreateDownstreamGraph(upstream, ResultSpellings(results));
    var resultUpstream := TransformToResultGraph(upstream, fs);
    var resultDownstream := TransformToResultGraph(downstream, fs);
    var filteredUpstream := FilterFilesOutsideProjectDirectory(resultUpstream, root);
    var filteredDownstream := FilterFilesOutsideProjectDirectory(resultDownstream, root);
    PipelineProperties(projects, fs, root, results, upstream, downstream, resultUpstream, resultDownstream);
    var graph := new DependenciesGraph(root, filteredUpstream, filteredDownstream);
    return Success(graph);
  }

  /** What the aggregation steps of AnalyzeSolutionAsync add up to. */
  lemma PipelineProperties(projects: seq<Option<Compilation>>, fs: FileSystem, root: string,
                           results: seq<AnalyzeResult>, upstream: Graph, downstream: Graph,
                           resultUpstream: FileGraph, resultDownstream: FileGraph)
    requires results == ProjectResults(projects, fs)
    requires IsUpstreamGraph(upstream, results)
    requires WellKeyed(downstream) && IsTranspose(downstream, upstream)
    requires SpelledFrom(downstream, ResultSpellings(results))
    requires IsResultGraph(resultUpstream, upstream, fs) && IsResultGraph(resultDownstream, downstream, fs)
    requires forall v | v in resultUpstream :: v in fs.files && resultUpstream[v] <= fs.files
    requires forall v | v in resultDownstream :: v in fs.files && resultDownstream[v] <= fs.files
    ensures ExistingUnderRoot(Filtered(resultUpstream, root), root, fs)
    ensures ExistingUnderRoot(Filtered(resultDownstream, root), root, fs)
    ensures ProjectTreesExist(projects, fs) ==>
      NoSelfEdges(Filtered(resultUpstream, root)) && NoSelfEdges(Filtered(resultDownstream, root))
    ensures SingleSpelling(ResultSpellings(results)) ==>
      Transposed(Filtered(resultUpstream, root), Filtered(resultDownstream, root))
      && Filtered(resultUpstream, root).Keys == Filtered(resultDownstream, root).Keys
  {
    FilteredExisting(resultUpstream, root, fs);
    FilteredExisting(resultDownstream, root, fs);
    if ProjectTreesExist(projects, fs) {
      ProjectResultsNoSelfEdges(projects, fs);
      PipelineNoSelfEdges(fs, root, results, upstream, downstream, resultUpstream, resultDownstream);
    }
    if SingleSpelling(ResultSpellings(results)) {
      PipelineTransposed(fs, root, results, upstream, downstream, resultUpstream, resultDownstream);
    }
  }

  /** The filter keeps only files under the root; the result graphs hold
      only existing files. */
  lemma FilteredExisting(r: FileGraph, root: string, fs: FileSystem)
    requires forall v | v in r :: v in fs.files && r[v] <= fs.files
    ensures ExistingUnderRoot(Filtered(r, root), root, fs)
  {
  }

  /** When every syntax tree of the solution names an existing file, no
      result depends on its own file. */
  lemma ProjectResultsNoSelfEdges(projects: seq<Option<Compilation>>, fs: FileSystem)
    requires ProjectTreesExist(projects, fs)
    ensures forall i | 0 <= i < |ProjectResults(projects, fs)| ::
              NoSelfEdge(ProjectResults(projects, fs)[i]) && Keyed(ProjectResults(projects, fs)[i].dependsFullPaths)
  {
    var compilations, results := CSharpCompilations(projects), ProjectResults(projects, fs);
    assert forall c | c in compilations :: TreesExist(c.syntaxTrees, fs);
    assert forall i | 0 <= i < |results| :: results[i] in results;
  }

  /** Results without self edges give final graphs without self edges. */
  lemma PipelineNoSelfEdges(fs: FileSystem, root: string,
                            results: seq<AnalyzeResult>, upstream: Graph, downstream: Graph,
                            resultUpstream: FileGraph, resultDownstream: FileGraph)
    requires forall i | 0 <= i < |results| :: NoSelfEdge(results[i]) && Keyed(results[i].dependsFullPaths)
    requires IsUpstreamGraph(upstream, results)
    requires WellKeyed(downstream) && IsTranspose(downstream, upstream)
    requires IsResultGraph(resultUpstream, upstream, fs) && IsResultGraph(resultDownstream, downstream, fs)
    ensures NoSelfEdges(Filtered(resultUpstream, root)) && NoSelfEdges(Filtered(resultDownstream, root))
  {
    UpstreamNoSelfLoops(upstream, results);
    TransposeNoSelfLoops(downstream, upstream);
    ResultNoSelfEdges(resultUpstream, upstream, fs);
    ResultNoSelfEdges(resultDownstream, downstream, fs);
    FilteredNoSelfEdges(resultUpstream, root);
    FilteredNoSelfEdges(resultDownstream, root);
  }

  /** When every file the results mention is spelled one way, the final
      graphs are transposes of each other over the same files. */
  lemma PipelineTransposed(fs: FileSystem, root: string,
                           results: seq<AnalyzeResult>, upstream: Graph, downstream: Graph,
                           resultUpstream: FileGraph, resultDownstream: FileGraph)
    requires SingleSpelling(ResultSpellings(results))
    requires IsUpstreamGraph(upstream, results)
    requires WellKeyed(downstream) && IsTranspose(downstream, upstream)
    requires SpelledFrom(downstream, ResultSpellings(results))
    requires IsResultGraph(resultUpstream, upstream, fs) && IsResultGraph(resultDownstream, downstream, fs)
    ensures Transposed(Filtered(resultUpstream, root), Filtered(resultDownstream, root))
    ensures Filtered(resultUpstream, root).Keys == Filtered(resultDownstream, root).Keys
  {
    UpstreamClosed(upstream, results);
    ResultEdgesOf(resultUpstream, upstream, fs);
    ResultEdgesOf(resultDownstream, downstream, fs);
    TransposeKeys(downstream, upstream);
    BuildersSpelledTranspose(upstream, downstream, ResultSpellings(results));
    ResultGraphsTransposed(upstream, downstream, resultUpstream, resultDownstream, fs);
    FilteredTransposed(resultUpstream, resultDownstream, root);
  }
}
