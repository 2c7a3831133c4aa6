/** DependenciesGraph: the upstream and downstream graphs of a project, keyed
    by the full names of files, with in-place merging and a version-1 stored
    form of root-relative paths. */
module DependenciesGraphs {
  import opened Wrappers
  import opened Text
  import opened IgnoreCase
  import opened Paths
  import opened FileSystem

  /** `Dictionary<FileInfo, HashSet<FileInfo>>`, with every file identified by
      its full name. */
  type FileGraph = map<string, set<string>>

  /** The files `g` lists under `f`; none when `f` has no entry. */
  function Get(g: FileGraph, f: string): set<string>
  {
    if f in g then g[f] else {}
  }

  /** `down` lists `a` under `b` exactly when `up` lists `b` under `a`. */
  predicate Transposed(up: FileGraph, down: FileGraph)
  {
    EdgesKept(up, down) && EdgesKept(down, up)
  }

  /** Every edge `a -> b` of `x` is an edge `b -> a` of `y`. */
  predicate EdgesKept(x: FileGraph, y: FileGraph)
  {
    forall a, b | a in x && b in x[a] :: b in y && a in y[b]
  }

  /** Moving `x` from `remaining` to the part of `all` already done. */
  lemma RemoveOne<T>(all: set<T>, remaining: set<T>, x: T)
    requires remaining <= all && x in remaining
    ensures all - (remaining - {x}) == (all - remaining) + {x}
  {
  }

  // ---------------------------------------------------------------------------
  // Merge

  /** The graph that merging `toMerge` into `existing` leaves: every key of
      either, listing every file either lists under it. */
  function MergeGraphs(existing: FileGraph, toMerge: FileGraph): FileGraph
  {
    map f | f in existing.Keys + toMerge.Keys :: Get(existing, f) + Get(toMerge, f)
  }

  /** The state of the merge loop once the keys in `done` are merged. */
  ghost predicate Merging(r: FileGraph, existing: FileGraph, toMerge: FileGraph, done: set<string>)
  {
    r.Keys == existing.Keys + done
    && forall f | f in r :: r[f] == Get(existing, f) + (if f in done then Get(toMerge, f) else {})
  }

  lemma MergingStep(r: FileGraph, existing: FileGraph, toMerge: FileGraph, done: set<string>, key: string, merged: set<string>)
    requires Merging(r, existing, toMerge, done) && key in toMerge
    requires merged == Get(r, key) + toMerge[key]
    ensures Merging(r[key := merged], existing, toMerge, done + {key})
  {
  }

  lemma MergingDone(r: FileGraph, existing: FileGraph, toMerge: FileGraph)
    requires Merging(r, existing, toMerge, toMerge.Keys)
    ensures r == MergeGraphs(existing, toMerge)
  {
  }

  /** Merging never loses a key or a file, and leaves the entries of keys that
      `toMerge` does not have as they were. */
  lemma MergeKeeps(existing: FileGraph, toMerge: FileGraph)
    ensures forall f | f in existing :: f in MergeGraphs(existing, toMerge) && existing[f] <= MergeGraphs(existing, toMerge)[f]
    ensures forall f | f in existing && f !in toMerge :: MergeGraphs(existing, toMerge)[f] == existing[f]
    ensures forall f | f in toMerge :: f in MergeGraphs(existing, toMerge) && toMerge[f] <= MergeGraphs(existing, toMerge)[f]
  {
  }

  /** Merging a graph whose keys and files are all present already changes
      nothing. */
  lemma MergeAbsorbs(existing: FileGraph, toMerge: FileGraph)
    requires forall f | f in toMerge :: f in existing && toMerge[f] <= existing[f]
    ensures MergeGraphs(existing, toMerge) == existing
  {
    var r := MergeGraphs(existing, toMerge);
    assert r.Keys == existing.Keys;
    forall f | f in r
      ensures r[f] == existing[f]
    {
    }
  }

  /** Merging the same graph twice is merging it once. */
  lemma MergeIdempotent(existing: FileGraph, toMerge: FileGraph)
    ensures MergeGraphs(MergeGraphs(existing, toMerge), toMerge) == MergeGraphs(existing, toMerge)
  {
    MergeKeeps(existing, toMerge);
    MergeAbsorbs(MergeGraphs(existing, toMerge), toMerge);
  }

  /** Merging into an empty graph gives the merged graph itself. */
  lemma MergeIntoEmpty(g: FileGraph)
    ensures MergeGraphs(map[], g) == g
  {
    var r := MergeGraphs(map[], g);
    assert r.Keys == g.Keys;
    forall f | f in r
      ensures r[f] == g[f]
    {
    }
  }

  /** Merging two transposed pairs side by side gives a transposed pair. */
  lemma MergeTransposed(up: FileGraph, down: FileGraph, upToMerge: FileGraph, downToMerge: FileGraph)
    requires Transposed(up, down) && Transposed(upToMerge, downToMerge)
    ensures Transposed(MergeGraphs(up, upToMerge), MergeGraphs(down, downToMerge))
  {
    MergeEdgesKept(up, down, upToMerge, downToMerge);
    MergeEdgesKept(down, up, downToMerge, upToMerge);
  }

  lemma MergeEdgesKept(x: FileGraph, y: FileGraph, xToMerge: FileGraph, yToMerge: FileGraph)
    requires EdgesKept(x, y) && EdgesKept(xToMerge, yToMerge)
    ensures EdgesKept(MergeGraphs(x, xToMerge), MergeGraphs(y, yToMerge))
  {
    var mx, my := MergeGraphs(x, xToMerge), MergeGraphs(y, yToMerge);
    forall a, b | a in mx && b in mx[a]
      ensures b in my && a in my[b]
    {
      if a in x && b in x[a] {
        assert a in y[b];
      } else {
        assert a in yToMerge[b];
      }
    }
  }

  /** Merging `graphs` one after another into an empty graph. */
  function MergeAll(graphs: seq<FileGraph>): FileGraph
  {
    if graphs == [] then map[] else MergeGraphs(MergeAll(graphs[..|graphs| - 1]), graphs[|graphs| - 1])
  }

  /** The merged graph has an entry for `a` exactly when one of the graphs
      has, and lists `b` under it exactly when one of them does. */
  lemma {:induction false} MergeAllEdges(graphs: seq<FileGraph>, a: string, b: string)
    ensures a in MergeAll(graphs) <==> exists i | 0 <= i < |graphs| :: a in graphs[i]
    ensures b in Get(MergeAll(graphs), a) <==> exists i | 0 <= i < |graphs| :: b in Get(graphs[i], a)
  {
    if graphs != [] {
      var n := |graphs| - 1;
      var prefix := graphs[..n];
      MergeAllEdges(prefix, a, b);
      SomeLast(graphs, prefix, (g: FileGraph) => a in g);
      SomeLast(graphs, prefix, (g: FileGraph) => b in Get(g, a));
    }
  }

  /** A property holds of some graph exactly when it holds of one before the
      last, or of the last. */
  lemma SomeLast(graphs: seq<FileGraph>, prefix: seq<FileGraph>, p: FileGraph -> bool)
    requires graphs != [] && prefix == graphs[..|graphs| - 1]
    ensures (exists i | 0 <= i < |graphs| :: p(graphs[i]))
            <==> (exists i | 0 <= i < |prefix| :: p(prefix[i])) || p(graphs[|graphs| - 1])
  {
    var n := |graphs| - 1;
    if exists i | 0 <= i < |graphs| :: p(graphs[i]) {
      var i :| 0 <= i < |graphs| && p(graphs[i]);
      if i < n {
        assert prefix[i] == graphs[i];
      }
    }
    if exists i | 0 <= i < n :: p(prefix[i]) {
      var i :| 0 <= i < n && p(prefix[i]);
      assert graphs[i] == prefix[i];
    }
  }

  /** Merging pairs that are each transposed, one after another from empty
      graphs, gives a transposed pair. */
  lemma {:induction false} MergeAllTransposed(ups: seq<FileGraph>, downs: seq<FileGraph>)
    requires |ups| == |downs|
    requires forall i | 0 <= i < |ups| :: Transposed(ups[i], downs[i])
    ensures Transposed(MergeAll(ups), MergeAll(downs))
  {
    if ups != [] {
      var n := |ups| - 1;
      assert forall i | 0 <= i < n :: ups[..n][i] == ups[i] && downs[..n][i] == downs[i];
      MergeAllTransposed(ups[..n], downs[..n]);
      MergeTransposed(MergeAll(ups[..n]), MergeAll(downs[..n]), ups[n], downs[n]);
    }
  }

  // ---------------------------------------------------------------------------
  // Stored form
  //
  // The lemmas below take the path conversions as parameters: `rel` turns a
  // full name into its stored form and `abs` a stored path back into a full
  // name. The methods pass RelativeTo and AbsoluteTo.

  /** `Path.GetRelativePath(root, path).Replace('\\', '/')` as a function of the
      path. */
  function RelativeTo(p: Platform, root: string): string -> string
  {
    path => Relative(p, root, path)
  }

  /** `new FileInfo(Path.Combine(root, path)).FullName` as a function of the
      path. */
  function AbsoluteTo(p: Platform, root: string): string -> string
  {
    path => Absolute(p, root, path)
  }

  /** The stored form of one graph: for each folded relative path, the
      spelling written and the relative paths listed under it, at most one per
      folded form (`Dictionary<string, List<string>>` and `HashSet<string>`,
      both ignoring case). */
  type Serialized = CiMap<CiSet>

  /** What is written out and read back: each stored key with the paths listed
      under it. */
  function Written(s: Serialized): map<string, set<string>>
    requires KeyedMap(s)
  {
    map k | k in s :: s[k].key := s[k].value.Values
  }

  /** `w` is what `s` writes: each entry's spelling listing its paths. */
  ghost predicate WrittenAs(w: map<string, set<string>>, s: Serialized)
  {
    (forall k | k in s :: s[k].key in w && w[s[k].key] == s[k].value.Values)
    && forall x | x in w :: Fold(x) in s && s[Fold(x)].key == x
  }

  lemma WrittenIs(s: Serialized)
    requires KeyedMap(s)
    ensures WrittenAs(Written(s), s)
  {
  }

  /** The serialised container: format version and both graphs. */
  datatype Container = Container(formatVersion: int, upstream: map<string, set<string>>, downstream: map<string, set<string>>)

  /** `s` holds the stored form of every path of `paths`, each folded form
      once, spelled as one of them. */
  ghost predicate RelativeSet(s: CiSet, rel: string -> string, paths: set<string>)
  {
    Keyed(s)
    && (forall v | v in paths :: Fold(rel(v)) in s)
    && forall k | k in s :: exists v | v in paths :: s[k] == rel(v)
  }

  /** The keys in `done` of `deps` are stored in `s`: every folded stored key
      has an entry, spelled as one of the keys, listing the stored files of
      one of the keys with that folded form. */
  ghost predicate SerializedFrom(s: Serialized, rel: string -> string, deps: FileGraph, done: set<string>)
  {
    KeyedMap(s)
    && (forall f | f in done :: Fold(rel(f)) in s)
    && (forall k | k in s :: exists f | f in deps && f in done :: s[k].key == rel(f))
    && forall k | k in s :: exists f | f in deps && f in done && Fold(rel(f)) == k :: RelativeSet(s[k].value, rel, deps[f])
  }

  lemma RelativeSetStep(s: CiSet, rel: string -> string, done: set<string>, v: string)
    requires RelativeSet(s, rel, done)
    ensures RelativeSet(Add(s, rel(v)), rel, done + {v})
  {
    var r := Add(s, rel(v));
    forall k | k in r
      ensures exists w | w in done + {v} :: r[k] == rel(w)
    {
      if k in s {
        var w :| w in done && s[k] == rel(w);
        assert r[k] == rel(w);
      } else {
        assert r[k] == rel(v);
      }
    }
  }

  lemma SerializedStep(s: Serialized, rel: string -> string, deps: FileGraph, done: set<string>, f: string, values: CiSet)
    requires SerializedFrom(s, rel, deps, done) && f in deps && RelativeSet(values, rel, deps[f])
    ensures SerializedFrom(Put(s, rel(f), values), rel, deps, done + {f})
  {
    var r := Put(s, rel(f), values);
    var kf := Fold(rel(f));
    forall k | k in r
      ensures exists g | g in deps && g in done + {f} :: r[k].key == rel(g)
    {
      if k == kf && kf !in s {
        assert r[k].key == rel(f);
      } else {
        var g :| g in deps && g in done && s[k].key == rel(g);
        assert r[k].key == rel(g);
      }
    }
    forall k | k in r
      ensures exists g | g in deps && g in done + {f} && Fold(rel(g)) == k :: RelativeSet(r[k].value, rel, deps[g])
    {
      if k == kf {
        assert RelativeSet(r[k].value, rel, deps[f]);
      } else {
        var g :| g in deps && g in done && Fold(rel(g)) == k && RelativeSet(s[k].value, rel, deps[g]);
        assert r[k] == s[k];
      }
    }
  }

  /** No two of `paths` have stored forms that differ only in case. */
  predicate FoldDistinct(rel: string -> string, paths: set<string>)
  {
    forall x, y | x in paths && y in paths && Fold(rel(x)) == Fold(rel(y)) :: x == y
  }

  /** Every key written is the stored form of a key of `deps`, and every file
      written under it the stored form of a file `deps` lists under a key with
      the same folded stored form. */
  lemma WrittenFrom(s: Serialized, w: map<string, set<string>>, rel: string -> string, deps: FileGraph, x: string, y: string)
    requires SerializedFrom(s, rel, deps, deps.Keys) && WrittenAs(w, s) && x in w
    ensures exists f | f in deps :: x == rel(f)
    ensures y in w[x] ==> exists f, v | f in deps && v in deps[f] :: Fold(rel(f)) == Fold(x) && y == rel(v)
  {
    var k := Fold(x);
    assert k in s && s[k].key == x;
    StoredKey(s, rel, deps, deps.Keys, k);
    if y in w[x] {
      assert w[x] == s[k].value.Values;
      StoredValues(s, rel, deps, deps.Keys, k);
      var f :| f in deps && Fold(rel(f)) == k && RelativeSet(s[k].value, rel, deps[f]);
      var j :| j in s[k].value && s[k].value[j] == y;
      RelativeSetMember(s[k].value, rel, deps[f], j);
    }
  }

  lemma StoredKey(s: Serialized, rel: string -> string, deps: FileGraph, done: set<string>, k: string)
    requires SerializedFrom(s, rel, deps, done) && k in s
    ensures exists f | f in deps && f in done :: s[k].key == rel(f)
  {
  }

  lemma StoredValues(s: Serialized, rel: string -> string, deps: FileGraph, done: set<string>, k: string)
    requires SerializedFrom(s, rel, deps, done) && k in s
    ensures exists f | f in deps && f in done && Fold(rel(f)) == k :: RelativeSet(s[k].value, rel, deps[f])
  {
  }

  lemma RelativeSetMember(s: CiSet, rel: string -> string, paths: set<string>, j: string)
    requires RelativeSet(s, rel, paths) && j in s
    ensures exists w | w in paths :: s[j] == rel(w)
  {
  }

  /** In a case-distinct set, every path is stored as spelled. */
  lemma RelativeSetExact(s: CiSet, rel: string -> string, paths: set<string>, b: string)
    requires RelativeSet(s, rel, paths) && FoldDistinct(rel, paths) && b in paths
    ensures rel(b) in s.Values
  {
    var j := Fold(rel(b));
    RelativeSetMember(s, rel, paths, j);
    var w :| w in paths && s[j] == rel(w);
    assert Fold(rel(w)) == j;
    assert w == b;
  }

  /** The stored forms of a set of paths. */
  function Image(rel: string -> string, paths: set<string>): (r: set<string>)
    ensures forall x | x in paths :: rel(x) in r
    ensures forall y | y in r :: exists x | x in paths :: y == rel(x)
  {
    set x | x in paths :: rel(x)
  }

  /** Every stored key and file is written with `/`, never `\\`. */
  lemma WrittenForwardSlashes(s: Serialized, p: Platform, root: string, deps: FileGraph)
    requires SerializedFrom(s, RelativeTo(p, root), deps, deps.Keys)
    ensures forall k | k in Written(s) :: '\\' !in k && forall v | v in Written(s)[k] :: '\\' !in v
  {
    WrittenIs(s);
    ForwardSlashesWritten(s, Written(s), p, root, deps);
  }

  lemma ForwardSlashesWritten(s: Serialized, w: map<string, set<string>>, p: Platform, root: string, deps: FileGraph)
    requires SerializedFrom(s, RelativeTo(p, root), deps, deps.Keys) && WrittenAs(w, s)
    ensures forall k | k in w :: '\\' !in k && forall v | v in w[k] :: '\\' !in v
  {
    forall x | x in w
      ensures '\\' !in x && forall v | v in w[x] :: '\\' !in v
    {
      ForwardSlashKey(s, w, p, root, deps, x);
      forall y | y in w[x]
        ensures '\\' !in y
      {
        ForwardSlashFile(s, w, p, root, deps, x, y);
      }
    }
  }

  lemma ForwardSlashKey(s: Serialized, w: map<string, set<string>>, p: Platform, root: string, deps: FileGraph, x: string)
    requires SerializedFrom(s, RelativeTo(p, root), deps, deps.Keys) && WrittenAs(w, s) && x in w
    ensures '\\' !in x
  {
    var rel := RelativeTo(p, root);
    WrittenFrom(s, w, rel, deps, x, x);
    var f :| f in deps && x == rel(f);
    NoBackslash(GetRelativePath(p, root, f));
  }

  lemma ForwardSlashFile(s: Serialized, w: map<string, set<string>>, p: Platform, root: string, deps: FileGraph,
                         x: string, y: string)
    requires SerializedFrom(s, RelativeTo(p, root), deps, deps.Keys) && WrittenAs(w, s) && x in w && y in w[x]
    ensures '\\' !in y
  {
    var rel := RelativeTo(p, root);
    WrittenFrom(s, w, rel, deps, x, y);
    var g, v :| g in deps && v in deps[g] && Fold(rel(g)) == Fold(x) && y == rel(v);
    NoBackslash(GetRelativePath(p, root, v));
  }

  // ---------------------------------------------------------------------------
  // Reading the stored form back

  /** Every stored key and file names a file that exists. */
  predicate Resolves(graph: map<string, set<string>>, abs: string -> string, fs: FileSystem)
  {
    forall k | k in graph :: abs(k) in fs.files && forall v | v in graph[k] :: abs(v) in fs.files
  }

  /** `r` is `graph` read back for the keys in `done`: an entry for the full
      name of each key and nothing else, listing the full name of every file
      stored under a key with that full name and nothing else. */
  ghost predicate ReadBack(r: FileGraph, graph: map<string, set<string>>, abs: string -> string, done: set<string>)
  {
    (forall k | k in graph && k in done :: abs(k) in r)
    && (forall a | a in r :: exists k | k in graph && k in done :: abs(k) == a)
    && (forall k, v | k in graph && k in done && v in graph[k] :: abs(v) in r[abs(k)])
    && (forall a, b | a in r && b in r[a] ::
          exists k, v | k in graph && k in done && v in graph[k] :: abs(k) == a && abs(v) == b)
  }

  /** Every key in `done` and every file listed under it resolves. */
  ghost predicate ResolvedSoFar(graph: map<string, set<string>>, abs: string -> string, fs: FileSystem, done: set<string>)
  {
    forall k | k in graph && k in done :: abs(k) in fs.files && forall v | v in graph[k] :: abs(v) in fs.files
  }

  lemma ResolvedStep(graph: map<string, set<string>>, abs: string -> string, fs: FileSystem, done: set<string>, key: string)
    requires ResolvedSoFar(graph, abs, fs, done) && key in graph
    requires abs(key) in fs.files && forall v | v in graph[key] :: abs(v) in fs.files
    ensures ResolvedSoFar(graph, abs, fs, done + {key})
  {
  }

  lemma ReadBackStep(r: FileGraph, graph: map<string, set<string>>, abs: string -> string, done: set<string>,
                     key: string, values: set<string>)
    requires ReadBack(r, graph, abs, done) && key in graph
    requires forall b :: b in values <==> exists v | v in graph[key] :: abs(v) == b
    ensures ReadBack(r[abs(key) := Get(r, abs(key)) + values], graph, abs, done + {key})
  {
    var r' := r[abs(key) := Get(r, abs(key)) + values];
    ReadBackStepKeys(r, r', graph, abs, done, key, values);
    ReadBackStepEdges(r, r', graph, abs, done, key, values);
    ReadBackStepSources(r, r', graph, abs, done, key, values);
    ReadBackIntro(r', graph, abs, done + {key});
  }

  lemma ReadBackIntro(r: FileGraph, graph: map<string, set<string>>, abs: string -> string, done: set<string>)
    requires forall k | k in graph && k in done :: abs(k) in r
    requires forall a | a in r :: exists k | k in graph && k in done :: abs(k) == a
    requires forall k, v | k in graph && k in done && v in graph[k] :: abs(v) in r[abs(k)]
    requires forall a, b | a in r && b in r[a] ::
               exists k, v | k in graph && k in done && v in graph[k] :: abs(k) == a && abs(v) == b
    ensures ReadBack(r, graph, abs, done)
  {
  }

  lemma ReadBackStepKeys(r: FileGraph, r': FileGraph, graph: map<string, set<string>>, abs: string -> string,
                         done: set<string>, key: string, values: set<string>)
    requires key in graph && r' == r[abs(key) := Get(r, abs(key)) + values]
    requires forall k | k in graph && k in done :: abs(k) in r
    requires forall a | a in r :: exists k | k in graph && k in done :: abs(k) == a
    ensures forall k | k in graph && k in done + {key} :: abs(k) in r'
    ensures forall a | a in r' :: exists k | k in graph && k in done + {key} :: abs(k) == a
  {
    forall a | a in r'
      ensures exists k | k in graph && k in done + {key} :: abs(k) == a
    {
      if a != abs(key) {
        var k :| k in graph && k in done && abs(k) == a;
        assert k in done + {key};
      }
    }
  }

  lemma ReadBackStepEdges(r: FileGraph, r': FileGraph, graph: map<string, set<string>>, abs: string -> string,
                          done: set<string>, key: string, values: set<string>)
    requires key in graph && r' == r[abs(key) := Get(r, abs(key)) + values]
    requires forall k | k in graph && k in done :: abs(k) in r
    requires forall k, v | k in graph && k in done && v in graph[k] :: abs(v) in r[abs(k)]
    requires forall v | v in graph[key] :: abs(v) in values
    ensures forall k, v | k in graph && k in done + {key} && v in graph[k] :: abs(v) in r'[abs(k)]
  {
    forall k, v | k in graph && k in done + {key} && v in graph[k]
      ensures abs(v) in r'[abs(k)]
    {
      if k == key {
        assert abs(v) in values;
      } else {
        assert k in done;
        assert abs(k) in r && abs(v) in r[abs(k)];
        if abs(k) == abs(key) {
          assert r'[abs(k)] == r[abs(k)] + values;
        } else {
          assert r'[abs(k)] == r[abs(k)];
        }
      }
    }
  }

  lemma ReadBackStepSources(r: FileGraph, r': FileGraph, graph: map<string, set<string>>, abs: string -> string,
                            done: set<string>, key: string, values: set<string>)
    requires key in graph && r' == r[abs(key) := Get(r, abs(key)) + values]
    requires forall a, b | a in r && b in r[a] ::
               exists k, v | k in graph && k in done && v in graph[k] :: abs(k) == a && abs(v) == b
    requires forall b | b in values :: exists v | v in graph[key] :: abs(v) == b
    ensures forall a, b | a in r' && b in r'[a] ::
              exists k, v | k in graph && k in done + {key} && v in graph[k] :: abs(k) == a && abs(v) == b
  {
    forall a, b | a in r' && b in r'[a]
      ensures exists k, v | k in graph && k in done + {key} && v in graph[k] :: abs(k) == a && abs(v) == b
    {
      if a == abs(key) && b in values {
        var v :| v in graph[key] && abs(v) == b;
        assert abs(key) == a && abs(v) == b;
      } else {
        assert b in r[a];
        var k, v :| k in graph && k in done && v in graph[k] && abs(k) == a && abs(v) == b;
        assert k in done + {key};
      }
    }
  }

  /** A graph read back names only files that exist. */
  lemma ReadBackExists(r: FileGraph, graph: map<string, set<string>>, abs: string -> string, fs: FileSystem)
    requires Resolves(graph, abs, fs) && ReadBack(r, graph, abs, graph.Keys)
    ensures forall a | a in r :: a in fs.files && r[a] <= fs.files
  {
    forall a | a in r
      ensures a in fs.files && r[a] <= fs.files
    {
      var k :| k in graph && abs(k) == a;
      forall b | b in r[a]
        ensures b in fs.files
      {
        var k', v :| k' in graph && v in graph[k'] && abs(k') == a && abs(v) == b;
      }
    }
  }

  // ---------------------------------------------------------------------------
  // Round trip

  /** `abs` turns the stored form of every key and file of `g` back into it. */
  predicate Inverts(abs: string -> string, rel: string -> string, g: FileGraph)
  {
    forall a | a in g :: abs(rel(a)) == a && forall b | b in g[a] :: abs(rel(b)) == b
  }

  /** Every key and file of `g` survives the stored form (see Reproducible). */
  predicate AllReproducible(p: Platform, root: string, g: FileGraph)
  {
    forall a | a in g :: Reproducible(p, root, a) && forall b | b in g[a] :: Reproducible(p, root, b)
  }

  /** For reproducible files the path conversions invert each other. */
  lemma ReproducibleInverts(p: Platform, root: string, g: FileGraph)
    requires AllReproducible(p, root, g)
    ensures Inverts(AbsoluteTo(p, root), RelativeTo(p, root), g)
  {
    forall a | a in g
      ensures Absolute(p, root, Relative(p, root, a)) == a
      ensures forall b | b in g[a] :: Absolute(p, root, Relative(p, root, b)) == b
    {
      AbsoluteRelative(p, root, a);
      forall b | b in g[a]
        ensures Absolute(p, root, Relative(p, root, b)) == b
      {
        AbsoluteRelative(p, root, b);
      }
    }
  }

  /** Written out and read back, every stored path names a file of `deps`;
      so when all of them exist, reading back succeeds. */
  lemma SerializedResolves(s: Serialized, rel: string -> string, abs: string -> string, deps: FileGraph, fs: FileSystem)
    requires SerializedFrom(s, rel, deps, deps.Keys) && Inverts(abs, rel, deps)
    requires forall a | a in deps :: a in fs.files && deps[a] <= fs.files
    ensures Resolves(Written(s), abs, fs)
  {
    WrittenIs(s);
    ResolvesWritten(s, Written(s), rel, abs, deps, fs);
  }

  lemma ResolvesWritten(s: Serialized, w: map<string, set<string>>, rel: string -> string, abs: string -> string,
                        deps: FileGraph, fs: FileSystem)
    requires SerializedFrom(s, rel, deps, deps.Keys) && WrittenAs(w, s) && Inverts(abs, rel, deps)
    requires forall a | a in deps :: a in fs.files && deps[a] <= fs.files
    ensures Resolves(w, abs, fs)
  {
    forall x | x in w
      ensures abs(x) in fs.files && forall y | y in w[x] :: abs(y) in fs.files
    {
      WrittenFrom(s, w, rel, deps, x, x);
      forall y | y in w[x]
        ensures abs(y) in fs.files
      {
        WrittenFrom(s, w, rel, deps, x, y);
      }
    }
  }

  /** Serialising a graph and reading it back gives the same graph, when the
      path conversions invert each other on its files and no two of them have
      stored forms that differ only in case. */
  lemma RoundTrip(s: Serialized, r: FileGraph, rel: string -> string, abs: string -> string, g: FileGraph)
    requires Inverts(abs, rel, g)
    requires FoldDistinct(rel, g.Keys) && forall a | a in g :: FoldDistinct(rel, g[a])
    requires SerializedFrom(s, rel, g, g.Keys)
    requires ReadBack(r, Written(s), abs, Written(s).Keys)
    ensures r == g
  {
    WrittenIs(s);
    RoundTripWritten(s, Written(s), r, rel, abs, g);
  }

  lemma RoundTripWritten(s: Serialized, w: map<string, set<string>>, r: FileGraph, rel: string -> string,
                         abs: string -> string, g: FileGraph)
    requires Inverts(abs, rel, g)
    requires FoldDistinct(rel, g.Keys) && forall a | a in g :: FoldDistinct(rel, g[a])
    requires SerializedFrom(s, rel, g, g.Keys) && WrittenAs(w, s)
    requires ReadBack(r, w, abs, w.Keys)
    ensures r == g
  {
    EntriesReadBack(s, w, r, rel, abs, g);
    KeysReadBack(s, w, r, rel, abs, g);
    SameGraph(r, g);
  }

  lemma EntriesReadBack(s: Serialized, w: map<string, set<string>>, r: FileGraph, rel: string -> string,
                        abs: string -> string, g: FileGraph)
    requires Inverts(abs, rel, g)
    requires FoldDistinct(rel, g.Keys) && forall a | a in g :: FoldDistinct(rel, g[a])
    requires SerializedFrom(s, rel, g, g.Keys) && WrittenAs(w, s)
    requires ReadBack(r, w, abs, w.Keys)
    ensures forall a | a in g :: a in r && r[a] == g[a]
  {
    forall a | a in g
      ensures a in r && r[a] == g[a]
    {
      EntryReadBack(s, w, r, rel, abs, g, a);
    }
  }

  lemma KeysReadBack(s: Serialized, w: map<string, set<string>>, r: FileGraph, rel: string -> string,
                     abs: string -> string, g: FileGraph)
    requires Inverts(abs, rel, g)
    requires SerializedFrom(s, rel, g, g.Keys) && WrittenAs(w, s)
    requires ReadBack(r, w, abs, w.Keys)
    ensures r.Keys <= g.Keys
  {
    forall a | a in r
      ensures a in g
    {
      var k := ReadBackKey(r, w, abs, a);
      var f := WrittenKey(s, w, rel, g, k);
    }
  }

  lemma SameGraph(r: FileGraph, g: FileGraph)
    requires forall a | a in g :: a in r && r[a] == g[a]
    requires r.Keys <= g.Keys
    ensures r == g
  {
  }

  /** Each entry of the graph written is read back whole. */
  lemma EntryReadBack(s: Serialized, w: map<string, set<string>>, r: FileGraph, rel: string -> string,
                      abs: string -> string, g: FileGraph, a: string)
    requires Inverts(abs, rel, g)
    requires FoldDistinct(rel, g.Keys) && a in g && FoldDistinct(rel, g[a])
    requires SerializedFrom(s, rel, g, g.Keys) && WrittenAs(w, s)
    requires ReadBack(r, w, abs, w.Keys)
    ensures a in r && r[a] == g[a]
  {
    EntryCovered(s, w, r, rel, abs, g, a);
    EntryNothingAdded(s, w, r, rel, abs, g, a);
    SameSet(r[a], g[a]);
  }

  lemma EntryCovered(s: Serialized, w: map<string, set<string>>, r: FileGraph, rel: string -> string,
                     abs: string -> string, g: FileGraph, a: string)
    requires Inverts(abs, rel, g)
    requires FoldDistinct(rel, g.Keys) && a in g && FoldDistinct(rel, g[a])
    requires SerializedFrom(s, rel, g, g.Keys) && WrittenAs(w, s)
    requires ReadBack(r, w, abs, w.Keys)
    ensures a in r && g[a] <= r[a]
  {
    StoredEntry(s, w, rel, g, a);
    EntryKept(w, r, rel, abs, g, a);
  }

  lemma EntryKept(w: map<string, set<string>>, r: FileGraph, rel: string -> string,
                  abs: string -> string, g: FileGraph, a: string)
    requires Inverts(abs, rel, g) && a in g
    requires rel(a) in w && Image(rel, g[a]) <= w[rel(a)]
    requires ReadBack(r, w, abs, w.Keys)
    ensures a in r && g[a] <= r[a]
  {
    ReadBackHas(r, w, abs, rel(a), rel(a));
    forall b | b in g[a]
      ensures b in r[a]
    {
      assert rel(b) in Image(rel, g[a]);
      ReadBackHas(r, w, abs, rel(a), rel(b));
    }
  }

  lemma EntryNothingAdded(s: Serialized, w: map<string, set<string>>, r: FileGraph, rel: string -> string,
                          abs: string -> string, g: FileGraph, a: string)
    requires Inverts(abs, rel, g) && FoldDistinct(rel, g.Keys) && a in g
    requires SerializedFrom(s, rel, g, g.Keys) && WrittenAs(w, s)
    requires ReadBack(r, w, abs, w.Keys)
    ensures a in r ==> r[a] <= g[a]
  {
    forall b | a in r && b in r[a]
      ensures b in g[a]
    {
      var k, v := ReadBackSource(r, w, abs, a, b);
      var f, f', x := WrittenEdge(s, w, rel, g, k, v);
      SameKey(rel, abs, g, a, f, f');
    }
  }

  lemma SameSet(x: set<string>, y: set<string>)
    requires x <= y && y <= x
    ensures x == y
  {
  }

  /** What ReadBack says of one stored edge. */
  lemma ReadBackHas(r: FileGraph, w: map<string, set<string>>, abs: string -> string, k: string, v: string)
    requires ReadBack(r, w, abs, w.Keys) && k in w
    ensures abs(k) in r
    ensures v in w[k] ==> abs(v) in r[abs(k)]
  {
  }

  /** A key read back comes from a stored key. */
  lemma ReadBackKey(r: FileGraph, w: map<string, set<string>>, abs: string -> string, a: string) returns (k: string)
    requires ReadBack(r, w, abs, w.Keys) && a in r
    ensures k in w && abs(k) == a
  {
    k :| k in w && abs(k) == a;
  }

  /** An edge read back comes from a stored edge. */
  lemma ReadBackSource(r: FileGraph, w: map<string, set<string>>, abs: string -> string, a: string, b: string)
    returns (k: string, v: string)
    requires ReadBack(r, w, abs, w.Keys) && a in r && b in r[a]
    ensures k in w && v in w[k] && abs(k) == a && abs(v) == b
  {
    k, v :| k in w && v in w[k] && abs(k) == a && abs(v) == b;
  }

  /** A stored key is the stored form of a file of the graph. */
  lemma WrittenKey(s: Serialized, w: map<string, set<string>>, rel: string -> string, g: FileGraph, k: string)
    returns (f: string)
    requires SerializedFrom(s, rel, g, g.Keys) && WrittenAs(w, s) && k in w
    ensures f in g && k == rel(f)
  {
    WrittenFrom(s, w, rel, g, k, k);
    f :| f in g && k == rel(f);
  }

  /** A stored edge is the stored form of an edge of the graph, listed under
      a file whose stored form differs from the key at most in case. */
  lemma WrittenEdge(s: Serialized, w: map<string, set<string>>, rel: string -> string, g: FileGraph, k: string, v: string)
    returns (f: string, f': string, x: string)
    requires SerializedFrom(s, rel, g, g.Keys) && WrittenAs(w, s) && k in w && v in w[k]
    ensures f in g && f' in g && x in g[f]
    ensures Fold(rel(f)) == Fold(k) && k == rel(f') && v == rel(x)
  {
    f' := WrittenKey(s, w, rel, g, k);
    WrittenFrom(s, w, rel, g, k, v);
    f, x :| f in g && x in g[f] && Fold(rel(f)) == Fold(k) && v == rel(x);
  }

  lemma SameKey(rel: string -> string, abs: string -> string, g: FileGraph, a: string, f: string, f': string)
    requires Inverts(abs, rel, g) && FoldDistinct(rel, g.Keys)
    requires f in g && f' in g && Fold(rel(f)) == Fold(rel(f')) && abs(rel(f')) == a
    ensures f == a
  {
  }

  /** The stored entry of a key of a case-distinct graph is spelled as that
      key and lists the stored form of each of its files. */
  lemma StoredEntry(s: Serialized, w: map<string, set<string>>, rel: string -> string, g: FileGraph, a: string)
    requires FoldDistinct(rel, g.Keys) && a in g && FoldDistinct(rel, g[a])
    requires SerializedFrom(s, rel, g, g.Keys) && WrittenAs(w, s)
    ensures rel(a) in w && Image(rel, g[a]) <= w[rel(a)]
  {
    var k := Fold(rel(a));
    StoredKey(s, rel, g, g.Keys, k);
    var f :| f in g && s[k].key == rel(f);
    assert Fold(rel(f)) == k;
    assert f == a;
    StoredValues(s, rel, g, g.Keys, k);
    var f' :| f' in g && Fold(rel(f')) == k && RelativeSet(s[k].value, rel, g[f']);
    assert f' == a;
    forall b | b in g[a]
      ensures rel(b) in s[k].value.Values
    {
      RelativeSetExact(s[k].value, rel, g[a], b);
    }
    assert w[rel(a)] == s[k].value.Values;
  }

  // ---------------------------------------------------------------------------
  // The graph object

  class DependenciesGraph {
    /** `_projectRoot`, returned by GetRoot. */
    const root: string
    var upstream: FileGraph
    var downstream: FileGraph

    constructor (root: string, upstream: FileGraph, downstream: FileGraph)
      ensures this.root == root && this.upstream == upstream && this.downstream == downstream
    {
      this.root := root;
      this.upstream := upstream;
      this.downstream := downstream;
    }

    /** `Merge(graphToMerge)`: both graphs of `other` are merged into this
        one's. */
    method Merge(other: DependenciesGraph)
      modifies this
      ensures upstream == MergeGraphs(old(upstream), old(other.upstream))
      ensures downstream == MergeGraphs(old(downstream), old(other.downstream))
    {
      var up := MergeInto(upstream, other.upstream);
      var down := MergeInto(downstream, other.downstream);
      upstream, downstream := up, down;
    }

    /** `Merge(existing, toMerge)`: a key of `toMerge` already present gets
        the files it does not list yet; a new key is added with its files. */
    static method MergeInto(existing: FileGraph, toMerge: FileGraph) returns (r: FileGraph)
      ensures r == MergeGraphs(existing, toMerge)
    {
      r := existing;
      var remaining := toMerge.Keys;
      while remaining != {}
        invariant remaining <= toMerge.Keys
        invariant Merging(r, existing, toMerge, toMerge.Keys - remaining)
        decreases remaining
      {
        var key :| key in remaining;
        var values := toMerge[key];
        ghost var old_r := r;
        if key in r {
          var existingValues := r[key];
          var rest := values;
          while rest != {}
            invariant rest <= values
            invariant existingValues == r[key] + (values - rest)
            decreases rest
          {
            var value :| value in rest;
            if value !in existingValues {
              existingValues := existingValues + {value};
            }
            rest := rest - {value};
          }
          r := r[key := existingValues];
        } else {
          r := r[key := values];
        }
        MergingStep(old_r, existing, toMerge, toMerge.Keys - remaining, key, r[key]);
        RemoveOne(toMerge.Keys, remaining, key);
        remaining := remaining - {key};
      }
      assert toMerge.Keys - remaining == toMerge.Keys;
      MergingDone(r, existing, toMerge);
    }

    /** `Serialize`: format version 1 and both graphs in stored form, relative
        to the root's full name. */
    method Serialize(p: Platform) returns (c: Container, ghost up: Serialized, ghost down: Serialized)
      ensures KeyedMap(up) && KeyedMap(down)
      ensures c == Container(1, Written(up), Written(down))
      ensures SerializedFrom(up, RelativeTo(p, FullName(p, root)), upstream, upstream.Keys)
      ensures SerializedFrom(down, RelativeTo(p, FullName(p, root)), downstream, downstream.Keys)
    {
      var dir := FullName(p, root);
      var u := SerializeDependencies(p, dir, upstream);
      var d := SerializeDependencies(p, dir, downstream);
      up, down := u, d;
      c := Container(1, Written(u), Written(d));
    }

    /** `SerializeDependencies`: each key becomes its relative path with `/`,
        its files a case-insensitive set of theirs. A key whose relative path
        differs only in case from one stored earlier keeps the earlier
        spelling and replaces the files listed. */
    static method SerializeDependencies(p: Platform, root: string, deps: FileGraph) returns (r: Serialized)
      ensures SerializedFrom(r, RelativeTo(p, root), deps, deps.Keys)
    {
      r := map[];
      var remaining := deps.Keys;
      while remaining != {}
        invariant remaining <= deps.Keys
        invariant SerializedFrom(r, RelativeTo(p, root), deps, deps.Keys - remaining)
        decreases remaining
      {
        var key :| key in remaining;
        var keyRelativePath := Relative(p, root, key);
        var values: CiSet := EmptySet;
        var rest := deps[key];
        while rest != {}
          invariant rest <= deps[key]
          invariant RelativeSet(values, RelativeTo(p, root), deps[key] - rest)
          decreases rest
        {
          var value :| value in rest;
          RelativeSetStep(values, RelativeTo(p, root), deps[key] - rest, value);
          values := Add(values, Relative(p, root, value));
          RemoveOne(deps[key], rest, value);
          rest := rest - {value};
        }
        assert deps[key] - rest == deps[key];
        SerializedStep(r, RelativeTo(p, root), deps, deps.Keys - remaining, key, values);
        r := Put(r, keyRelativePath, values);
        RemoveOne(deps.Keys, remaining, key);
        remaining := remaining - {key};
      }
      assert deps.Keys - remaining == deps.Keys;
    }

    /** `TryDeserialize`: nothing unless the root exists, the container is
        present with format version 1 and both graphs read back. */
    static method TryDeserialize(json: Option<Container>, p: Platform, projectRoot: string, fs: FileSystem)
      returns (graph: DependenciesGraph?)
      ensures graph != null <==>
                FullName(p, projectRoot) in fs.directories && json.Some? && json.value.formatVersion == 1
                && Resolves(json.value.upstream, AbsoluteTo(p, FullName(p, projectRoot)), fs)
                && Resolves(json.value.downstream, AbsoluteTo(p, FullName(p, projectRoot)), fs)
      ensures graph != null ==>
                fresh(graph) && graph.root == FullName(p, projectRoot)
                && ReadBack(graph.upstream, json.value.upstream, AbsoluteTo(p, graph.root), json.value.upstream.Keys)
                && ReadBack(graph.downstream, json.value.downstream, AbsoluteTo(p, graph.root), json.value.downstream.Keys)
    {
      var actualProjectRoot := FullName(p, projectRoot);
      if actualProjectRoot !in fs.directories {
        return null;
      }
      if json.None? || json.value.formatVersion != 1 {
        return null;
      }
      FullNameIdempotent(p, projectRoot);
      var upstream := TryDeserializeGraph(json.value.upstream, p, actualProjectRoot, fs);
      if upstream.None? {
        return null;
      }
      var downstream := TryDeserializeGraph(json.value.downstream, p, actualProjectRoot, fs);
      if downstream.None? {
        return null;
      }
      graph := new DependenciesGraph(actualProjectRoot, upstream.value, downstream.value);
    }

    /** The inner loop of `TryDeserializeGraph`: the full names of the files
        listed under one key, or nothing as soon as one does not exist. */
    static method TryReadFiles(files: set<string>, p: Platform, root: string, fs: FileSystem)
      returns (result: Option<set<string>>)
      ensures result.Some? <==> forall v | v in files :: Absolute(p, root, v) in fs.files
      ensures result.Some? ==> forall b :: b in result.value <==> exists v | v in files :: Absolute(p, root, v) == b
    {
      var values: set<string> := {};
      var rest := files;
      while rest != {}
        invariant rest <= files
        invariant forall v | v in files && v !in rest :: Absolute(p, root, v) in fs.files
        invariant forall b :: b in values <==> exists v | v in files && v !in rest :: Absolute(p, root, v) == b
        decreases rest
      {
        var relativeValue :| relativeValue in rest;
        var value := Absolute(p, root, relativeValue);
        if value !in fs.files {
          return None;
        }
        values := values + {value};
        rest := rest - {relativeValue};
      }
      return Some(values);
    }

    /** `TryDeserializeGraph`: fails as soon as one key or file does not
        exist, so no partial graph is ever returned. */
    static method TryDeserializeGraph(graph: map<string, set<string>>, p: Platform, projectRoot: string, fs: FileSystem)
      returns (result: Option<FileGraph>)
      ensures result.Some? <==>
                FullName(p, projectRoot) in fs.directories && Resolves(graph, AbsoluteTo(p, FullName(p, projectRoot)), fs)
      ensures result.Some? ==> ReadBack(result.value, graph, AbsoluteTo(p, FullName(p, projectRoot)), graph.Keys)
    {
      var root := FullName(p, projectRoot);
      if root !in fs.directories {
        return None;
      }
      var resultAccumulator: FileGraph := map[];
      var remaining := graph.Keys;
      while remaining != {}
        invariant remaining <= graph.Keys
        invariant ResolvedSoFar(graph, AbsoluteTo(p, root), fs, graph.Keys - remaining)
        invariant ReadBack(resultAccumulator, graph, AbsoluteTo(p, root), graph.Keys - remaining)
        decreases remaining
      {
        var relativeKey :| relativeKey in remaining;
        var key := Absolute(p, root, relativeKey);
        if key !in fs.files {
          return None;
        }
        var read := TryReadFiles(graph[relativeKey], p, root, fs);
        if read.None? {
          return None;
        }
        var values := read.value;
        ResolvedStep(graph, AbsoluteTo(p, root), fs, graph.Keys - remaining, relativeKey);
        ReadBackStep(resultAccumulator, graph, AbsoluteTo(p, root), graph.Keys - remaining, relativeKey, values);
        // in the source every key read back is a new `FileInfo`, compared by
        // reference, so a second key naming the same file makes a separate
        // entry; files are identified here by full name, so the two are joined
        resultAccumulator := resultAccumulator[key := Get(resultAccumulator, key) + values];
        RemoveOne(graph.Keys, remaining, relativeKey);
        remaining := remaining - {relativeKey};
      }
      assert graph.Keys - remaining == graph.Keys;
      return Some(resultAccumulator);
    }
  }
}
