/** ProjectAnalyzer: the table of contents (toc) that names the result file of
    every project file, the removal of stale result files, and the queue of
    files still to analyze with their dependencies. */
module ProjectAnalyzer {
  import opened Wrappers
  import opened Text
  import opened Paths
  import opened FileSystem
  import opened Sorting
  import opened FileInfoExtensions
  import opened StaticProject
  import opened DependenciesGraphs

  /** `Dictionary<string, string>` with the default, ordinal, comparer: the
      relative path of a project file to the name of its result file. */
  type Toc = map<string, string>

  /** `FileSystemConstants.ContextLeechRootDirectory`. */
  const ContextLeechRootDirectory := ".context-leech"
  const TocFileName := "toc.json"
  const ResultsSubDirectory := "results"
  /** The extension of a result file, and the pattern `*.json` of the cleanup. */
  const ResultExtension := ".json"

  /** `ProjectMetadata`: a project and its dependencies graph. */
  datatype ProjectMetadata = ProjectMetadata(project: Project, graph: DependenciesGraph)

  /** `AnalysisQueuedFile`: a file to analyze, the file its result goes to,
      and the files it depends on and that depend on it. */
  datatype QueuedFile = QueuedFile(file: string, result: string, upstream: seq<string>, downstream: seq<string>)

  /** Why the queue cannot be built: a file outside the root, or a relative
      path the toc has no entry for (`KeyNotFoundException`). */
  datatype QueueError = Outside(error: RelativePathError) | KeyNotFound(key: string)

  /** The full name of `root/.context-leech/<contextDirectory>/<last>`. */
  function ContextPath(p: Platform, root: string, contextDirectory: string, last: string): string
  {
    FullName(p, Combine(p, Combine(p, Combine(p, root, ContextLeechRootDirectory), contextDirectory), last))
  }

  // ---------------------------------------------------------------------------
  // The toc

  /** `CreateToc`: every file's relative path maps to the fresh name
      `guids[i] + ".json"`; a later file with the same relative path wins. It
      fails on the first file outside the root. */
  function CreatedToc(p: Platform, root: string, files: seq<string>, guids: seq<string>): (r: Result<Toc, RelativePathError>)
    requires |guids| == |files|
    ensures r.Success? <==> forall i | 0 <= i < |files| :: StartsWith(files[i], root)
    ensures r.Success? ==> r.value.Keys == set i | 0 <= i < |files| :: Relative(p, root, files[i])
    ensures r.Success? ==> forall k | k in r.value :: exists i | 0 <= i < |files| :: r.value[k] == guids[i] + ResultExtension
    ensures r.Failure? ==> FirstOutside(root, files) < |files|
                           && r.error == FileOutsideProject(files[FirstOutside(root, files)])
    decreases |files|
  {
    if files == [] then Success(map[])
    else
      var n := |files| - 1;
      assert forall i | 0 <= i < n :: files[..n][i] == files[i] && guids[..n][i] == guids[i];
      match CreatedToc(p, root, files[..n], guids[..n])
      case Failure(e) =>
        FirstOutsideIs(root, files, FirstOutside(root, files[..n]));
        Failure(e)
      case Success(toc) =>
        match ProjectRelativePath(p, files[n], root)
        case Failure(e) =>
          FirstOutsideIs(root, files, n);
          Failure(e)
        case Success(rel) =>
          var r := toc[rel := guids[n] + ResultExtension];
          CreatedTocStep(p, root, files, guids, toc);
          Success(r)
  }

  /** Adding the last file to the toc of the others. */
  lemma CreatedTocStep(p: Platform, root: string, files: seq<string>, guids: seq<string>, toc: Toc)
    requires |guids| == |files| && files != [] && StartsWith(files[|files| - 1], root)
    requires var n := |files| - 1;
             && (forall i | 0 <= i < n :: StartsWith(files[i], root))
             && toc.Keys == (set i | 0 <= i < n :: Relative(p, root, files[..n][i]))
             && forall k | k in toc :: exists i | 0 <= i < n :: toc[k] == guids[..n][i] + ResultExtension
    ensures var n := |files| - 1;
            var r := toc[Relative(p, root, files[n]) := guids[n] + ResultExtension];
            && (forall i | 0 <= i < |files| :: StartsWith(files[i], root))
            && r.Keys == (set i | 0 <= i < |files| :: Relative(p, root, files[i]))
            && forall k | k in r :: exists i | 0 <= i < |files| :: r[k] == guids[i] + ResultExtension
  {
    var n := |files| - 1;
    var r := toc[Relative(p, root, files[n]) := guids[n] + ResultExtension];
    assert forall i | 0 <= i < n :: files[..n][i] == files[i];
    KeysOfLast(p, root, files, files[..n], toc.Keys);
    forall k | k in r ensures exists i | 0 <= i < |files| :: r[k] == guids[i] + ResultExtension {
      if k != Relative(p, root, files[n]) {
        var i :| 0 <= i < n && toc[k] == guids[..n][i] + ResultExtension;
        assert r[k] == guids[i] + ResultExtension;
      }
    }
  }

  lemma KeysOfLast(p: Platform, root: string, files: seq<string>, init: seq<string>, keys: set<string>)
    requires files != [] && init == files[..|files| - 1]
    requires keys == set i | 0 <= i < |init| :: Relative(p, root, init[i])
    ensures keys + {Relative(p, root, files[|files| - 1])} == set i | 0 <= i < |files| :: Relative(p, root, files[i])
  {
    var f := file => Relative(p, root, file);
    assert keys == set i | 0 <= i < |init| :: f(init[i]);
    ImageOfLast(f, files, init);
    assert (set i | 0 <= i < |files| :: f(files[i])) == set i | 0 <= i < |files| :: Relative(p, root, files[i]);
  }

  lemma ImageOfLast<T>(f: string -> T, files: seq<string>, init: seq<string>)
    requires files != [] && init == files[..|files| - 1]
    ensures (set i | 0 <= i < |init| :: f(init[i])) + {f(files[|files| - 1])} == set i | 0 <= i < |files| :: f(files[i])
  {
    var n := |files| - 1;
    var image := set i | 0 <= i < |files| :: f(files[i]);
    forall k | k in image
      ensures k in (set i | 0 <= i < |init| :: f(init[i])) + {f(files[n])}
    {
      var i :| 0 <= i < |files| && k == f(files[i]);
      if i < n {
        assert init[i] == files[i];
      }
    }
  }

  /** `CreateToc` stops at the first file outside the root. */
  lemma CreatedTocFails(p: Platform, root: string, files: seq<string>, guids: seq<string>, i: nat)
    requires |guids| == |files| && i < |files| && !StartsWith(files[i], root)
    requires forall k | 0 <= k < i :: StartsWith(files[k], root)
    ensures CreatedToc(p, root, files, guids) == Failure(FileOutsideProject(files[i]))
  {
    FirstOutsideIs(root, files, i);
  }

  /** `TryReadExistingToc` after the toc file was found and parsed (`parsed`
      is none when the text holds `null`): the entries whose file exists
      under the root, or none when the toc file is missing, the text is
      `null`, or no entry survives. */
  function ExistingToc(p: Platform, fs: FileSystem, root: string, tocFile: string, parsed: Option<Toc>): (r: Option<Toc>)
    ensures r.Some? <==> tocFile in fs.files && parsed.Some?
                         && exists k | k in parsed.value :: Absolute(p, root, k) in fs.files
    ensures r.Some? ==> forall k | k in parsed.value ::
                          (k in r.value <==> Absolute(p, root, k) in fs.files)
                          && (k in r.value ==> r.value[k] == parsed.value[k])
    ensures r.Some? ==> r.value.Keys <= parsed.value.Keys
  {
    if tocFile !in fs.files || parsed.None? then None
    else
      var kept := Kept(p, fs, root, parsed.value);
      KeptNonEmpty(p, fs, root, parsed.value);
      if |kept| > 0 then Some(kept) else None
  }

  /** Some entry survives exactly when some entry's file exists. */
  lemma KeptNonEmpty(p: Platform, fs: FileSystem, root: string, toc: Toc)
    ensures |Kept(p, fs, root, toc)| > 0 <==> exists k | k in toc :: Absolute(p, root, k) in fs.files
  {
    var kept := Kept(p, fs, root, toc);
    if |kept| > 0 {
      var k :| k in kept;
      assert k in toc && Absolute(p, root, k) in fs.files;
    }
    if exists k | k in toc :: Absolute(p, root, k) in fs.files {
      var k :| k in toc && Absolute(p, root, k) in fs.files;
      assert k in kept;
    }
  }

  /** The entries of `toc` whose file exists under the root. */
  function Kept(p: Platform, fs: FileSystem, root: string, toc: Toc): (r: Toc)
  {
    map k | k in toc && Absolute(p, root, k) in fs.files :: toc[k]
  }

  /** `InitToc`'s merge: every key of the new toc keeps its key and takes the
      name the existing toc has for it, if any. */
  function Reconciled(created: Toc, existing: Option<Toc>): (r: Toc)
    ensures r.Keys == created.Keys
    ensures forall k | k in r :: r[k] == (if existing.Some? && k in existing.value then existing.value[k] else created[k])
  {
    if existing.None? then created
    else map k | k in created :: if k in existing.value then existing.value[k] else created[k]
  }

  /** `*.json` as `EnumerateFiles` matches it: ignoring case on Windows. */
  predicate IsJsonName(p: Platform, name: string)
  {
    if p.Windows? then EndsWithIgnoreCase(name, ResultExtension) else EndsWith(name, ResultExtension)
  }

  /** The files directly inside `dir` whose name matches `*.json`. */
  function ResultFiles(p: Platform, fs: FileSystem, dir: string): set<string>
  {
    set f | f in fs.files && DirectoryName(p, f) == Some(dir) && IsJsonName(p, FileName(p, f))
  }

  /** The files the cleanup deletes: the result files whose name is not a
      value of the toc (compared ordinally). */
  function Stale(p: Platform, fs: FileSystem, dir: string, toc: Toc): (r: set<string>)
    ensures forall f :: f in r <==> f in ResultFiles(p, fs, dir) && FileName(p, f) !in toc.Values
  {
    set f | f in ResultFiles(p, fs, dir) && FileName(p, f) !in toc.Values
  }

  /** The file system after the cleanup: nothing is deleted when the results
      directory does not exist. */
  function CleanedUp(p: Platform, fs: FileSystem, dir: string, toc: Toc): FileSystem
  {
    if dir in fs.directories then fs.(files := fs.files - Stale(p, fs, dir, toc)) else fs
  }

  /** What `InitToc` produces: the reconciled toc and the file system after
      the cleanup. */
  function InitializedToc(p: Platform, fs: FileSystem, root: string, files: seq<string>, contextDirectory: string,
                          guids: seq<string>, parsed: Option<Toc>): Result<(Toc, FileSystem), RelativePathError>
    requires |guids| == |files|
  {
    match CreatedToc(p, root, files, guids)
    case Failure(e) => Failure(e)
    case Success(created) =>
      var existing := ExistingToc(p, fs, root, ContextPath(p, root, contextDirectory, TocFileName), parsed);
      var toc := Reconciled(created, existing);
      var dir := ContextPath(p, root, contextDirectory, ResultsSubDirectory);
      Success((toc, CleanedUp(p, fs, dir, toc)))
  }

  /** `CreateToc`, with `guids` the names `Guid.CreateVersion7()` gives, one
      per file. */
  method CreateToc(p: Platform, metadata: ProjectMetadata, guids: seq<string>) returns (r: Result<Toc, RelativePathError>)
    requires |guids| == |metadata.project.files|
    ensures r == CreatedToc(p, metadata.project.root, metadata.project.files, guids)
  {
    var files := metadata.project.files;
    var root := metadata.project.GetRoot();
    var toc: Toc := map[];
    var i := 0;
    while i < |files|
      invariant 0 <= i <= |files|
      invariant CreatedToc(p, root, files[..i], guids[..i]) == Success(toc)
    {
      var path := ProjectRelativePath(p, files[i], root);
      if path.Failure? {
        assert forall k | 0 <= k < i :: files[..i][k] == files[k];
        CreatedTocFails(p, root, files, guids, i);
        return Failure(path.error);
      }
      CreatedTocSnoc(p, root, files, guids, i, toc);
      toc := toc[path.value := guids[i] + ResultExtension];
      i := i + 1;
    }
    assert files[..i] == files && guids[..i] == guids;
    return Success(toc);
  }

  lemma CreatedTocSnoc(p: Platform, root: string, files: seq<string>, guids: seq<string>, i: nat, toc: Toc)
    requires |guids| == |files| && i < |files| && StartsWith(files[i], root)
    requires CreatedToc(p, root, files[..i], guids[..i]) == Success(toc)
    ensures CreatedToc(p, root, files[..i + 1], guids[..i + 1]) == Success(toc[Relative(p, root, files[i]) := guids[i] + ResultExtension])
  {
    assert files[..i + 1][..i] == files[..i] && guids[..i + 1][..i] == guids[..i];
  }

  /** `TryReadExistingToc`: the toc file's presence is looked up, its parsed
      text is `parsed`, and every entry is kept whose file exists. */
  method TryReadExistingToc(p: Platform, fs: FileSystem, metadata: ProjectMetadata, contextDirectory: string,
                            parsed: Option<Toc>) returns (r: Option<Toc>)
    ensures r == ExistingToc(p, fs, metadata.project.root, ContextPath(p, metadata.project.root, contextDirectory, TocFileName), parsed)
  {
    var root := metadata.project.GetRoot();
    var tocFile := ContextPath(p, root, contextDirectory, TocFileName);
    if tocFile !in fs.files || parsed.None? {
      return None;
    }
    var toc := parsed.value;
    var kept: Toc := map[];
    var remaining := toc.Keys;
    while remaining != {}
      invariant remaining <= toc.Keys
      invariant forall k | k in toc && k !in remaining :: (k in kept <==> Absolute(p, root, k) in fs.files)
      invariant forall k | k in kept :: k in toc && k !in remaining && kept[k] == toc[k]
      decreases remaining
    {
      var k :| k in remaining;
      if Absolute(p, root, k) in fs.files {
        kept := kept[k := toc[k]];
      }
      remaining := remaining - {k};
    }
    assert kept == Kept(p, fs, root, toc);
    if |kept| > 0 {
      return Some(kept);
    }
    return None;
  }

  /** `InitToc`'s merge, overwriting the new toc's entries in place. */
  method Reconcile(created: Toc, existing: Option<Toc>) returns (toc: Toc)
    ensures toc == Reconciled(created, existing)
  {
    toc := created;
    if existing.None? {
      return;
    }
    var keys := created.Keys;
    while keys != {}
      invariant keys <= created.Keys && toc.Keys == created.Keys
      invariant forall k | k in toc :: toc[k] == (if k !in keys && k in existing.value then existing.value[k] else created[k])
      decreases keys
    {
      var k :| k in keys;
      if k in existing.value {
        toc := toc[k := existing.value[k]];
      }
      keys := keys - {k};
    }
    assert toc == Reconciled(created, existing);
  }

  /** `InitToc`'s cleanup: every `*.json` file directly in the results
      directory whose name is not a value of the toc is deleted. */
  method Cleanup(p: Platform, fs: FileSystem, dir: string, toc: Toc) returns (after: FileSystem)
    ensures after == CleanedUp(p, fs, dir, toc)
  {
    after := fs;
    if dir !in fs.directories {
      return;
    }
    var names := toc.Values;
    var results := ResultFiles(p, fs, dir);
    ghost var all := results;
    ghost var stale := Stale(p, fs, dir, toc);
    var deleted: set<string> := {};
    while results != {}
      invariant results <= all
      invariant forall g | g in deleted :: g in stale && g !in results
      invariant forall g | g in stale && g !in results :: g in deleted
      decreases results
    {
      var f :| f in results;
      if FileName(p, f) !in names {
        deleted := deleted + {f};
      }
      results := results - {f};
    }
    assert deleted == stale;
    after := fs.(files := fs.files - deleted);
  }

  /** `InitToc`: a fresh toc for the project's files, taking over the names of
      a readable existing toc, after which stale result files are deleted.
      Writing the toc back is not part of this model. */
  method InitToc(p: Platform, fs: FileSystem, metadata: ProjectMetadata, contextDirectory: string,
                 guids: seq<string>, parsed: Option<Toc>) returns (r: Result<(Toc, FileSystem), RelativePathError>)
    requires |guids| == |metadata.project.files|
    ensures r == InitializedToc(p, fs, metadata.project.root, metadata.project.files, contextDirectory, guids, parsed)
  {
    var created := CreateToc(p, metadata, guids);
    if created.Failure? {
      return Failure(created.error);
    }
    var existing := TryReadExistingToc(p, fs, metadata, contextDirectory, parsed);
    var toc := Reconcile(created.value, existing);
    var root := metadata.project.GetRoot();
    var after := Cleanup(p, fs, ContextPath(p, root, contextDirectory, ResultsSubDirectory), toc);
    return Success((toc, after));
  }

  /** The reconciled toc has exactly the relative paths of the project's files
      as keys; each name comes from the existing toc when that has the key,
      and is otherwise a fresh one. */
  lemma InitializedTocKeys(p: Platform, fs: FileSystem, root: string, files: seq<string>, contextDirectory: string,
                           guids: seq<string>, parsed: Option<Toc>)
    requires |guids| == |files|
    requires forall i | 0 <= i < |files| :: StartsWith(files[i], root)
    ensures var r := InitializedToc(p, fs, root, files, contextDirectory, guids, parsed);
            r.Success? && r.value.0.Keys == set i | 0 <= i < |files| :: Relative(p, root, files[i])
    ensures var r := InitializedToc(p, fs, root, files, contextDirectory, guids, parsed);
            var existing := ExistingToc(p, fs, root, ContextPath(p, root, contextDirectory, TocFileName), parsed);
            forall k | k in r.value.0 ::
              if existing.Some? && k in existing.value then r.value.0[k] == existing.value[k]
              else exists i | 0 <= i < |files| :: r.value.0[k] == guids[i] + ResultExtension
  {
  }

  /** The cleanup deletes only result files whose name no toc entry names,
      and keeps the result file of every toc entry. */
  lemma CleanupKeepsResults(p: Platform, fs: FileSystem, dir: string, toc: Toc, name: string)
    requires name in toc.Values
    requires forall i | 0 <= i < |name| :: !IsSeparator(p, name[i])
    requires dir + [Separator(p)] + name in fs.files
    ensures dir + [Separator(p)] + name in CleanedUp(p, fs, dir, toc).files
  {
    FileNameOf(p, dir, name);
  }

  /** A file the cleanup deletes was a `*.json` file directly inside the
      results directory, and its name is not in the toc. */
  lemma CleanupDeletesStale(p: Platform, fs: FileSystem, dir: string, toc: Toc, f: string)
    requires f in fs.files && f !in CleanedUp(p, fs, dir, toc).files
    ensures dir in fs.directories && DirectoryName(p, f) == Some(dir)
    ensures IsJsonName(p, FileName(p, f)) && FileName(p, f) !in toc.Values
  {
  }

  // ---------------------------------------------------------------------------
  // The queue

  /** `set.OrderBy(x => x.FullName)` of a set, as a specification: the
      elements in ordinal order. */
  ghost function Ordered(s: set<string>): (r: seq<string>)
    ensures SortedBy(r, OrdinalOrder()) && multiset(r) == multiset(s)
  {
    SortOrdinal(Elements(s))
  }

  ghost function Elements(s: set<string>): (r: seq<string>)
    ensures multiset(r) == multiset(s)
    decreases |s|
  {
    if s == {} then []
    else
      var x :| x in s;
      assert multiset(s) == multiset(s - {x}) + multiset{x};
      Elements(s - {x}) + [x]
  }

  /** The ordered list holds every element of the set once. */
  lemma OrderedElements(s: set<string>)
    ensures |Ordered(s)| == |s|
    ensures forall x :: x in Ordered(s) <==> x in s
  {
    var r := Ordered(s);
    assert |r| == |multiset(r)| == |multiset(s)|;
    SetMultisetSize(s);
    forall x
      ensures x in r <==> x in s
    {
      assert x in r <==> x in multiset(r);
    }
  }

  lemma {:induction false} SetMultisetSize(s: set<string>)
    ensures |multiset(s)| == |s|
    decreases |s|
  {
    if s != {} {
      var x :| x in s;
      assert multiset(s) == multiset(s - {x}) + multiset{x};
      SetMultisetSize(s - {x});
    }
  }

  /** The dependencies of a queued file, ordered by full name. */
  method OrderByFullName(s: set<string>) returns (r: seq<string>)
    ensures r == Ordered(s)
  {
    var xs: seq<string> := [];
    var rest := s;
    while rest != {}
      invariant rest <= s
      invariant multiset(xs) + multiset(rest) == multiset(s)
      decreases rest
    {
      var x :| x in rest;
      assert multiset(rest) == multiset(rest - {x}) + multiset{x};
      xs := xs + [x];
      rest := rest - {x};
    }
    r := SortOrdinal(xs);
    OrdinalOrderTotal();
    SortedUnique(r, Ordered(s), OrdinalOrder());
  }

  /** `OrderBy(x => x.UpstreamDependencies.Count).ThenBy(x => x.FileToAnalyze.FullName)`. */
  function QueueOrder(): (QueuedFile, QueuedFile) -> bool
  {
    (a: QueuedFile, b: QueuedFile) =>
      |a.upstream| < |b.upstream| || (|a.upstream| == |b.upstream| && OrdinalLessOrEqual(a.file, b.file))
  }

  lemma QueueOrderTotal()
    ensures TotalPreorder(QueueOrder())
  {
    forall a: QueuedFile, b: QueuedFile
      ensures QueueOrder()(a, b) || QueueOrder()(b, a)
    {
      OrdinalTotal(a.file, b.file);
    }
    forall a: QueuedFile, b: QueuedFile, c: QueuedFile | QueueOrder()(a, b) && QueueOrder()(b, c)
      ensures QueueOrder()(a, c)
    {
      if |a.upstream| == |b.upstream| == |c.upstream| {
        OrdinalTransitive(a.file, b.file, c.file);
      }
    }
  }

  /** One step of the `CreateAnalysisQueue` loop: an entry, nothing, or an
      error. */
  type Step = string -> Result<Option<QueuedFile>, QueueError>

  /** The step of `CreateAnalysisQueue` for one project file: its entry when
      its result file does not exist, nothing when it does. */
  ghost function Pending(p: Platform, fs: FileSystem, root: string, resultsDirectory: string, toc: Toc,
                         up: FileGraph, down: FileGraph, file: string): (r: Result<Option<QueuedFile>, QueueError>)
    ensures r.Success? <==> StartsWith(file, root) && Relative(p, root, file) in toc
    ensures r.Success? ==> (r.value.Some? <==> Absolute(p, resultsDirectory, toc[Relative(p, root, file)]) !in fs.files)
    ensures r.Success? && r.value.Some? ==>
              r.value.value == QueuedFile(file, Absolute(p, resultsDirectory, toc[Relative(p, root, file)]),
                                          Ordered(Get(up, file)), Ordered(Get(down, file)))
  {
    match ProjectRelativePath(p, file, root)
    case Failure(e) => Failure(Outside(e))
    case Success(rel) =>
      if rel !in toc then Failure(KeyNotFound(rel))
      else
        var result := Absolute(p, resultsDirectory, toc[rel]);
        if result in fs.files then Success(None)
        else Success(Some(QueuedFile(file, result, Ordered(Get(up, file)), Ordered(Get(down, file)))))
  }

  ghost function StepOf(p: Platform, fs: FileSystem, root: string, resultsDirectory: string, toc: Toc,
                        up: FileGraph, down: FileGraph): Step
  {
    file => Pending(p, fs, root, resultsDirectory, toc, up, down, file)
  }

  /** The entries the steps of `files` give, in file order; the first error
      stops the loop. */
  function Entries(step: Step, files: seq<string>): Result<seq<QueuedFile>, QueueError>
    decreases |files|
  {
    if files == [] then Success([])
    else
      match Entries(step, files[..|files| - 1])
      case Failure(e) => Failure(e)
      case Success(queue) =>
        match step(files[|files| - 1])
        case Failure(e) => Failure(e)
        case Success(None) => Success(queue)
        case Success(Some(entry)) => Success(queue + [entry])
  }

  /** What `CreateAnalysisQueue` returns. */
  ghost function AnalysisQueue(p: Platform, fs: FileSystem, root: string, resultsDirectory: string, toc: Toc,
                               up: FileGraph, down: FileGraph, files: seq<string>): Result<seq<QueuedFile>, QueueError>
  {
    match Entries(StepOf(p, fs, root, resultsDirectory, toc, up, down), files)
    case Failure(e) => Failure(e)
    case Success(queue) => Success(SortBy(queue, QueueOrder()))
  }

  lemma {:induction false} EntriesFailurePersists(step: Step, files: seq<string>, n: nat)
    requires n <= |files| && Entries(step, files[..n]).Failure?
    ensures Entries(step, files) == Entries(step, files[..n])
    decreases |files|
  {
    if n < |files| {
      var init := files[..|files| - 1];
      assert init[..n] == files[..n];
      EntriesFailurePersists(step, init, n);
    } else {
      assert files[..n] == files;
    }
  }

  /** `CreateAnalysisQueue` over the files of the project, its root's full
      name, the results directory's full name and the toc. */
  method CreateAnalysisQueue(p: Platform, fs: FileSystem, metadata: ProjectMetadata, resultsDirectory: string, toc: Toc)
    returns (r: Result<seq<QueuedFile>, QueueError>)
    ensures r == AnalysisQueue(p, fs, metadata.project.root, resultsDirectory, toc,
                               metadata.graph.upstream, metadata.graph.downstream, metadata.project.files)
  {
    var root := metadata.project.GetRoot();
    var files := metadata.project.files;
    var up, down := metadata.graph.upstream, metadata.graph.downstream;
    ghost var step := StepOf(p, fs, root, resultsDirectory, toc, up, down);
    var queue: seq<QueuedFile> := [];
    var i := 0;
    while i < |files|
      invariant 0 <= i <= |files|
      invariant Entries(step, files[..i]) == Success(queue)
    {
      EntriesSnoc(step, files, i, queue);
      assert step(files[i]) == Pending(p, fs, root, resultsDirectory, toc, up, down, files[i]);
      var entry := PendingEntry(p, fs, root, resultsDirectory, toc, up, down, files[i]);
      if entry.Failure? {
        EntriesFailurePersists(step, files, i + 1);
        return Failure(entry.error);
      }
      if entry.value.Some? {
        queue := queue + [entry.value.value];
      }
      i := i + 1;
    }
    assert files[..i] == files;
    return Success(SortBy(queue, QueueOrder()));
  }

  /** One pass of the loop of `CreateAnalysisQueue`. */
  method PendingEntry(p: Platform, fs: FileSystem, root: string, resultsDirectory: string, toc: Toc,
                      up: FileGraph, down: FileGraph, file: string) returns (r: Result<Option<QueuedFile>, QueueError>)
    ensures r == Pending(p, fs, root, resultsDirectory, toc, up, down, file)
  {
    var path := ProjectRelativePath(p, file, root);
    if path.Failure? {
      return Failure(Outside(path.error));
    }
    var rel := path.value;
    if rel !in toc {
      return Failure(KeyNotFound(rel));
    }
    var result := Absolute(p, resultsDirectory, toc[rel]);
    if result in fs.files {
      return Success(None);
    }
    var upstream := OrderByFullName(Get(up, file));
    var downstream := OrderByFullName(Get(down, file));
    return Success(Some(QueuedFile(file, result, upstream, downstream)));
  }

  lemma EntriesSnoc(step: Step, files: seq<string>, i: nat, queue: seq<QueuedFile>)
    requires i < |files| && Entries(step, files[..i]) == Success(queue)
    ensures Entries(step, files[..i + 1]) == match step(files[i])
                                             case Failure(e) => Failure(e)
                                             case Success(None) => Success(queue)
                                             case Success(Some(entry)) => Success(queue + [entry])
  {
    assert files[..i + 1][..i] == files[..i];
  }

  /** The entries are the entries the steps give. */
  lemma {:induction false} EntriesMembers(step: Step, files: seq<string>, e: QueuedFile)
    requires Entries(step, files).Success?
    ensures e in Entries(step, files).value <==> exists i | 0 <= i < |files| :: step(files[i]) == Success(Some(e))
    decreases |files|
  {
    if files != [] {
      var n := |files| - 1;
      var init := files[..n];
      EntriesMembers(step, init, e);
      assert forall i | 0 <= i < n :: init[i] == files[i];
    }
  }

  /** The loop succeeds exactly when every step does. */
  lemma {:induction false} EntriesSucceed(step: Step, files: seq<string>)
    ensures Entries(step, files).Success? <==> forall i | 0 <= i < |files| :: step(files[i]).Success?
    decreases |files|
  {
    if files != [] {
      var n := |files| - 1;
      assert forall i | 0 <= i < n :: files[..n][i] == files[i];
      EntriesSucceed(step, files[..n]);
      if Entries(step, files[..n]).Failure? {
        EntriesFailurePersists(step, files, n);
      }
    }
  }

  /** The toc `InitToc` builds for the project's files has an entry for every
      one of them, so building the queue from it never misses a key. */
  lemma QueueAfterInitToc(p: Platform, fs: FileSystem, root: string, files: seq<string>, contextDirectory: string,
                          guids: seq<string>, parsed: Option<Toc>, fs': FileSystem, resultsDirectory: string,
                          up: FileGraph, down: FileGraph)
    requires |guids| == |files|
    requires forall i | 0 <= i < |files| :: StartsWith(files[i], root)
    ensures InitializedToc(p, fs, root, files, contextDirectory, guids, parsed).Success?
    ensures var toc := InitializedToc(p, fs, root, files, contextDirectory, guids, parsed).value.0;
            AnalysisQueue(p, fs', root, resultsDirectory, toc, up, down, files).Success?
  {
    InitializedTocKeys(p, fs, root, files, contextDirectory, guids, parsed);
    var toc := InitializedToc(p, fs, root, files, contextDirectory, guids, parsed).value.0;
    var step := StepOf(p, fs', root, resultsDirectory, toc, up, down);
    forall i | 0 <= i < |files|
      ensures step(files[i]).Success?
    {
      assert Relative(p, root, files[i]) in toc;
    }
    EntriesSucceed(step, files);
  }

  /** The queue holds exactly the files whose result file does not exist yet,
      each with the result file the toc names for it; a successful queue
      means every file lies under the root and has a toc entry. */
  lemma QueueMembers(p: Platform, fs: FileSystem, root: string, resultsDirectory: string, toc: Toc,
                     up: FileGraph, down: FileGraph, files: seq<string>, file: string)
    requires AnalysisQueue(p, fs, root, resultsDirectory, toc, up, down, files).Success?
    ensures forall i | 0 <= i < |files| :: StartsWith(files[i], root) && Relative(p, root, files[i]) in toc
    ensures (exists e | e in AnalysisQueue(p, fs, root, resultsDirectory, toc, up, down, files).value :: e.file == file)
            <==> file in files && Absolute(p, resultsDirectory, toc[Relative(p, root, file)]) !in fs.files
    ensures forall e | e in AnalysisQueue(p, fs, root, resultsDirectory, toc, up, down, files).value ::
              e.file in files && Relative(p, root, e.file) in toc
              && e.result == Absolute(p, resultsDirectory, toc[Relative(p, root, e.file)])
              && e.result !in fs.files
  {
    QueueFilesInToc(p, fs, root, resultsDirectory, toc, up, down, files);
    QueueEntries(p, fs, root, resultsDirectory, toc, up, down, files);
    var step := StepOf(p, fs, root, resultsDirectory, toc, up, down);
    var entries := Entries(step, files).value;
    var queue := SortBy(entries, QueueOrder());
    if file in files && Absolute(p, resultsDirectory, toc[Relative(p, root, file)]) !in fs.files {
      var i :| 0 <= i < |files| && files[i] == file;
      var e := step(file).value.value;
      EntriesMembers(step, files, e);
      assert e in multiset(entries);
      assert e in queue;
    }
  }

  lemma QueueFilesInToc(p: Platform, fs: FileSystem, root: string, resultsDirectory: string, toc: Toc,
                        up: FileGraph, down: FileGraph, files: seq<string>)
    requires AnalysisQueue(p, fs, root, resultsDirectory, toc, up, down, files).Success?
    ensures forall i | 0 <= i < |files| :: StartsWith(files[i], root) && Relative(p, root, files[i]) in toc
  {
    var step := StepOf(p, fs, root, resultsDirectory, toc, up, down);
    EntriesSucceed(step, files);
    forall i | 0 <= i < |files|
      ensures StartsWith(files[i], root) && Relative(p, root, files[i]) in toc
    {
      assert step(files[i]).Success?;
    }
  }

  lemma QueueEntries(p: Platform, fs: FileSystem, root: string, resultsDirectory: string, toc: Toc,
                     up: FileGraph, down: FileGraph, files: seq<string>)
    requires AnalysisQueue(p, fs, root, resultsDirectory, toc, up, down, files).Success?
    ensures forall e | e in AnalysisQueue(p, fs, root, resultsDirectory, toc, up, down, files).value ::
              e.file in files && Relative(p, root, e.file) in toc
              && e.result == Absolute(p, resultsDirectory, toc[Relative(p, root, e.file)])
              && e.result !in fs.files
  {
    var step := StepOf(p, fs, root, resultsDirectory, toc, up, down);
    var entries := Entries(step, files).value;
    var queue := SortBy(entries, QueueOrder());
    forall e | e in queue
      ensures e.file in files && Relative(p, root, e.file) in toc
              && e.result == Absolute(p, resultsDirectory, toc[Relative(p, root, e.file)])
              && e.result !in fs.files
    {
      assert e in multiset(queue);
      EntriesMembers(step, files, e);
      var i :| 0 <= i < |files| && step(files[i]) == Success(Some(e));
      assert step(files[i]).Success?;
    }
  }

  /** The queue is ordered by ascending number of upstream dependencies, then
      by full name, and is a permutation of the entries in file order. */
  lemma QueueSorted(p: Platform, fs: FileSystem, root: string, resultsDirectory: string, toc: Toc,
                    up: FileGraph, down: FileGraph, files: seq<string>)
    requires AnalysisQueue(p, fs, root, resultsDirectory, toc, up, down, files).Success?
    ensures var queue := AnalysisQueue(p, fs, root, resultsDirectory, toc, up, down, files).value;
            multiset(queue) == multiset(Entries(StepOf(p, fs, root, resultsDirectory, toc, up, down), files).value)
            && forall i, j | 0 <= i < j < |queue| ::
                 |queue[i].upstream| < |queue[j].upstream|
                 || (|queue[i].upstream| == |queue[j].upstream| && OrdinalLessOrEqual(queue[i].file, queue[j].file))
  {
    var entries := Entries(StepOf(p, fs, root, resultsDirectory, toc, up, down), files).value;
    QueueOrderTotal();
    SortBySorted(entries, QueueOrder());
  }

  /** Every queued file lists the files it depends on and the files that
      depend on it, each once and in ordinal order: none when the graph has
      no entry for it. */
  lemma QueuedDependencies(p: Platform, fs: FileSystem, root: string, resultsDirectory: string, toc: Toc,
                           up: FileGraph, down: FileGraph, files: seq<string>, e: QueuedFile)
    requires AnalysisQueue(p, fs, root, resultsDirectory, toc, up, down, files).Success?
    requires e in AnalysisQueue(p, fs, root, resultsDirectory, toc, up, down, files).value
    ensures SortedBy(e.upstream, OrdinalOrder()) && |e.upstream| == |Get(up, e.file)|
            && forall x :: x in e.upstream <==> x in Get(up, e.file)
    ensures SortedBy(e.downstream, OrdinalOrder()) && |e.downstream| == |Get(down, e.file)|
            && forall x :: x in e.downstream <==> x in Get(down, e.file)
  {
    var step := StepOf(p, fs, root, resultsDirectory, toc, up, down);
    var entries := Entries(step, files).value;
    assert e in multiset(SortBy(entries, QueueOrder()));
    EntriesMembers(step, files, e);
    var i :| 0 <= i < |files| && step(files[i]) == Success(Some(e));
    assert Pending(p, fs, root, resultsDirectory, toc, up, down, files[i]) == Success(Some(e));
    OrderedElements(Get(up, e.file));
    OrderedElements(Get(down, e.file));
  }
}
