/** The project of the static analysis: a root directory and the files found
    under it, which can be saved as the list of their paths relative to the
    root and loaded back. Files and the root are identified by their full
    names. */
module StaticProject {
  import opened Wrappers
  import opened Text
  import opened Paths
  import opened FileSystem
  import opened Sorting
  import opened FileInfoExtensions

  /** The `ArgumentException` of the constructor. */
  datatype ProjectError = RootDoesNotExist(root: string)

  /** `SerializationContainer`: the saved form, a format version and the list
      of relative paths (absent when the saved text has none). */
  datatype Container = Container(formatVersion: int, files: Option<seq<string>>)

  /** The only format version written and read. */
  const CurrentFormatVersion := 1

  /** The extension of a solution file, compared ordinally. */
  const SolutionExtension := ".sln"

  predicate IsSolution(p: Platform, file: string)
  {
    Extension(p, file) == SolutionExtension
  }

  /** The solution files among `files`, in their order. */
  function Solutions(p: Platform, files: seq<string>): seq<string>
  {
    if files == [] then []
    else Solutions(p, files[..|files| - 1]) + (if IsSolution(p, files[|files| - 1]) then [files[|files| - 1]] else [])
  }

  /** The relative paths of `files`, in their order, or the error of the first
      file outside `root`. */
  function RelativePaths(p: Platform, root: string, files: seq<string>): (r: Result<seq<string>, RelativePathError>)
    ensures r.Success? <==> forall i | 0 <= i < |files| :: StartsWith(files[i], root)
    ensures r.Success? ==> |r.value| == |files|
                           && forall i | 0 <= i < |files| :: r.value[i] == Relative(p, root, files[i])
    ensures r.Failure? ==> FirstOutside(root, files) < |files|
                           && r.error == FileOutsideProject(files[FirstOutside(root, files)])
  {
    if files == [] then Success([])
    else
      match ProjectRelativePath(p, files[0], root)
      case Failure(e) => Failure(e)
      case Success(head) =>
        match RelativePaths(p, root, files[1..])
        case Failure(e) =>
          assert forall i | 1 <= i < |files| :: files[1..][i - 1] == files[i];
          FirstOutsideIs(root, files, 1 + FirstOutside(root, files[1..]));
          Failure(e)
        case Success(tail) =>
          assert forall i | 1 <= i < |files| :: files[1..][i - 1] == files[i];
          Success([head] + tail)
  }

  /** What `Serialize` saves for the files of a project at `root`. */
  function Serialized(p: Platform, root: string, files: seq<string>): Result<Container, RelativePathError>
  {
    match RelativePaths(p, root, files)
    case Failure(e) => Failure(e)
    case Success(paths) => Success(Container(CurrentFormatVersion, Some(SortOrdinal(paths))))
  }

  /** The relative paths a container lists: none when its list is absent or
      empty. */
  function Listed(container: Container): seq<string>
  {
    if container.files.Some? && |container.files.value| > 0 then container.files.value else []
  }

  /** The full names of the listed paths under `root`, or none as soon as one
      of them does not exist. */
  function LoadFiles(p: Platform, fs: FileSystem, root: string, paths: seq<string>): (r: Option<seq<string>>)
    ensures r.Some? <==> forall i | 0 <= i < |paths| :: Absolute(p, root, paths[i]) in fs.files
    ensures r.Some? ==> |r.value| == |paths|
                        && forall i | 0 <= i < |paths| :: r.value[i] == Absolute(p, root, paths[i])
  {
    if paths == [] then Some([])
    else
      assert forall i | 1 <= i < |paths| :: paths[1..][i - 1] == paths[i];
      var file := Absolute(p, root, paths[0]);
      if file !in fs.files then None
      else
        match LoadFiles(p, fs, root, paths[1..])
        case None => None
        case Some(rest) => Some([file] + rest)
  }

  /** The files `TryDeserialize` loads from a parsed container for the root
      `projectRoot`, or none when it fails. */
  function Loaded(p: Platform, fs: FileSystem, projectRoot: string, json: Option<Container>): Option<seq<string>>
  {
    var root := FullName(p, projectRoot);
    if root !in fs.directories || json.None? || json.value.formatVersion != CurrentFormatVersion then None
    else LoadFiles(p, fs, root, Listed(json.value))
  }

  class Project {
    /** The full name of the root directory. */
    const root: string
    /** The files, by full name, in the order they were added. */
    var files: seq<string>

    /** `new Project(projectRoot)` once the root is known to exist. */
    constructor (p: Platform, fs: FileSystem, projectRoot: string)
      requires FullName(p, projectRoot) in fs.directories
      ensures root == FullName(p, projectRoot) && root in fs.directories && files == []
    {
      root := FullName(p, projectRoot);
      files := [];
    }

    /** `new Project(projectRoot)`, which fails when the root does not exist. */
    static method Create(p: Platform, fs: FileSystem, projectRoot: string) returns (r: Result<Project, ProjectError>)
      ensures r.Success? <==> FullName(p, projectRoot) in fs.directories
      ensures r.Failure? ==> r.error == RootDoesNotExist(FullName(p, projectRoot))
      ensures r.Success? ==> fresh(r.value) && r.value.root == FullName(p, projectRoot) && r.value.files == []
    {
      if FullName(p, projectRoot) !in fs.directories {
        return Failure(RootDoesNotExist(FullName(p, projectRoot)));
      }
      var project := new Project(p, fs, projectRoot);
      return Success(project);
    }

    function GetRoot(): (r: string)
      reads this
      ensures r == root
    {
      root
    }

    method AddFile(file: string)
      modifies this
      ensures files == old(files) + [file]
    {
      files := files + [file];
    }

    method GetFiles() returns (r: seq<string>)
      ensures r == files
    {
      return files;
    }

    /** The files whose extension is exactly `.sln`, in the order they were
      added. */
    method GetDotnetSolutions(p: Platform) returns (solutions: seq<string>)
      ensures solutions == Solutions(p, files)
    {
      solutions := [];
      var i := 0;
      while i < |files|
        invariant 0 <= i <= |files|
        invariant solutions == Solutions(p, files[..i])
      {
        assert files[..i + 1][..i] == files[..i];
        if Extension(p, files[i]) == SolutionExtension {
          solutions := solutions + [files[i]];
        }
        i := i + 1;
      }
      assert files[..i] == files;
    }

    /** `Serialize`: the relative path of every file, in ordinal order, under
      format version 1; it fails on the first file outside the root. */
    method Serialize(p: Platform) returns (r: Result<Container, RelativePathError>)
      ensures r == Serialized(p, root, files)
    {
      var paths: seq<string> := [];
      var i := 0;
      while i < |files|
        invariant 0 <= i <= |files| && |paths| == i
        invariant forall k | 0 <= k < i :: StartsWith(files[k], root) && paths[k] == Relative(p, root, files[k])
      {
        var path := ProjectRelativePath(p, files[i], root);
        if path.Failure? {
          FirstFailure(p, root, files, i);
          return Failure(path.error);
        }
        paths := paths + [path.value];
        i := i + 1;
      }
      assert paths == RelativePaths(p, root, files).value;
      return Success(Container(CurrentFormatVersion, Some(SortOrdinal(paths))));
    }

    /** `TryDeserialize`: a project at the full name of `projectRoot` holding
      the listed files, or null when the root does not exist, the container
      is missing or of another version, or a listed file does not exist. */
    static method TryDeserialize(p: Platform, fs: FileSystem, json: Option<Container>, projectRoot: string)
      returns (project: Project?)
      ensures project == null <==> Loaded(p, fs, projectRoot, json).None?
      ensures project != null ==> fresh(project) && project.root == FullName(p, projectRoot)
                                  && project.files == Loaded(p, fs, projectRoot, json).value
    {
      var root := FullName(p, projectRoot);
      if root !in fs.directories {
        return null;
      }
      if json.None? || json.value.formatVersion != CurrentFormatVersion {
        return null;
      }
      project := new Project(p, fs, projectRoot);
      var paths := Listed(json.value);
      var i := 0;
      while i < |paths|
        invariant 0 <= i <= |paths| && |project.files| == i
        invariant fresh(project) && project.root == root
        invariant forall k | 0 <= k < i :: Absolute(p, root, paths[k]) in fs.files
                                           && project.files[k] == Absolute(p, root, paths[k])
      {
        var file := Absolute(p, root, paths[i]);
        if file !in fs.files {
          return null;
        }
        project.AddFile(file);
        i := i + 1;
      }
      assert project.files == LoadFiles(p, fs, root, paths).value;
    }
  }

  /** The failure `RelativePaths` reports is that of the first file outside
      the root. */
  lemma FirstFailure(p: Platform, root: string, files: seq<string>, i: nat)
    requires i < |files| && !StartsWith(files[i], root)
    requires forall k | 0 <= k < i :: StartsWith(files[k], root)
    ensures RelativePaths(p, root, files) == Failure(FileOutsideProject(files[i]))
  {
    FirstOutsideIs(root, files, i);
  }

  /** A file is a solution exactly when its full name ends with `.sln`, in
      that case. */
  lemma SolutionEndsWith(p: Platform, file: string)
    ensures IsSolution(p, file) <==> EndsWith(file, SolutionExtension)
  {
    ExtensionIs(p, file, SolutionExtension);
  }

  /** The solutions are the files that are solutions, and only those. */
  lemma {:induction false} SolutionsMembers(p: Platform, files: seq<string>, file: string)
    ensures file in Solutions(p, files) <==> file in files && IsSolution(p, file)
  {
    if files != [] {
      var init := files[..|files| - 1];
      SolutionsMembers(p, init, file);
      assert files == init + [files[|files| - 1]];
    }
  }

  /** The comparison is ordinal: an upper-case extension is not a solution. */
  lemma UpperCaseIsNoSolution()
    ensures Solutions(Windows, ["C:\\src\\App.SLN"]) == []
  {
    SolutionEndsWith(Windows, "C:\\src\\App.SLN");
  }

  /** The saved form lists every file, ordered ordinally: a permutation of
      the files' relative paths. */
  lemma SerializedOrdered(p: Platform, root: string, files: seq<string>)
    requires forall i | 0 <= i < |files| :: StartsWith(files[i], root)
    ensures var s := Serialized(p, root, files);
            s.Success? && s.value.formatVersion == CurrentFormatVersion && s.value.files.Some?
            && SortedBy(s.value.files.value, OrdinalOrder())
            && multiset(s.value.files.value) == multiset(Apply(f => Relative(p, root, f), files))
  {
    var paths := RelativePaths(p, root, files).value;
    assert paths == Apply(f => Relative(p, root, f), files);
  }

  /** A file named by the root, the separator and a rest that is not rooted
      lies under the root when the root is a full name. */
  lemma ReproducibleWithin(p: Platform, root: string, file: string)
    requires FullName(p, root) == root && Reproducible(p, root, file)
    ensures StartsWith(file, root)
  {
    var n := TrimmedLength(p, root);
    if n < |root| {
      if p.Windows? {
        NoForwardSlash(root);
      }
      assert root == root[..n] + [root[n]];
      assert file[..|root|] == file[..n] + [file[n]];
    }
  }

  /** Saving a project and loading it back under the same root gives the same
      files, up to order, when the root and every file exist and every file
      is a full name of the root, the separator and a relative rest. */
  lemma RoundTrip(p: Platform, fs: FileSystem, root: string, files: seq<string>)
    requires FullName(p, root) == root && root in fs.directories
    requires forall i | 0 <= i < |files| :: Reproducible(p, root, files[i]) && files[i] in fs.files
    ensures Serialized(p, root, files).Success?
    ensures var loaded := Loaded(p, fs, root, Some(Serialized(p, root, files).value));
            loaded.Some? && multiset(loaded.value) == multiset(files)
  {
    ReproducibleFiles(p, root, files);
    var paths := RelativePaths(p, root, files).value;
    var sorted := SortOrdinal(paths);
    var container := Container(CurrentFormatVersion, Some(sorted));
    assert Serialized(p, root, files) == Success(container);
    assert Listed(container) == sorted;
    assert Loaded(p, fs, root, Some(container)) == LoadFiles(p, fs, root, sorted);
    LoadedPermutation(p, fs, root, files, paths, sorted);
  }

  lemma ReproducibleFiles(p: Platform, root: string, files: seq<string>)
    requires FullName(p, root) == root
    requires forall i | 0 <= i < |files| :: Reproducible(p, root, files[i])
    ensures forall i | 0 <= i < |files| ::
              StartsWith(files[i], root) && Absolute(p, root, Relative(p, root, files[i])) == files[i]
  {
    forall i | 0 <= i < |files|
      ensures StartsWith(files[i], root) && Absolute(p, root, Relative(p, root, files[i])) == files[i]
    {
      ReproducibleWithin(p, root, files[i]);
      AbsoluteRelative(p, root, files[i]);
    }
  }

  lemma LoadedPermutation(p: Platform, fs: FileSystem, root: string, files: seq<string>, paths: seq<string>, sorted: seq<string>)
    requires |paths| == |files| && multiset(sorted) == multiset(paths)
    requires forall i | 0 <= i < |files| :: files[i] in fs.files && Absolute(p, root, paths[i]) == files[i]
    ensures LoadFiles(p, fs, root, sorted).Some?
    ensures multiset(LoadFiles(p, fs, root, sorted).value) == multiset(files)
  {
    var abs := (path: string) => Absolute(p, root, path);
    assert Apply(abs, paths) == files;
    ApplyPermutation(abs, sorted, paths);
    forall i | 0 <= i < |sorted|
      ensures Absolute(p, root, sorted[i]) in fs.files
    {
      assert sorted[i] in multiset(paths);
    }
    assert LoadFiles(p, fs, root, sorted).value == Apply(abs, sorted);
  }
}
