# ContextLeech core, modelled in Dafny

ContextLeech scans a .NET project and builds a file-level dependency graph
of its C# sources. It keeps a table of contents (TOC) that maps each project
file to a result file, and queues the files for analysis in dependency
order. This project models the deterministic heart of that pipeline and
proves the properties the code relies on.

- **Graph builder** (`StaticAnalyzer`, `SymbolAnalysis`, `Symbols`).
  - For each C# type declaration, the analyzer collects the declaring files
    of the non-external types it references. Roslyn's symbols become a
    finite symbol table of datatypes. The walk over a type's members threads
    a visited set through mutually recursive methods.
  - The results are aggregated into a case-insensitive upstream map, whose
    exact transpose is the downstream map.
  - Both maps are filtered to files that exist and lie under the project
    root.
- **Older builder** (`LegacyAnalyzer`). It shares the traversal. Its
  aggregation adds no empty entries and applies no filtering.
- **`DependenciesGraph`** (`DependenciesGraphs`). A class with in-place
  `Merge`, serialisation to a version-1 container of root-relative,
  forward-slash paths, and fail-closed deserialisation.
- **Project models** (`StaticProject`, `LegacyProject`). An append-only file
  list with a `.sln` filter. The newer version adds versioned serialisation
  and fail-closed loading.
- **Path helpers** (`FileInfoExtensions`, `ProjectFileSystem`, over `Paths`).
  `ProjectRelativePath` and `IsFileWithinDirectory`.
- **Analysis queue and TOC** (`ProjectAnalyzer`). TOC creation, reading and
  reconciliation, cleanup of stale result files, and the ordered analysis
  queue.
- **Console log formatter** (`Logging`). The level and colour tables. The
  `PrefixFormatter` class writes to a `TextWriter` that records what was
  written as a sequence of strings.

The helper modules model the .NET library behaviour the core depends on:
- `Text`: ordinal and ignore-case comparison, `Replace`, integer
  formatting.
- `IgnoreCase`: `OrdinalIgnoreCase` hash sets and dictionaries, as maps
  keyed by the upper-cased spelling that store the first spelling inserted.
- `Paths`: `FullName`, `Path.Combine`, `Path.GetRelativePath`,
  `GetDirectoryName`, `GetExtension`.
- `FileSystem`: the existing files and directories, as sets of full names.
- `Sorting`: `OrderBy` as a stable sort.
- `Wrappers`: `Option` and `Result`.

Files are identified by their full-name strings throughout. Paths reported by the
compiler and the symbol resolver are taken to be in full-name form already:
where the analyzer rebuilds them through `FileInfo.FullName`, the model keeps
the reported string (see "## Left out").

## Model

| member | source | states |
|---|---|---|
| FileInfoExtensions.ProjectRelativePath | src/ContextLeech/Extensions/FileInfoExtensions.cs:8-20 | succeeds exactly when the file's full name starts with the root's (ordinal); otherwise the error names the file; the value is the relative path with forward slashes |
| FileInfoExtensions.FirstOutside | src/ContextLeech/Extensions/FileInfoExtensions.cs:14-17 | the index of the first file not under the root: all earlier files are under it, the one at the index is not |
| FileInfoExtensions.RelativePathForwardSlashes | src/ContextLeech/Extensions/FileInfoExtensions.cs:19 | a successful result never contains `\` |
| FileInfoExtensions.RelativePathOfChild | src/ContextLeech/Extensions/FileInfoExtensions.cs:19 | for root + separator + rest the result is rest with `\` replaced by `/` |
| FileInfoExtensions.SiblingPasses | src/ContextLeech/Extensions/FileInfoExtensions.cs:14 | the prefix test is textual: `/a/bc/x` is accepted for root `/a/b` |
| ProjectFileSystem.WithinExists | src/ContextLeech/Services/Static/ProjectFileSystem.cs:8-21 | a file within the directory implies that the root and the file exist, that the file has a directory name, and that the trimmed directory is strictly longer than the trimmed root |
| ProjectFileSystem.DirectChildIsNotWithin | src/ContextLeech/Services/Static/ProjectFileSystem.cs:17-20 | a file directly inside the root is not within it, because its directory is the root itself |
| ProjectFileSystem.SiblingIsNotWithin | src/ContextLeech/Services/Static/ProjectFileSystem.cs:17-20 | a file under a sibling directory sharing the root's name as a prefix (`/a/bc` for `/a/b`) is not within it |
| ProjectFileSystem.NestedIsWithin | src/ContextLeech/Services/Static/ProjectFileSystem.cs:12-20 | an existing file in a sub-directory of an existing root is within it |
| LegacyProject.Project.constructor | src/ContextLeech/Services/ProjectScanner/Models/Project.cs:12-22 | a new project keeps the root it was given and has no files |
| LegacyProject.Project.Create | src/ContextLeech/Services/ProjectScanner/Models/Project.cs:12-22 | succeeds exactly when the root directory exists; otherwise the error names the root; a new project has no files |
| LegacyProject.Project.AddFile | src/ContextLeech/Services/ProjectScanner/Models/Project.cs:24-27 | appends the file at the end; earlier files and duplicates stay |
| LegacyProject.Project.GetFiles | src/ContextLeech/Services/ProjectScanner/Models/Project.cs:29-32 | returns the files in insertion order |
| StaticProject.Project.constructor | src/ContextLeech/Services/Static/ProjectScanner/Models/Project.cs:17-27 | the root is the full name of an existing directory and there are no files |
| StaticProject.Project.Create | src/ContextLeech/Services/Static/ProjectScanner/Models/Project.cs:17-27 | succeeds exactly when the root directory exists; otherwise the error names the root; a new project has no files |
| StaticProject.Project.GetRoot | src/ContextLeech/Services/Static/ProjectScanner/Models/Project.cs:29-32 | returns the root |
| StaticProject.Project.AddFile | src/ContextLeech/Services/Static/ProjectScanner/Models/Project.cs:34-37 | appends the file at the end; earlier files and duplicates stay |
| StaticProject.Project.GetFiles | src/ContextLeech/Services/Static/ProjectScanner/Models/Project.cs:53-56 | returns the files in insertion order |
| StaticProject.Project.GetDotnetSolutions | src/ContextLeech/Services/Static/ProjectScanner/Models/Project.cs:39-51 | returns the files selected by the `.sln` filter, in insertion order |
| StaticProject.SolutionsMembers | src/ContextLeech/Services/Static/ProjectScanner/Models/Project.cs:39-51 | a file is a solution exactly when it is a project file with the `.sln` extension |
| StaticProject.SolutionEndsWith | src/ContextLeech/Services/Static/ProjectScanner/Models/Project.cs:43-47 | the extension equals `.sln` (ordinal) exactly when the path ends with `.sln` |
| StaticProject.UpperCaseIsNoSolution | src/ContextLeech/Services/Static/ProjectScanner/Models/Project.cs:43-47 | the comparison is ordinal: `App.SLN` is not a solution |
| StaticProject.RelativePaths | src/ContextLeech/Services/Static/ProjectScanner/Models/Project.cs:58-70 | succeeds exactly when every file is under the root; then each path is that file's relative path; otherwise the error names the first file outside the root |
| StaticProject.FirstFailure | src/ContextLeech/Services/Static/ProjectScanner/Models/Project.cs:58-70 | when file i is the first outside the root, serialisation fails with that file |
| StaticProject.Project.Serialize | src/ContextLeech/Services/Static/ProjectScanner/Models/Project.cs:58-70 | the result is the serialised container of the root and files |
| StaticProject.SerializedOrdered | src/ContextLeech/Services/Static/ProjectScanner/Models/Project.cs:58-70 | with every file under the root, serialisation succeeds with format version 1 and lists the relative paths sorted in ordinal order, as a permutation of the files' relative paths |
| StaticProject.LoadFiles | src/ContextLeech/Services/Static/ProjectScanner/Models/Project.cs:108-126 | loads exactly when every listed path resolves to an existing file; then each loaded file is the resolved path, in listed order |
| StaticProject.Project.TryDeserialize | src/ContextLeech/Services/Static/ProjectScanner/Models/Project.cs:74-129 | returns no project exactly when the root is missing, the container is absent, the version is not 1, or a listed file is missing; otherwise the files are the loaded paths in listed order |
| StaticProject.ReproducibleWithin | src/ContextLeech/Services/Static/ProjectScanner/Models/Project.cs:58-70 | a path that survives the stored form lies under the root |
| StaticProject.ReproducibleFiles | src/ContextLeech/Services/Static/ProjectScanner/Models/Project.cs:58-129 | such paths are under the root, and resolving their relative path gives them back |
| StaticProject.LoadedPermutation | src/ContextLeech/Services/Static/ProjectScanner/Models/Project.cs:101-126 | loading any rearrangement of the relative paths of existing files succeeds and yields the same files as a multiset |
| StaticProject.RoundTrip | src/ContextLeech/Services/Static/ProjectScanner/Models/Project.cs:58-129 | deserialising the serialised project yields the same files, as a multiset, when they all exist |
| SymbolAnalysis.FilePathForSymbol | src/ContextLeech/Services/Static/DotnetSolutionDependenciesAnalyzer/StaticDotnetSolutionDependenciesAnalyzer.cs:841-860 | none exactly when no location is in source with a tree path; otherwise the tree path of the first such location |
| SymbolAnalysis.AddDependencies | src/ContextLeech/Services/Static/DotnetSolutionDependenciesAnalyzer/StaticDotnetSolutionDependenciesAnalyzer.cs:822-839 | empty for no type or an external type; at most one file, non-blank and one of the type's definition locations |
| SymbolAnalysis.TypeReferenceFiles | src/ContextLeech/Services/Static/DotnetSolutionDependenciesAnalyzer/StaticDotnetSolutionDependenciesAnalyzer.cs:746-820 | a file is in a type reference's result exactly when the structural walk over generic arguments, elements, tuple elements and function-pointer signatures reaches it |
| SymbolAnalysis.TypeReferencesFiles | src/ContextLeech/Services/Static/DotnetSolutionDependenciesAnalyzer/StaticDotnetSolutionDependenciesAnalyzer.cs:746-820 | a list of type references yields exactly the files reached from some element |
| SymbolAnalysis.ExternalTypeContributesNothing | src/ContextLeech/Services/Static/DotnetSolutionDependenciesAnalyzer/StaticDotnetSolutionDependenciesAnalyzer.cs:746-753 | an external type contributes no file, and the walk reaches nothing from it |
| SymbolAnalysis.InterfacesAddBaseTypeFile | src/ContextLeech/Services/Static/DotnetSolutionDependenciesAnalyzer/StaticDotnetSolutionDependenciesAnalyzer.cs:429-439 | the interface loop adds the base type's file when some interface is a source type, and nothing otherwise |
| SymbolAnalysis.ParameterlessMethodSkipsBody | src/ContextLeech/Services/Static/DotnetSolutionDependenciesAnalyzer/StaticDotnetSolutionDependenciesAnalyzer.cs:571-625 | a method without parameters contributes only its return type's files; its body is never walked |
| SymbolAnalysis.MethodWithParametersWalksBody | src/ContextLeech/Services/Static/DotnetSolutionDependenciesAnalyzer/StaticDotnetSolutionDependenciesAnalyzer.cs:571-625 | a method with parameters includes its return type, constraints, body and every parameter type |
| SymbolAnalysis.RootAttributesIgnored | src/ContextLeech/Services/Static/DotnetSolutionDependenciesAnalyzer/StaticDotnetSolutionDependenciesAnalyzer.cs:409-484 | changing the root type's own attributes leaves its dependencies unchanged |
| SymbolAnalysis.MembersDependenciesOutside | src/ContextLeech/Services/Static/DotnetSolutionDependenciesAnalyzer/StaticDotnetSolutionDependenciesAnalyzer.cs:472-481 | the members' dependencies depend only on the symbols outside the visited set |
| SymbolAnalysis.AnalyzeRootTypeSymbol | src/ContextLeech/Services/Static/DotnetSolutionDependenciesAnalyzer/StaticDotnetSolutionDependenciesAnalyzer.cs:409-484 | the visited set only grows; a visited type contributes nothing and changes nothing; otherwise the type and its known members become visited and the result is the type's dependency set |
| SymbolAnalysis.AnalyzeMembers | src/ContextLeech/Services/Static/DotnetSolutionDependenciesAnalyzer/StaticDotnetSolutionDependenciesAnalyzer.cs:472-481 | visits exactly the known members and returns their dependency union |
| SymbolAnalysis.AnalyzeMember | src/ContextLeech/Services/Static/DotnetSolutionDependenciesAnalyzer/StaticDotnetSolutionDependenciesAnalyzer.cs:486-569 | an unknown or visited member contributes nothing and changes nothing; otherwise it becomes visited and contributes its kind's and its attributes' dependencies |
| SymbolAnalysis.MembersDependenciesIncludes | src/ContextLeech/Services/Static/DotnetSolutionDependenciesAnalyzer/StaticDotnetSolutionDependenciesAnalyzer.cs:472-481 | every unvisited known member's dependencies are in the union |
| SymbolAnalysis.RazorFiles | src/ContextLeech/Services/Static/DotnetSolutionDependenciesAnalyzer/StaticDotnetSolutionDependenciesAnalyzer.cs:249-258 | holds only existing, non-empty `.razor`/`.cshtml` documents, and holds every such document (its first spelling) |
| SymbolAnalysis.FirstRazorCandidate | src/ContextLeech/Services/Static/DotnetSolutionDependenciesAnalyzer/StaticDotnetSolutionDependenciesAnalyzer.cs:363-390 | none exactly when no checksum pragma names an existing razor file in the set; otherwise the first one in trivia order |
| SymbolAnalysis.IsRazorFile | src/ContextLeech/Services/Static/DotnetSolutionDependenciesAnalyzer/StaticDotnetSolutionDependenciesAnalyzer.cs:363-390 | the loop returns the first razor candidate |
| SymbolAnalysis.CleanedDependencies | src/ContextLeech/Services/Static/DotnetSolutionDependenciesAnalyzer/StaticDotnetSolutionDependenciesAnalyzer.cs:346-358 | drops the source file (case-insensitive) and every missing file; keeps the others with their spelling |
| SymbolAnalysis.CleanDependencies | src/ContextLeech/Services/Static/DotnetSolutionDependenciesAnalyzer/StaticDotnetSolutionDependenciesAnalyzer.cs:346-358 | the cleanup loop computes the cleaned set |
| SymbolAnalysis.TypeDeclarationResults | src/ContextLeech/Services/Static/DotnetSolutionDependenciesAnalyzer/StaticDotnetSolutionDependenciesAnalyzer.cs:311-361 | no result exactly when the source file is missing without a razor mapping, or the declaration is not a type; otherwise one result for an existing file whose dependencies exist and exclude the source file |
| SymbolAnalysis.AnalyzeTypeDeclaration | src/ContextLeech/Services/Static/DotnetSolutionDependenciesAnalyzer/StaticDotnetSolutionDependenciesAnalyzer.cs:311-361 | computes the declaration's results |
| SymbolAnalysis.DeclarationsResults | src/ContextLeech/Services/Static/DotnetSolutionDependenciesAnalyzer/StaticDotnetSolutionDependenciesAnalyzer.cs:270-297 | at most one result per declaration; each names an existing file with existing dependencies; for an existing tree, each is for that tree's file with no self edge |
| SymbolAnalysis.AnalyzeSyntaxTree | src/ContextLeech/Services/Static/DotnetSolutionDependenciesAnalyzer/StaticDotnetSolutionDependenciesAnalyzer.cs:270-297 | concatenates the results of the tree's declarations |
| SymbolAnalysis.TreesResults | src/ContextLeech/Services/Static/DotnetSolutionDependenciesAnalyzer/StaticDotnetSolutionDependenciesAnalyzer.cs:244-268 | every result names an existing file with existing dependencies; with existing trees there is no self edge |
| SymbolAnalysis.AnalyzeCompilation | src/ContextLeech/Services/Static/DotnetSolutionDependenciesAnalyzer/StaticDotnetSolutionDependenciesAnalyzer.cs:244-268 | collects the razor documents, then the results of every syntax tree |
| SymbolAnalysis.SolutionResults | src/ContextLeech/Services/Static/DotnetSolutionDependenciesAnalyzer/StaticDotnetSolutionDependenciesAnalyzer.cs:111-119 | every result of the solution names an existing file with existing dependencies; with existing trees there is no self edge |
| SymbolAnalysis.AnalyzeCompilations | src/ContextLeech/Services/Static/DotnetSolutionDependenciesAnalyzer/StaticDotnetSolutionDependenciesAnalyzer.cs:111-119 | collects the results of every compilation |
| StaticAnalyzer.CSharpCompilations | src/ContextLeech/Services/Static/DotnetSolutionDependenciesAnalyzer/StaticDotnetSolutionDependenciesAnalyzer.cs:98-109 | keeps exactly the projects that have a C# compilation |
| StaticAnalyzer.EnsureEntry | src/ContextLeech/Services/Static/DotnetSolutionDependenciesAnalyzer/StaticDotnetSolutionDependenciesAnalyzer.cs:225-237 | adds a key for the file if it has none (with an empty set) and changes no existing entry |
| StaticAnalyzer.AddTo | src/ContextLeech/Services/Static/DotnetSolutionDependenciesAnalyzer/StaticDotnetSolutionDependenciesAnalyzer.cs:231-238 | adds one file to one entry's set and leaves the other entries alone |
| StaticAnalyzer.CreateUpstreamGraph | src/ContextLeech/Services/Static/DotnetSolutionDependenciesAnalyzer/StaticDotnetSolutionDependenciesAnalyzer.cs:220-242 | keys are every result's file and every dependency target (case-insensitive); each value is the union of the dependencies of that file's results; every spelling comes from the results |
| StaticAnalyzer.AddResult | src/ContextLeech/Services/Static/DotnetSolutionDependenciesAnalyzer/StaticDotnetSolutionDependenciesAnalyzer.cs:223-239 | one result's file gets its dependencies and every target gets an entry |
| StaticAnalyzer.UpstreamOfKeys | src/ContextLeech/Services/Static/DotnetSolutionDependenciesAnalyzer/StaticDotnetSolutionDependenciesAnalyzer.cs:220-242 | a file that is no key has no upstream dependencies |
| StaticAnalyzer.UpstreamClosed | src/ContextLeech/Services/Static/DotnetSolutionDependenciesAnalyzer/StaticDotnetSolutionDependenciesAnalyzer.cs:220-242 | every dependency target of the upstream map is itself a key |
| StaticAnalyzer.UpstreamOfAvoids | src/ContextLeech/Services/Static/DotnetSolutionDependenciesAnalyzer/StaticDotnetSolutionDependenciesAnalyzer.cs:220-242 | results without self edges give no file itself as an upstream dependency |
| StaticAnalyzer.UpstreamNoSelfLoops | src/ContextLeech/Services/Static/DotnetSolutionDependenciesAnalyzer/StaticDotnetSolutionDependenciesAnalyzer.cs:220-242 | results without self edges give an upstream map without self loops |
| StaticAnalyzer.CreateDownstreamGraph | src/ContextLeech/Services/Static/DotnetSolutionDependenciesAnalyzer/StaticDotnetSolutionDependenciesAnalyzer.cs:187-218 | every upstream key has a downstream entry; `a` is downstream of `b` exactly when `b` is upstream of `a` (case-insensitive); every spelling comes from the results |
| StaticAnalyzer.AddDependents | src/ContextLeech/Services/Static/DotnetSolutionDependenciesAnalyzer/StaticDotnetSolutionDependenciesAnalyzer.cs:191-210 | one upstream entry's file becomes a dependent of each of its targets |
| StaticAnalyzer.TransposeKeys | src/ContextLeech/Services/Static/DotnetSolutionDependenciesAnalyzer/StaticDotnetSolutionDependenciesAnalyzer.cs:187-242 | for the closed upstream map, the downstream map has the same keys |
| StaticAnalyzer.TransposeNoSelfLoops | src/ContextLeech/Services/Static/DotnetSolutionDependenciesAnalyzer/StaticDotnetSolutionDependenciesAnalyzer.cs:187-218 | the transpose of a map without self loops has none |
| StaticAnalyzer.BuildersSpelledTranspose | src/ContextLeech/Services/Static/DotnetSolutionDependenciesAnalyzer/StaticDotnetSolutionDependenciesAnalyzer.cs:187-242 | when every file has a single spelling, the two maps are transposes spelling for spelling |
| StaticAnalyzer.SpelledTransposeSymmetric | src/ContextLeech/Services/Static/DotnetSolutionDependenciesAnalyzer/StaticDotnetSolutionDependenciesAnalyzer.cs:187-218 | being transposes spelling for spelling is symmetric |
| StaticAnalyzer.ExistingSpelling | src/ContextLeech/Services/Static/DotnetSolutionDependenciesAnalyzer/StaticDotnetSolutionDependenciesAnalyzer.cs:169-179 | a spelling is kept exactly when it is the stored spelling of a value and names an existing file |
| StaticAnalyzer.ExistingValues | src/ContextLeech/Services/Static/DotnetSolutionDependenciesAnalyzer/StaticDotnetSolutionDependenciesAnalyzer.cs:169-179 | the inner loop keeps exactly the existing stored spellings |
| StaticAnalyzer.TransformToResultGraph | src/ContextLeech/Services/Static/DotnetSolutionDependenciesAnalyzer/StaticDotnetSolutionDependenciesAnalyzer.cs:158-185 | keeps exactly the entries whose file exists, each with exactly its existing values; every kept key and value exists |
| StaticAnalyzer.ResultNoSelfEdges | src/ContextLeech/Services/Static/DotnetSolutionDependenciesAnalyzer/StaticDotnetSolutionDependenciesAnalyzer.cs:158-185 | the existence filter introduces no self edge |
| StaticAnalyzer.ResultGraphsTransposed | src/ContextLeech/Services/Static/DotnetSolutionDependenciesAnalyzer/StaticDotnetSolutionDependenciesAnalyzer.cs:158-185 | filtering two spelled transposes with equal keys by existence gives transposes with equal keys |
| StaticAnalyzer.ResultEdgesKept | src/ContextLeech/Services/Static/DotnetSolutionDependenciesAnalyzer/StaticDotnetSolutionDependenciesAnalyzer.cs:158-185 | every edge of one filtered map appears reversed in the other |
| StaticAnalyzer.ResultKeysIncluded | src/ContextLeech/Services/Static/DotnetSolutionDependenciesAnalyzer/StaticDotnetSolutionDependenciesAnalyzer.cs:158-185 | key inclusion survives the existence filter |
| StaticAnalyzer.Filtered | src/ContextLeech/Services/Static/DotnetSolutionDependenciesAnalyzer/StaticDotnetSolutionDependenciesAnalyzer.cs:133-156 | keeps exactly the keys under the root, each with exactly its values under the root (ordinal) |
| StaticAnalyzer.FilterFilesOutsideProjectDirectory | src/ContextLeech/Services/Static/DotnetSolutionDependenciesAnalyzer/StaticDotnetSolutionDependenciesAnalyzer.cs:133-156 | the loop computes the root filter |
| StaticAnalyzer.UnderRoot | src/ContextLeech/Services/Static/DotnetSolutionDependenciesAnalyzer/StaticDotnetSolutionDependenciesAnalyzer.cs:142-149 | the inner loop keeps exactly the values under the root |
| StaticAnalyzer.FilteredNoSelfEdges | src/ContextLeech/Services/Static/DotnetSolutionDependenciesAnalyzer/StaticDotnetSolutionDependenciesAnalyzer.cs:133-156 | the root filter introduces no self edge |
| StaticAnalyzer.FilteredTransposed | src/ContextLeech/Services/Static/DotnetSolutionDependenciesAnalyzer/StaticDotnetSolutionDependenciesAnalyzer.cs:133-156 | the root filter keeps two transposes with equal keys transposed, with equal keys |
| StaticAnalyzer.FilteredExisting | src/ContextLeech/Services/Static/DotnetSolutionDependenciesAnalyzer/StaticDotnetSolutionDependenciesAnalyzer.cs:121-156 | after the filters every key and value exists and lies under the root |
| StaticAnalyzer.ProjectResultsNoSelfEdges | src/ContextLeech/Services/Static/DotnetSolutionDependenciesAnalyzer/StaticDotnetSolutionDependenciesAnalyzer.cs:111-119 | with existing trees no result of the solution has a self edge |
| StaticAnalyzer.PipelineNoSelfEdges | src/ContextLeech/Services/Static/DotnetSolutionDependenciesAnalyzer/StaticDotnetSolutionDependenciesAnalyzer.cs:121-130 | results without self edges give returned maps without self edges |
| StaticAnalyzer.PipelineTransposed | src/ContextLeech/Services/Static/DotnetSolutionDependenciesAnalyzer/StaticDotnetSolutionDependenciesAnalyzer.cs:121-130 | with a single spelling per file, the returned upstream and downstream maps are transposes with equal keys |
| StaticAnalyzer.PipelineProperties | src/ContextLeech/Services/Static/DotnetSolutionDependenciesAnalyzer/StaticDotnetSolutionDependenciesAnalyzer.cs:121-130 | the pipeline's maps exist and lie under the root, have no self edges with existing trees, and are transposes with a single spelling per file |
| StaticAnalyzer.AnalyzeSolution | src/ContextLeech/Services/Static/DotnetSolutionDependenciesAnalyzer/StaticDotnetSolutionDependenciesAnalyzer.cs:67-131 | fails exactly when the root is missing, the solution file is missing, or the solution is outside the root (in that order); on success both maps exist and lie under the root, have no self edges with existing trees, and are transposes with equal keys with a single spelling per file; they are the root-filtered, existence-filtered upstream graph of `ProjectResults` and its transpose |
| LegacyAnalyzer.ResultFiles | src/ContextLeech/Services/Static/DotnetSolutionDependencies/DotnetSolutionDependenciesAnalyzer.cs:52-65 | the files with results are among the keys the later builder uses |
| LegacyAnalyzer.CreateLegacyUpstream | src/ContextLeech/Services/Static/DotnetSolutionDependencies/DotnetSolutionDependenciesAnalyzer.cs:52-65 | keys are exactly the results' files; each value is the union of their dependencies; targets get no key |
| LegacyAnalyzer.AddLegacyResult | src/ContextLeech/Services/Static/DotnetSolutionDependencies/DotnetSolutionDependenciesAnalyzer.cs:54-64 | one result's file gets its dependencies and no other key is added |
| LegacyAnalyzer.UpstreamOfResultFiles | src/ContextLeech/Services/Static/DotnetSolutionDependencies/DotnetSolutionDependenciesAnalyzer.cs:52-65 | a file without results has no upstream dependencies |
| LegacyAnalyzer.CreateLegacyDownstream | src/ContextLeech/Services/Static/DotnetSolutionDependencies/DotnetSolutionDependenciesAnalyzer.cs:67-81 | the downstream map is the transpose of upstream, and its keys are exactly the files with at least one dependent |
| LegacyAnalyzer.AddLegacyDependents | src/ContextLeech/Services/Static/DotnetSolutionDependencies/DotnetSolutionDependenciesAnalyzer.cs:69-80 | one upstream entry's file becomes a dependent of each of its targets |
| LegacyAnalyzer.AnalyzeLegacySolution | src/ContextLeech/Services/Static/DotnetSolutionDependencies/DotnetSolutionDependenciesAnalyzer.cs:23-84 | returns the older upstream map and its transpose, unfiltered and without argument checks |
| LegacyAnalyzer.LegacyUpstreamAgrees | src/ContextLeech/Services/Static/DotnetSolutionDependencies/DotnetSolutionDependenciesAnalyzer.cs:52-65 | the older upstream map is the later one without its empty entries |
| LegacyAnalyzer.LegacyDownstreamAgrees | src/ContextLeech/Services/Static/DotnetSolutionDependencies/DotnetSolutionDependenciesAnalyzer.cs:67-81 | the older downstream map is the later one without its empty entries |
| DependenciesGraphs.DependenciesGraph.constructor | src/ContextLeech/Services/Static/DotnetSolutionDependenciesAnalyzer/Models/DependenciesGraph.cs:15-26 | stores the root and both maps |
| DependenciesGraphs.DependenciesGraph.Merge | src/ContextLeech/Services/Static/DotnetSolutionDependenciesAnalyzer/Models/DependenciesGraph.cs:36-42 | both maps become their merge with the other graph's maps |
| DependenciesGraphs.DependenciesGraph.MergeInto | src/ContextLeech/Services/Static/DotnetSolutionDependenciesAnalyzer/Models/DependenciesGraph.cs:44-66 | the loop computes the merged map |
| DependenciesGraphs.MergeKeeps | src/ContextLeech/Services/Static/DotnetSolutionDependenciesAnalyzer/Models/DependenciesGraph.cs:44-66 | no existing key or value is lost; keys absent from the other map are untouched; every key and value of the other map is present |
| DependenciesGraphs.MergeAbsorbs | src/ContextLeech/Services/Static/DotnetSolutionDependenciesAnalyzer/Models/DependenciesGraph.cs:48-59 | merging a map whose keys and values are already present changes nothing |
| DependenciesGraphs.MergeIdempotent | src/ContextLeech/Services/Static/DotnetSolutionDependenciesAnalyzer/Models/DependenciesGraph.cs:48-59 | merging the same map twice equals merging it once |
| DependenciesGraphs.MergeIntoEmpty | src/ContextLeech/Services/Static/Metadata/StaticMetadataService.cs:33-38 | merging into the empty graph the accumulation starts from gives the merged map |
| DependenciesGraphs.MergeTransposed | src/ContextLeech/Services/Static/DotnetSolutionDependenciesAnalyzer/Models/DependenciesGraph.cs:36-42 | merging transposes into transposes keeps them transposed |
| DependenciesGraphs.MergeEdgesKept | src/ContextLeech/Services/Static/DotnetSolutionDependenciesAnalyzer/Models/DependenciesGraph.cs:36-42 | merging keeps every edge reversed in the other map |
| DependenciesGraphs.MergeAllEdges | src/ContextLeech/Services/Static/Metadata/StaticMetadataService.cs:33-38 | folding the solutions' graphs into one has exactly the keys and edges of some solution |
| DependenciesGraphs.MergeAllTransposed | src/ContextLeech/Services/Static/Metadata/StaticMetadataService.cs:33-38 | folding transposed solution graphs gives transposed maps |
| DependenciesGraphs.DependenciesGraph.SerializeDependencies | src/ContextLeech/Services/Static/DotnetSolutionDependenciesAnalyzer/Models/DependenciesGraph.cs:76-96 | every key is stored under its relative form, with its files' relative forms deduplicated case-insensitively |
| DependenciesGraphs.DependenciesGraph.Serialize | src/ContextLeech/Services/Static/DotnetSolutionDependenciesAnalyzer/Models/DependenciesGraph.cs:68-74 | the container has format version 1 and both maps in stored form |
| DependenciesGraphs.WrittenForwardSlashes | src/ContextLeech/Services/Static/DotnetSolutionDependenciesAnalyzer/Models/DependenciesGraph.cs:76-96 | no stored key or value contains `\` |
| DependenciesGraphs.RelativeSetExact | src/ContextLeech/Services/Static/DotnetSolutionDependenciesAnalyzer/Models/DependenciesGraph.cs:82-92 | with relative forms distinct by case, every file's relative form is stored |
| DependenciesGraphs.DependenciesGraph.TryReadFiles | src/ContextLeech/Services/Static/DotnetSolutionDependenciesAnalyzer/Models/DependenciesGraph.cs:173-192 | succeeds exactly when every listed file resolves to an existing file; then the set is exactly the resolved files |
| DependenciesGraphs.DependenciesGraph.TryDeserializeGraph | src/ContextLeech/Services/Static/DotnetSolutionDependenciesAnalyzer/Models/DependenciesGraph.cs:142-199 | succeeds exactly when the root exists and every key and value resolves to an existing file; then the map has one resolved key per stored key, each with exactly the resolved files |
| DependenciesGraphs.DependenciesGraph.TryDeserialize | src/ContextLeech/Services/Static/DotnetSolutionDependenciesAnalyzer/Models/DependenciesGraph.cs:99-140 | returns a graph exactly when the root exists, the container is present with version 1 and both maps resolve; then both maps are read back |
| DependenciesGraphs.ReadBackExists | src/ContextLeech/Services/Static/DotnetSolutionDependenciesAnalyzer/Models/DependenciesGraph.cs:142-199 | every key and value of a read-back graph exists |
| DependenciesGraphs.ReproducibleInverts | src/ContextLeech/Services/Static/DotnetSolutionDependenciesAnalyzer/Models/DependenciesGraph.cs:68-199 | for paths that survive the stored form, resolving undoes taking the relative path |
| DependenciesGraphs.SerializedResolves | src/ContextLeech/Services/Static/DotnetSolutionDependenciesAnalyzer/Models/DependenciesGraph.cs:68-199 | the stored form of a graph of existing files resolves |
| DependenciesGraphs.RoundTrip | src/ContextLeech/Services/Static/DotnetSolutionDependenciesAnalyzer/Models/DependenciesGraph.cs:68-199 | reading back the stored form of a graph gives the same graph |
| ProjectAnalyzer.CreatedToc | src/ContextLeech/Services/Analyzer/ProjectAnalyzer.cs:218-228 | succeeds exactly when every file is under the root; the keys are exactly the files' relative paths and each value is one of the GUIDs plus `.json`; otherwise the error names the first file outside the root |
| ProjectAnalyzer.CreatedTocFails | src/ContextLeech/Services/Analyzer/ProjectAnalyzer.cs:218-228 | when file i is the first outside the root, creation fails with that file |
| ProjectAnalyzer.CreateToc | src/ContextLeech/Services/Analyzer/ProjectAnalyzer.cs:218-228 | the loop computes the created TOC |
| ProjectAnalyzer.ExistingToc | src/ContextLeech/Services/Analyzer/ProjectAnalyzer.cs:230-275 | present exactly when the TOC file exists, parses, and some entry's file exists under the root; then it keeps exactly those entries, with their values |
| ProjectAnalyzer.KeptNonEmpty | src/ContextLeech/Services/Analyzer/ProjectAnalyzer.cs:250-274 | the kept entries are non-empty exactly when some entry's file exists |
| ProjectAnalyzer.TryReadExistingToc | src/ContextLeech/Services/Analyzer/ProjectAnalyzer.cs:230-275 | reads the TOC at the context path and filters it |
| ProjectAnalyzer.Reconciled | src/ContextLeech/Services/Analyzer/ProjectAnalyzer.cs:180-190 | has exactly the created keys; each value comes from the existing TOC when it has the key, otherwise from the created one |
| ProjectAnalyzer.Reconcile | src/ContextLeech/Services/Analyzer/ProjectAnalyzer.cs:183-190 | the loop overwrites the entries into the reconciled TOC |
| ProjectAnalyzer.Stale | src/ContextLeech/Services/Analyzer/ProjectAnalyzer.cs:200-211 | a file is stale exactly when it is a top-level `*.json` result file whose name is not a TOC value |
| ProjectAnalyzer.Cleanup | src/ContextLeech/Services/Analyzer/ProjectAnalyzer.cs:200-211 | the loop deletes the stale result files |
| ProjectAnalyzer.CleanupKeepsResults | src/ContextLeech/Services/Analyzer/ProjectAnalyzer.cs:200-211 | a result file named by a TOC value survives cleanup |
| ProjectAnalyzer.CleanupDeletesStale | src/ContextLeech/Services/Analyzer/ProjectAnalyzer.cs:200-211 | a file cleanup removes is a top-level `*.json` in the results directory whose name is not a TOC value |
| ProjectAnalyzer.InitToc | src/ContextLeech/Services/Analyzer/ProjectAnalyzer.cs:178-216 | creates the TOC, reconciles it with the existing one and cleans up, as the specification function states |
| ProjectAnalyzer.InitializedTocKeys | src/ContextLeech/Services/Analyzer/ProjectAnalyzer.cs:178-228 | with every file under the root, the TOC has exactly the files' relative paths as keys; each value is the existing TOC's when it has the key, otherwise a GUID plus `.json` |
| ProjectAnalyzer.OrderedElements | src/ContextLeech/Services/Analyzer/ProjectAnalyzer.cs:121-139 | the ordered list of a set holds each element once and nothing else |
| ProjectAnalyzer.OrderByFullName | src/ContextLeech/Services/Analyzer/ProjectAnalyzer.cs:121-139 | returns the set sorted in ordinal order |
| ProjectAnalyzer.QueueOrderTotal | src/ContextLeech/Services/Analyzer/ProjectAnalyzer.cs:149-153 | the queue order (upstream count, then path) is a total preorder |
| ProjectAnalyzer.Pending | src/ContextLeech/Services/Analyzer/ProjectAnalyzer.cs:113-146 | fails exactly when the file is not under the root or its relative path is no TOC key; queues the file exactly when its result file does not exist, with its result path and its sorted upstream and downstream files |
| ProjectAnalyzer.PendingEntry | src/ContextLeech/Services/Analyzer/ProjectAnalyzer.cs:113-146 | the loop body computes one file's queue entry |
| ProjectAnalyzer.EntriesSucceed | src/ContextLeech/Services/Analyzer/ProjectAnalyzer.cs:113-146 | collecting the entries succeeds exactly when every file's step succeeds |
| ProjectAnalyzer.EntriesMembers | src/ContextLeech/Services/Analyzer/ProjectAnalyzer.cs:113-146 | an entry is collected exactly when some file's step yields it |
| ProjectAnalyzer.CreateAnalysisQueue | src/ContextLeech/Services/Analyzer/ProjectAnalyzer.cs:106-154 | the loop and sort compute the analysis queue |
| ProjectAnalyzer.QueueMembers | src/ContextLeech/Services/Analyzer/ProjectAnalyzer.cs:113-146 | the queue holds exactly the project files whose result file does not exist, each with its result path |
| ProjectAnalyzer.QueueFilesInToc | src/ContextLeech/Services/Analyzer/ProjectAnalyzer.cs:116 | a queue that was built has every project file's relative path as a TOC key |
| ProjectAnalyzer.QueueEntries | src/ContextLeech/Services/Analyzer/ProjectAnalyzer.cs:113-146 | every queued entry is a project file with its TOC result path, which does not exist |
| ProjectAnalyzer.QueueSorted | src/ContextLeech/Services/Analyzer/ProjectAnalyzer.cs:149-153 | the queue is a permutation of the collected entries, sorted by upstream count and then by path |
| ProjectAnalyzer.QueuedDependencies | src/ContextLeech/Services/Analyzer/ProjectAnalyzer.cs:121-139 | each entry's upstream and downstream lists are the graph's sets for that file, sorted, each file once; empty for a file with no key |
| ProjectAnalyzer.QueueAfterInitToc | src/ContextLeech/Services/Analyzer/ProjectAnalyzer.cs:178-228 | with every file under the root, the TOC is created and the queue built on it never fails |
| Logging.LogLevelString | src/ContextLeech/Infrastructure/Logging/PrefixFormatter.cs:241-253 | a string for exactly the six known levels; none for any other level |
| Logging.LevelStringsAlign | src/ContextLeech/Infrastructure/Logging/PrefixFormatter.cs:14-18 | every level string plus `": "` is six characters, the message padding; different levels have different strings |
| Logging.Spaces | src/ContextLeech/Infrastructure/Logging/PrefixFormatter.cs:18 | n spaces |
| Logging.ColorCodes | src/ContextLeech/Infrastructure/Logging/PrefixFormatter.cs:121-158 | each bright foreground code is the bold code plus the dark one; unlisted colours fall back to the default foreground or background |
| Logging.LogLevelConsoleColors | src/ContextLeech/Infrastructure/Logging/PrefixFormatter.cs:255-278 | both colours are present or both absent, and present exactly when colours are enabled and the level is known |
| Logging.ColoredMessage | src/ContextLeech/Infrastructure/Logging/PrefixFormatter.cs:92-119 | the text sits between the background then foreground code and the foreground then background reset, each written exactly when its colour is present |
| Logging.PrefixFormatter.WriteColoredMessage | src/ContextLeech/Infrastructure/Logging/PrefixFormatter.cs:92-119 | appends the coloured message to the writer |
| Logging.DigitsFit | src/ContextLeech/Infrastructure/Logging/PrefixFormatter.cs:181-185 | a number has at most k digits exactly when it is below 10^k |
| Logging.EventIdWritten | src/ContextLeech/Infrastructure/Logging/PrefixFormatter.cs:181-185 | the event id is written exactly when it is above -1000000000, and nothing is written otherwise |
| Logging.SingleLineMessageUnix | src/ContextLeech/Infrastructure/Logging/PrefixFormatter.cs:212-220 | in single-line mode on Unix the message pieces hold no line feed |
| Logging.SingleLineMessageWindows | src/ContextLeech/Infrastructure/Logging/PrefixFormatter.cs:212-220 | on Windows no CR LF pair survives, but a bare line feed does |
| Logging.MultiLineMessage | src/ContextLeech/Infrastructure/Logging/PrefixFormatter.cs:222-226 | in multi-line mode the pieces are the padding, the padded message and a newline, and removing the padding after each newline gives the message back |
| Logging.PrefixFormatter.WriteMessage | src/ContextLeech/Infrastructure/Logging/PrefixFormatter.cs:212-234 | appends the message pieces to the writer |
| Logging.ScopesShape | src/ContextLeech/Infrastructure/Logging/PrefixFormatter.cs:280-306 | two pieces per scope, plus the padding in multi-line mode; the last piece is the last scope |
| Logging.PrefixFormatter.WriteScopeInformation | src/ContextLeech/Infrastructure/Logging/PrefixFormatter.cs:280-306 | appends the scope pieces when scopes are included |
| Logging.PrefixFormatter.WriteScopes | src/ContextLeech/Infrastructure/Logging/PrefixFormatter.cs:280-306 | the loop appends the scope pieces |
| Logging.PrefixFormatter.CreateDefaultLogMessage | src/ContextLeech/Infrastructure/Logging/PrefixFormatter.cs:160-210 | appends the header, then the scopes, the message and the exception, then a newline in single-line mode |
| Logging.LogPieces | src/ContextLeech/Infrastructure/Logging/PrefixFormatter.cs:43-90 | nothing when message and exception are both absent; fails exactly when there is something to write but the level is unknown |
| Logging.SingleLineEntryUnix | src/ContextLeech/Infrastructure/Logging/PrefixFormatter.cs:54-209 | a single-line entry on Unix is one line ending in a newline |
| Logging.PrefixFormatter.Write | src/ContextLeech/Infrastructure/Logging/PrefixFormatter.cs:43-90 | nothing without a writer; otherwise appends the log pieces, or throws for an unknown level |
| Logging.PrefixFormatter.constructor | src/ContextLeech/Infrastructure/Logging/PrefixFormatter.cs:22-28 | stores the options |
| Logging.PrefixFormatter.ReloadLoggerOptions | src/ContextLeech/Infrastructure/Logging/PrefixFormatter.cs:38-41 | replaces the options |

## Left out

- **Roslyn and MSBuild.** Workspaces, compilations, semantic models and the reflection-based `IsExternalType` are replaced by a symbol table whose records carry an external flag and source locations.
- **Type names.** `GetFullTypeName` and the `TypeName` of results are not modelled; nothing downstream uses the name.
- **Parallelism.** The per-project results are collected in a `ConcurrentBag` in parallel. The model collects them in sequence; the graphs are built from set unions, so order does not matter.
- **I/O and JSON.** File reading, writing and deletion, directory enumeration and JSON text become values: `FileSystem` holds the existing files and directories; the parsed container is an `Option` parameter, `None` when parsing fails or yields null. `InitResultsDirectory`, `SaveToc`, `SaveAnalyzedFile`, `Save` and `TryReadExisting` of the analyzer are not modelled.
- **Analysis loop.** `AnalyzeProjectAsync` and the LLM/MCP workflow are not part of this model.
- **Clock, GUIDs and scopes.** The formatted timestamp, the GUIDs `CreateToc` draws, and the scope strings the scope provider enumerates are parameters.
- **Formatter disposal.** `Dispose` and the options reload token are left out.
- **Case-insensitive collections.** A case-insensitive set is a map from the upper-cased spelling to the first spelling stored; case folding is ASCII only.
- **Case-insensitive file system.** Path existence is an ordinal match on full names.
- **Culture-aware ordering.** `OrderBy` on paths uses the current culture's comparer; the model sorts in ordinal order.
- **Relative paths.** `Path.GetRelativePath` is modelled for a path of the form root + separator + rest and for the root itself; for any other path it returns the path unchanged.
- **Path normalisation.** `FullName` turns `/` into `\` on Windows and is otherwise the identity: `.`/`..` segments, UNC paths and relative inputs are not normalised.
- **Unix backslashes.** On Unix a `\` inside a file name becomes `/` in the stored form; the round trips assume paths without one.
- **Context directory.** The context sub-directory name is a parameter.
- **File identity.** `FileInfo` objects compare by reference; the model identifies files by full name, so two objects for one path are one file.
- **Merge aliasing.** `Merge` inserts the other graph's own set for a new key, so later changes to one are seen in the other; the model copies values.
- **Null arguments.** The `ArgumentNullException` guards become non-null parameter types.
- **Exceptions.** The constructors' `ArgumentException` becomes a `Create` method returning a `Result`; the formatter's exception for an unknown level becomes a `thrown` result.
- StaticAnalyzer.AnalyzeSolution: proves the two maps transposes with equal keys only when no two result spellings differ by case alone, because the maps keep whichever spelling came first.
- StaticAnalyzer.AnalyzeSolution: proves the absence of self edges only when every syntax tree's path is absent or exists; a razor-mapped result is checked against the tree's path, not its own.
- DependenciesGraphs.RoundTrip: assumes that no two relative paths differ by case alone, since the serialiser deduplicates them case-insensitively.
- StaticProject.RoundTrip: states equality of the files as a multiset, since the stored form is sorted.
- Logging.SingleLineEntryUnix: is stated for Unix only; on Windows a bare line feed in the message survives single-line mode.
- SymbolAnalysis.RazorFiles: takes the resolver's paths to be full names already (`FullName(x) == x`); stores each razor document's reported path, while the source stores `new FileInfo(path).FullName` (src/ContextLeech/Services/Static/DotnetSolutionDependenciesAnalyzer/StaticDotnetSolutionDependenciesAnalyzer.cs:256). Among absolute paths, only Windows paths containing `/` are affected, since `FullName` is otherwise the identity here.
- SymbolAnalysis.FirstRazorCandidate: takes the resolver's paths to be full names already (`FullName(x) == x`); looks up and returns a syntax tree's reported path, while the source looks up and returns its `FileInfo.FullName` (src/ContextLeech/Services/Static/DotnetSolutionDependenciesAnalyzer/StaticDotnetSolutionDependenciesAnalyzer.cs:379-381). Among absolute paths, only Windows paths containing `/` are affected, since `FullName` is otherwise the identity here.
- SymbolAnalysis.IsRazorFile: takes the resolver's paths to be full names already (`FullName(x) == x`); inherits the same reading of `FileInfo.FullName` as the identity on reported paths (src/ContextLeech/Services/Static/DotnetSolutionDependenciesAnalyzer/StaticDotnetSolutionDependenciesAnalyzer.cs:379-381). Among absolute paths, only Windows paths containing `/` are affected, since `FullName` is otherwise the identity here.
- SymbolAnalysis.CleanedDependencies: takes the resolver's paths to be full names already (`FullName(x) == x`); compares and keeps each dependency's reported path, while the source compares and keeps `FileInfo.FullName` of both sides (src/ContextLeech/Services/Static/DotnetSolutionDependenciesAnalyzer/StaticDotnetSolutionDependenciesAnalyzer.cs:347-355). Among absolute paths, only Windows paths containing `/` are affected, since `FullName` is otherwise the identity here.
- SymbolAnalysis.CleanDependencies: takes the resolver's paths to be full names already (`FullName(x) == x`); carries the same reading as `CleanedDependencies` (src/ContextLeech/Services/Static/DotnetSolutionDependenciesAnalyzer/StaticDotnetSolutionDependenciesAnalyzer.cs:347-355). Among absolute paths, only Windows paths containing `/` are affected, since `FullName` is otherwise the identity here.
- StaticAnalyzer.ExistingSpelling: takes the resolver's paths to be full names already (`FullName(x) == x`); keeps a value's reported path, while the source keys the result by a `FileInfo` built from it (src/ContextLeech/Services/Static/DotnetSolutionDependenciesAnalyzer/StaticDotnetSolutionDependenciesAnalyzer.cs:172). Among absolute paths, only Windows paths containing `/` are affected, since `FullName` is otherwise the identity here.
- StaticAnalyzer.ExistingValues: takes the resolver's paths to be full names already (`FullName(x) == x`); keeps the values' reported paths, while the source builds a `FileInfo` for each (src/ContextLeech/Services/Static/DotnetSolutionDependenciesAnalyzer/StaticDotnetSolutionDependenciesAnalyzer.cs:169-179). Among absolute paths, only Windows paths containing `/` are affected, since `FullName` is otherwise the identity here.
- StaticAnalyzer.TransformToResultGraph: takes the resolver's paths to be full names already (`FullName(x) == x`); keeps each key's reported path, while the source keys the result by `new FileInfo(key)` (src/ContextLeech/Services/Static/DotnetSolutionDependenciesAnalyzer/StaticDotnetSolutionDependenciesAnalyzer.cs:163). Among absolute paths, only Windows paths containing `/` are affected, since `FullName` is otherwise the identity here.
