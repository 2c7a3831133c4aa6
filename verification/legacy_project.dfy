/** The project the scanner builds: an existing root directory and the files
    added to it, identified by their full names. */
module LegacyProject {
  import opened Wrappers
  import opened Paths
  import opened FileSystem

  /** The `ArgumentException` of the constructor. */
  datatype ProjectError = RootDoesNotExist(root: string)

  class Project {
    /** The root directory, as given. */
    const root: string
    /** The files in the order they were added; the same file may be added
        twice. */
    var files: seq<string>

    /** `new Project(projectRoot)` once the root is known to exist. */
    constructor (p: Platform, fs: FileSystem, projectRoot: string)
      requires FullName(p, projectRoot) in fs.directories
      ensures root == projectRoot && files == []
    {
      root := projectRoot;
      files := [];
    }

    /** `new Project(projectRoot)`, which fails when the root does not exist. */
    static method Create(p: Platform, fs: FileSystem, projectRoot: string) returns (r: Result<Project, ProjectError>)
      ensures r.Success? <==> FullName(p, projectRoot) in fs.directories
      ensures r.Failure? ==> r.error == RootDoesNotExist(FullName(p, projectRoot))
      ensures r.Success? ==> fresh(r.value) && r.value.root == projectRoot && r.value.files == []
    {
      if FullName(p, projectRoot) !in fs.directories {
        return Failure(RootDoesNotExist(FullName(p, projectRoot)));
      }
      var project := new Project(p, fs, projectRoot);
      return Success(project);
    }

    method AddFile(file: string)
      modifies this
      ensures files == old(files) + [file]
    {
      files := files + [file];
    }

    method GetFiles() returns (r: seq<string>)
      ensures r == files
    {
      return files;
    }
  }
}
