/** `FileInfoExtensions.ProjectRelativePath`: the path of a file of the
    project relative to the project root, in the stored form. */
module FileInfoExtensions {
  import opened Wrappers
  import opened Text
  import opened Paths

  /** The `InvalidOperationException` thrown for a file outside the root. */
  datatype RelativePathError = FileOutsideProject(file: string)

  /** `file.ProjectRelativePath(root)` for the full names of a file and of the
      project root: the file must start with the root (ordinal); the result is
      `Path.GetRelativePath` with `\` replaced by `/`. */
  function ProjectRelativePath(p: Platform, file: string, root: string): (r: Result<string, RelativePathError>)
    ensures r.Success? <==> StartsWith(file, root)
    ensures r.Failure? ==> r.error == FileOutsideProject(file)
    ensures r.Success? ==> r.value == Relative(p, root, file)
  {
    if !StartsWith(file, root) then Failure(FileOutsideProject(file))
    else Success(Relative(p, root, file))
  }

  /** The index of the first file outside `root`, or `|files|` when there is
      none. */
  function FirstOutside(root: string, files: seq<string>): (i: nat)
    ensures i <= |files|
    ensures forall j | 0 <= j < i :: StartsWith(files[j], root)
    ensures i < |files| ==> !StartsWith(files[i], root)
  {
    if files == [] || !StartsWith(files[0], root) then 0
    else
      assert forall j | 1 <= j < |files| :: files[j] == files[1..][j - 1];
      1 + FirstOutside(root, files[1..])
  }

  /** A file outside the root with every earlier one inside is the first. */
  lemma {:induction false} FirstOutsideIs(root: string, files: seq<string>, i: nat)
    requires i <= |files| && forall j | 0 <= j < i :: StartsWith(files[j], root)
    requires i < |files| ==> !StartsWith(files[i], root)
    ensures FirstOutside(root, files) == i
    decreases i
  {
    if i > 0 {
      assert StartsWith(files[0], root);
      assert forall j | 0 <= j < i - 1 :: files[1..][j] == files[j + 1];
      FirstOutsideIs(root, files[1..], i - 1);
    }
  }

  /** The relative path never holds `\`. */
  lemma RelativePathForwardSlashes(p: Platform, file: string, root: string)
    ensures ProjectRelativePath(p, file, root).Success? ==> '\\' !in ProjectRelativePath(p, file, root).value
  {
    NoBackslash(GetRelativePath(p, root, file));
  }

  /** A file named by the root, a separator and a rest gets the rest, with
      `/` for `\`. */
  lemma RelativePathOfChild(p: Platform, root: string, rest: string)
    requires root == [] || !IsSeparator(p, root[|root| - 1])
    requires |rest| > 0
    ensures ProjectRelativePath(p, root + [Separator(p)] + rest, root) == Success(ForwardSlashes(rest))
  {
    var file := root + [Separator(p)] + rest;
    assert file[..|root|] == root;
    assert file[|root| + 1..] == rest;
  }

  /** The check is textual: a file of a sibling directory whose name extends
      the root's last name passes it. */
  lemma SiblingPasses()
    ensures ProjectRelativePath(Unix, "/a/bc/x", "/a/b").Success?
  {
    assert "/a/bc/x"[..4] == "/a/b";
  }
}
