/** `ProjectFileSystem.IsFileWithinDirectory`: whether a file lies in a
    sub-directory of the project root. */
module ProjectFileSystem {
  import opened Wrappers
  import opened Text
  import opened Paths
  import opened FileSystem

  /** The root and the file must exist and the file must have a directory;
      then the file's directory, trailing separators trimmed, must start with
      the trimmed root and a separator, ignoring case. */
  predicate IsFileWithinDirectory(p: Platform, fs: FileSystem, projectRoot: string, projectFile: string)
  {
    var root := FullName(p, projectRoot);
    var file := FullName(p, projectFile);
    var dir := DirectoryName(p, file);
    if root !in fs.directories || file !in fs.files || dir.None? then false
    else
      var rootPath := TrimEnd(p, FullName(p, root));
      var filePath := TrimEnd(p, FullName(p, dir.value));
      StartsWithIgnoreCase(filePath, rootPath + [Separator(p)])
  }

  /** Only an existing file under an existing root can be within it, and its
      directory is then longer than the trimmed root. */
  lemma WithinExists(p: Platform, fs: FileSystem, projectRoot: string, projectFile: string)
    requires IsFileWithinDirectory(p, fs, projectRoot, projectFile)
    ensures FullName(p, projectRoot) in fs.directories && FullName(p, projectFile) in fs.files
    ensures DirectoryName(p, FullName(p, projectFile)).Some?
    ensures |TrimEnd(p, FullName(p, DirectoryName(p, FullName(p, projectFile)).value))|
              > |TrimEnd(p, FullName(p, FullName(p, projectRoot)))|
  {
  }

  /** A file directly inside the root is not within it: its directory is the
      root itself, not the root and a separator. */
  lemma DirectChildIsNotWithin(p: Platform, fs: FileSystem, root: string, name: string)
    requires |root| > 0 && root[|root| - 1] != Separator(p) && FullName(p, root) == root
    requires |root| >= RootLength(p, root + [Separator(p)] + name)
    requires forall i | 0 <= i < |name| :: !IsSeparator(p, name[i])
    ensures !IsFileWithinDirectory(p, fs, root, root + [Separator(p)] + name)
  {
    var file := root + [Separator(p)] + name;
    FullNameNoSlash(p, name);
    FullNameOfJoin(p, root, name);
    if p.Windows? {
      NoForwardSlash(root);
    }
    DirectoryNameOf(p, root, name);
    assert TrimEnd(p, root) == root;
  }

  /** A file under a sibling directory whose name extends the root's last
      name is not within the root. */
  lemma SiblingIsNotWithin(p: Platform, fs: FileSystem, root: string, c: char, rest: string)
    requires |root| > 0 && root[|root| - 1] != Separator(p) && FullName(p, root) == root
    requires !IsSeparator(p, c) && FullName(p, root + [c] + rest) == root + [c] + rest
    ensures !IsFileWithinDirectory(p, fs, root, root + [c] + rest)
  {
    var file := root + [c] + rest;
    var dir := DirectoryName(p, file);
    if dir.Some? && FullName(p, file) in fs.files && FullName(p, root) in fs.directories {
      var filePath := TrimEnd(p, FullName(p, dir.value));
      PrefixFullName(p, file, dir.value);
      assert TrimEnd(p, root) == root;
      if |filePath| > |root| {
        assert filePath[|root|] == c;
        assert UpperChar(c) != UpperChar(Separator(p));
        assert Fold(filePath[..|root| + 1])[|root|] != Fold(root + [Separator(p)])[|root|];
      }
    }
  }

  /** A file in a sub-directory of the root is within it. */
  lemma NestedIsWithin(p: Platform, fs: FileSystem, root: string, sub: string, name: string)
    requires |root| > 0 && root[|root| - 1] != Separator(p) && FullName(p, root) == root
    requires |sub| > 0 && !IsSeparator(p, sub[|sub| - 1]) && forall i | 0 <= i < |sub| :: sub[i] != '/'
    requires forall i | 0 <= i < |name| :: !IsSeparator(p, name[i])
    requires root in fs.directories && root + [Separator(p)] + sub + [Separator(p)] + name in fs.files
    ensures IsFileWithinDirectory(p, fs, root, root + [Separator(p)] + sub + [Separator(p)] + name)
  {
    var dir := root + [Separator(p)] + sub;
    NestedDirectory(p, root, sub, name);
    assert TrimEnd(p, root) == root;
    assert TrimEnd(p, dir) == dir;
    assert dir[..|root| + 1] == root + [Separator(p)];
  }

  /** The file's full name and directory in NestedIsWithin. */
  lemma NestedDirectory(p: Platform, root: string, sub: string, name: string)
    requires |root| > 0 && FullName(p, root) == root
    requires |sub| > 0 && !IsSeparator(p, sub[|sub| - 1]) && forall i | 0 <= i < |sub| :: sub[i] != '/'
    requires forall i | 0 <= i < |name| :: !IsSeparator(p, name[i])
    ensures var dir := root + [Separator(p)] + sub;
            var file := root + [Separator(p)] + sub + [Separator(p)] + name;
            FullName(p, file) == file && FullName(p, dir) == dir && DirectoryName(p, file) == Some(dir)
  {
    var dir := root + [Separator(p)] + sub;
    var file := dir + [Separator(p)] + name;
    FullNameNoSlash(p, sub);
    FullNameNoSlash(p, name);
    FullNameOfJoin(p, root, sub);
    FullNameOfJoin(p, dir, name);
    DirectoryNameOf(p, dir, name);
  }
}
