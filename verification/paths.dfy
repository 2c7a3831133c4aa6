/** The `System.IO.Path` and `FileInfo` behaviour the core depends on, for the
    two kinds of platform .NET distinguishes. */
module Paths {
  import opened Wrappers
  import opened Text

  datatype Platform = Unix | Windows

  /** `Path.DirectorySeparatorChar`. */
  function Separator(p: Platform): char
  {
    if p.Windows? then '\\' else '/'
  }

  /** `Path.IsDirectorySeparator`: Windows also accepts `/`. */
  predicate IsSeparator(p: Platform, c: char)
  {
    c == Separator(p) || (p.Windows? && c == '/')
  }

  /** `Environment.NewLine`. */
  function NewLine(p: Platform): string
  {
    if p.Windows? then "\r\n" else "\n"
  }

  /** `Path.IsPathRooted`. */
  predicate IsRooted(p: Platform, path: string)
  {
    (|path| > 0 && IsSeparator(p, path[0]))
    || (p.Windows? && |path| >= 2 && path[1] == ':')
  }

  /** `FileInfo.FullName` of a path that is already absolute: Windows turns the
      alternative separator into its own. */
  function FullName(p: Platform, path: string): string
  {
    if p.Windows? then ReplaceChar(path, '/', '\\') else path
  }

  /** `Path.Combine(a, b)`. */
  function Combine(p: Platform, a: string, b: string): string
  {
    if b == [] then a
    else if a == [] then b
    else if IsRooted(p, b) then b
    else if IsSeparator(p, a[|a| - 1]) then a + b
    else a + [Separator(p)] + b
  }

  /** Path texts compare ordinally on Unix and ignoring case on Windows. */
  predicate SameText(p: Platform, a: string, b: string)
  {
    if p.Windows? then Fold(a) == Fold(b) else a == b
  }

  /** Length of `root` without one trailing separator. */
  function TrimmedLength(p: Platform, root: string): nat
  {
    if |root| > 0 && IsSeparator(p, root[|root| - 1]) then |root| - 1 else |root|
  }

  /** `Path.GetRelativePath(root, path)` for a path that is `root` itself or lies
      below it: the part after the separator that follows `root`. Any other path
      is returned unchanged. */
  function GetRelativePath(p: Platform, root: string, path: string): string
  {
    var n := TrimmedLength(p, root);
    if |path| > n && SameText(p, path[..n], root[..n]) && IsSeparator(p, path[n]) then
      if |path| == n + 1 then "." else path[n + 1..]
    else if |path| == n && SameText(p, path, root[..n]) then "."
    else path
  }

  /** The relative path in the form the stored files use: `\` becomes `/`. */
  function ForwardSlashes(path: string): string
  {
    ReplaceChar(path, '\\', '/')
  }
  /** The stored form holds no `\\`. */
  lemma NoBackslash(path: string)
    ensures '\\' !in ForwardSlashes(path)
  {
    forall i | 0 <= i < |path|
      ensures ForwardSlashes(path)[i] != '\\'
    {
    }
  }

  /** A full name is its own full name. */
  lemma FullNameIdempotent(p: Platform, path: string)
    ensures FullName(p, FullName(p, path)) == FullName(p, path)
  {
  }

  /** A full name that the stored form gives back unchanged: it is the root
      (without a trailing separator), the platform's separator and a rest
      that is not rooted itself; it is already in full-name form; and on Unix
      the rest holds no `\`, which the stored form would turn into `/`. */
  predicate Reproducible(p: Platform, root: string, path: string)
  {
    var n := TrimmedLength(p, root);
    |root| > 0 && |path| > n + 1 && path[..n] == root[..n] && path[n] == Separator(p)
    && !IsRooted(p, path[n + 1..]) && FullName(p, path) == path
    && (p.Unix? ==> forall i | n + 1 <= i < |path| :: path[i] != '\\')
  }

  /** The stored form of a full name: its path relative to the root, with `/`
      for `\`. */
  function Relative(p: Platform, root: string, path: string): string
  {
    ForwardSlashes(GetRelativePath(p, root, path))
  }

  /** The full name a stored path stands for: `new FileInfo(Path.Combine(root,
      relative)).FullName`. */
  function Absolute(p: Platform, root: string, relative: string): string
  {
    FullName(p, Combine(p, root, relative))
  }

  /** A reproducible full name survives the stored form. */
  lemma AbsoluteRelative(p: Platform, root: string, path: string)
    requires Reproducible(p, root, path)
    ensures Absolute(p, root, Relative(p, root, path)) == path
  {
    var n := TrimmedLength(p, root);
    var rest := path[n + 1..];
    assert GetRelativePath(p, root, path) == rest;
    assert path == path[..n] + [path[n]] + rest;
    if p.Unix? {
      UnixAbsoluteRelative(root, n, path[..n], rest);
    } else {
      WindowsAbsoluteRelative(root, n, path, rest);
    }
  }

  /** `Path.Combine` of a root and a relative path that is not rooted: the
      root, then a separator unless the root ends with one, then the path. */
  lemma CombineRelative(p: Platform, root: string, relative: string)
    requires |root| > 0 && |relative| > 0 && !IsRooted(p, relative)
    ensures var n := TrimmedLength(p, root);
            Combine(p, root, relative)
            == root[..n] + [if n < |root| then root[n] else Separator(p)] + relative
  {
    var n := TrimmedLength(p, root);
    if n < |root| {
      assert root == root[..n] + [root[n]];
    }
  }

  lemma UnixAbsoluteRelative(root: string, n: nat, prefix: string, rest: string)
    requires |root| > 0 && n == TrimmedLength(Unix, root) && prefix == root[..n]
    requires |rest| > 0 && !IsRooted(Unix, rest)
    requires forall i | 0 <= i < |rest| :: rest[i] != '\\'
    ensures Absolute(Unix, root, ForwardSlashes(rest)) == prefix + ['/'] + rest
  {
    ReplaceCharAbsent(rest, '\\', '/');
    CombineRelative(Unix, root, rest);
  }

  lemma WindowsAbsoluteRelative(root: string, n: nat, path: string, rest: string)
    requires |root| > 0 && n == TrimmedLength(Windows, root) && n < |path| && path[..n] == root[..n]
    requires rest == path[n + 1..] && |rest| > 0 && !IsRooted(Windows, rest)
    requires FullName(Windows, path) == path
    ensures Absolute(Windows, root, ForwardSlashes(rest)) == path[..n] + ['\\'] + rest
  {
    NoForwardSlash(path);
    var prefix := path[..n];
    assert forall i | 0 <= i < |rest| :: rest[i] != '/' by {
      forall i | 0 <= i < |rest| ensures rest[i] != '/' {
        assert rest[i] == path[n + 1 + i];
      }
    }
    assert forall i | 0 <= i < n :: prefix[i] != '/' by {
      forall i | 0 <= i < n ensures prefix[i] != '/' {
        assert prefix[i] == path[i];
      }
    }
    var rel := ForwardSlashes(rest);
    assert !IsRooted(Windows, rel) by {
      assert rel[0] == (if rest[0] == '\\' then '/' else rest[0]);
      if |rel| >= 2 {
        assert rel[1] == (if rest[1] == '\\' then '/' else rest[1]);
      }
    }
    CombineRelative(Windows, root, rel);
    var c := if n < |root| then root[n] else '\\';
    ReplaceCharAppend(prefix + [c], rel, '/', '\\');
    ReplaceCharAppend(prefix, [c], '/', '\\');
    ReplaceCharAbsent(prefix, '/', '\\');
    assert ReplaceChar(rel, '/', '\\') == rest;
  }

  // ---------------------------------------------------------------------------
  // File names

  /** `FileSystemInfo.Extension`: scanning back from the end of the full name,
      the text from the first `.` met, or empty when a separator (or, on
      Windows, the volume separator `:`) comes first. */
  function Extension(p: Platform, path: string): string
  {
    ExtensionBefore(p, path, |path|)
  }

  function ExtensionBefore(p: Platform, path: string, end: nat): (r: string)
    requires end <= |path|
    ensures r == [] || (|path| - end < |r| <= |path| && r == path[|path| - |r|..])
    decreases end
  {
    if end == 0 then []
    else if path[end - 1] == '.' then path[end - 1..]
    else if IsSeparator(p, path[end - 1]) || (p.Windows? && path[end - 1] == ':') then []
    else ExtensionBefore(p, path, end - 1)
  }

  /** A file's extension is `ext` (a dot and a name without dots or
      separators) exactly when its full name ends with `ext`. */
  lemma ExtensionIs(p: Platform, path: string, ext: string)
    requires |ext| > 0 && ext[0] == '.'
    requires forall i | 1 <= i < |ext| :: ext[i] != '.' && !IsSeparator(p, ext[i]) && ext[i] != ':'
    ensures Extension(p, path) == ext <==> EndsWith(path, ext)
  {
    if EndsWith(path, ext) {
      ExtensionOfSuffix(p, path, ext, |path|);
    }

  }

  lemma {:induction false} ExtensionOfSuffix(p: Platform, path: string, ext: string, end: nat)
    requires |ext| > 0 && ext[0] == '.' && EndsWith(path, ext)
    requires forall i | 1 <= i < |ext| :: ext[i] != '.' && !IsSeparator(p, ext[i]) && ext[i] != ':'
    requires |path| - |ext| < end <= |path|
    ensures ExtensionBefore(p, path, end) == ext
    decreases end
  {
    var k := |path| - |ext|;
    assert path[k..] == ext;
    assert path[end - 1] == ext[end - 1 - k];
    if end - 1 > k {
      ExtensionSkips(p, path, end);
      ExtensionOfSuffix(p, path, ext, end - 1);
    } else {
      ExtensionAtDot(p, path, end);
    }
  }

  lemma ExtensionSkips(p: Platform, path: string, end: nat)
    requires 0 < end <= |path|
    requires path[end - 1] != '.' && !IsSeparator(p, path[end - 1]) && path[end - 1] != ':'
    ensures ExtensionBefore(p, path, end) == ExtensionBefore(p, path, end - 1)
  {
  }

  lemma ExtensionAtDot(p: Platform, path: string, end: nat)
    requires 0 < end <= |path| && path[end - 1] == '.'
    ensures ExtensionBefore(p, path, end) == path[end - 1..]
  {
  }

  /** Length of the root of a full name (`/`, or `C:\` or `\` on Windows);
      UNC and device paths are not part of this model. */
  function RootLength(p: Platform, path: string): nat
  {
    if p.Windows? && |path| >= 2 && path[1] == ':' then
      if |path| >= 3 && IsSeparator(p, path[2]) then 3 else 2
    else if |path| >= 1 && IsSeparator(p, path[0]) then 1
    else 0
  }

  /** The last separator at or after `lo` and before `end`, or `lo` when there
      is none. */
  function LastSeparator(p: Platform, path: string, lo: nat, end: nat): (r: nat)
    requires lo <= end <= |path|
    ensures lo <= r <= end
    decreases end
  {
    if end == lo then lo
    else if IsSeparator(p, path[end - 1]) then end - 1
    else LastSeparator(p, path, lo, end - 1)
  }

  /** `end`, moved back over separators but not into the root. */
  function TrimSeparators(p: Platform, path: string, lo: nat, end: nat): (r: nat)
    requires lo <= end <= |path|
    ensures lo <= r <= end
    decreases end
  {
    if end > lo && IsSeparator(p, path[end - 1]) then TrimSeparators(p, path, lo, end - 1) else end
  }

  /** `FileInfo.DirectoryName` of a full name (`Path.GetDirectoryName`): the
      text before the last separator, without separators it ends with; none
      for a root. */
  function DirectoryName(p: Platform, path: string): (r: Option<string>)
    ensures r.Some? ==> |r.value| <= |path| && r.value == path[..|r.value|]
  {
    var root := RootLength(p, path);
    if |path| <= root then None
    else Some(path[..TrimSeparators(p, path, root, LastSeparator(p, path, root, |path|))])
  }

  /** The directory of `dir`, a separator and a name is `dir`. */
  lemma DirectoryNameOf(p: Platform, dir: string, name: string)
    requires |dir| > 0 && |dir| >= RootLength(p, dir + [Separator(p)] + name) && !IsSeparator(p, dir[|dir| - 1])
    requires forall i | 0 <= i < |name| :: !IsSeparator(p, name[i])
    ensures DirectoryName(p, dir + [Separator(p)] + name) == Some(dir)
  {
    var path := dir + [Separator(p)] + name;
    var root := RootLength(p, path);
    LastSeparatorOf(p, path, root, |dir|, |path|);
    assert path[..|dir|] == dir;
  }

  lemma {:induction false} LastSeparatorOf(p: Platform, path: string, lo: nat, at: nat, end: nat)
    requires lo <= at < end <= |path| && IsSeparator(p, path[at])
    requires forall i | at < i < |path| :: !IsSeparator(p, path[i])
    ensures LastSeparator(p, path, lo, end) == at
    decreases end
  {
    if end - 1 > at {
      LastSeparatorOf(p, path, lo, at, end - 1);
    }
  }

  /** `FileSystemInfo.Name` of a file's full name: the text after its last
      separator. */
  function FileName(p: Platform, path: string): (r: string)
    ensures |r| <= |path| && r == path[|path| - |r|..]
  {
    var k := LastSeparator(p, path, 0, |path|);
    if k < |path| && IsSeparator(p, path[k]) then path[k + 1..] else path
  }

  /** The name of `dir`, a separator and a name is that name. */
  lemma FileNameOf(p: Platform, dir: string, name: string)
    requires forall i | 0 <= i < |name| :: !IsSeparator(p, name[i])
    ensures FileName(p, dir + [Separator(p)] + name) == name
  {
    var path := dir + [Separator(p)] + name;
    LastSeparatorOf(p, path, 0, |dir|, |path|);
    assert path[|dir| + 1..] == name;
  }

  /** `s.TrimEnd(Path.DirectorySeparatorChar)`: every trailing separator of
      the platform's own kind removed. */
  function TrimEnd(p: Platform, s: string): (r: string)
    ensures |r| <= |s| && r == s[..|r|]
    ensures r == [] || r[|r| - 1] != Separator(p)
  {
    if s != [] && s[|s| - 1] == Separator(p) then TrimEnd(p, s[..|s| - 1]) else s
  }

  /** The full name of a joined path joins the full names. */
  lemma FullNameOfJoin(p: Platform, a: string, b: string)
    ensures FullName(p, a + [Separator(p)] + b) == FullName(p, a) + [Separator(p)] + FullName(p, b)
  {
    if p.Windows? {
      ReplaceCharAppend(a + [Separator(p)], b, '/', '\\');
      ReplaceCharAppend(a, [Separator(p)], '/', '\\');
    }
  }

  /** A path without `/` is its own full name. */
  lemma FullNameNoSlash(p: Platform, s: string)
    requires forall i | 0 <= i < |s| :: s[i] != '/'
    ensures FullName(p, s) == s
  {
    ReplaceCharAbsent(s, '/', '\\');
  }

  /** A prefix of a full name is a full name. */
  lemma PrefixFullName(p: Platform, s: string, prefix: string)
    requires FullName(p, s) == s && |prefix| <= |s| && prefix == s[..|prefix|]
    ensures FullName(p, prefix) == prefix
  {
    if p.Windows? {
      forall i | 0 <= i < |prefix|
        ensures FullName(p, prefix)[i] == prefix[i]
      {
        assert FullName(p, s)[i] == s[i];
      }
    }
  }

  /** A Windows full name holds no `/`. */
  lemma NoForwardSlash(path: string)
    requires FullName(Windows, path) == path
    ensures forall i | 0 <= i < |path| :: path[i] != '/'
  {
    forall i | 0 <= i < |path| ensures path[i] != '/' {
      assert FullName(Windows, path)[i] == path[i];
    }
  }
}

/** The files and directories that exist; `FileInfo.Exists` and
    `DirectoryInfo.Exists` look a full name up here. */
module FileSystem {
  datatype FileSystem = FileSystem(files: set<string>, directories: set<string>)
}
