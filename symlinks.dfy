/**
 * `symlinks_to_real_paths` and `symlink_source_is_in_dir`: resolving links with
 * `os.path.realpath`, and asking whether the directory a link resolves into lies
 * under a given directory.
 */
module Symlinks {
  import opened PosixPath
  import opened FsModel

  /**
   * `symlinks_p`: a list of paths, or anything else, which `list(...)` turns into one.
   * For a string that is the list of its characters, each a one-character path.
   */
  datatype PathsArg = OneString(s: string) | PathList(paths: seq<string>)

  /** `list(symlinks_p)` when `symlinks_p` is not already a list. */
  function PathsAsList(arg: PathsArg): (r: seq<string>)
    ensures arg.OneString? ==> |r| == |arg.s| && forall i | 0 <= i < |r| :: r[i] == [arg.s[i]]
    ensures arg.PathList? ==> r == arg.paths
  {
    match arg
    case OneString(s) => seq(|s|, i requires 0 <= i < |s| => [s[i]])
    case PathList(ps) => ps
  }

  /** `os.path.realpath` of each path, in order. */
  function RealPaths(fs: FileSystem, paths: seq<string>): seq<string> {
    seq(|paths|, i requires 0 <= i < |paths| => fs.realpath(paths[i]))
  }

  /** `symlinks_to_real_paths(symlinks_p)`. */
  method SymlinksToRealPaths(fs: FileSystem, symlinks: PathsArg) returns (output: seq<string>)
    ensures output == RealPaths(fs, PathsAsList(symlinks))
  {
    var paths := symlinks;
    var list: seq<string>;
    if paths.PathList? {
      list := paths.paths;
    } else {
      list := PathsAsList(paths);
    }
    output := [];
    for i := 0 to |list|
      invariant output == RealPaths(fs, list[..i])
    {
      output := output + [fs.realpath(list[i])];
    }
    assert list[..|list|] == list;
  }

  /** One resolved path per given path, each the resolution of the path at its position. */
  lemma RealPathsPointwise(fs: FileSystem, paths: seq<string>)
    ensures |RealPaths(fs, paths)| == |paths|
    ensures forall i | 0 <= i < |paths| :: RealPaths(fs, paths)[i] == fs.realpath(paths[i])
  {
  }

  /** Resolving a concatenation resolves each part: the order of the input is kept. */
  lemma RealPathsAppend(fs: FileSystem, a: seq<string>, b: seq<string>)
    ensures RealPaths(fs, a + b) == RealPaths(fs, a) + RealPaths(fs, b)
  {
    var l, r := RealPaths(fs, a + b), RealPaths(fs, a) + RealPaths(fs, b);
    assert |l| == |r|;
    forall i | 0 <= i < |l|
      ensures l[i] == r[i]
    {
      if i < |a| {
        assert (a + b)[i] == a[i];
      } else {
        assert (a + b)[i] == b[i - |a|];
      }
    }
  }

  /**
   * A single string is not resolved as one path: each of its characters is resolved on
   * its own, so the first result is the resolution of the first character.
   */
  lemma StringResolvedByCharacters(fs: FileSystem, s: string)
    requires s != []
    ensures var r := RealPaths(fs, PathsAsList(OneString(s)));
      |r| == |s| && r[0] == fs.realpath([s[0]])
  {
  }

  /**
   * `symlink_source_is_in_dir(link_p, path_d, include_subdirs)` as written: the link is
   * passed to `symlinks_to_real_paths` as a bare string, and the first result is split.
   * With `include_subdirs` the head is tested with a raw `startswith`.
   */
  function SymlinkSourceIsInDir(fs: FileSystem, link: string, dir: string, includeSubdirs: bool): bool
    requires IsLink(fs, link)
  {
    var head := Split(RealPaths(fs, PathsAsList(OneString(link)))[0]).0;
    if includeSubdirs then StartsWith(head, dir) else head == dir
  }

  /** The as-written answer depends only on the first character of the link's path. */
  lemma {:induction false} AnswerFromFirstCharacter(fs: FileSystem, link: string, dir: string, includeSubdirs: bool)
    requires IsLink(fs, link)
    ensures var head := Split(fs.realpath([link[0]])).0;
      SymlinkSourceIsInDir(fs, link, dir, includeSubdirs) == if includeSubdirs then StartsWith(head, dir) else head == dir
  {
    StringResolvedByCharacters(fs, link);
  }

  /**
   * For an absolute link, and the usual resolution of "/" to itself, the as-written
   * answer only says whether `dir` is a prefix of "/" (or "/" itself): where the link
   * points plays no part.
   */
  lemma AbsoluteLinkJudgedByRoot(fs: FileSystem, link: string, dir: string, includeSubdirs: bool)
    requires IsLink(fs, link) && link[0] == '/' && fs.realpath("/") == "/"
    ensures SymlinkSourceIsInDir(fs, link, dir, includeSubdirs) == if includeSubdirs then StartsWith("/", dir) else dir == "/"
  {
    AnswerFromFirstCharacter(fs, link, dir, includeSubdirs);
    assert [link[0]] == "/";
    assert HeadLength("/") == 1;
  }

  /** An equal head is also a prefix: a link found in `dir` itself is found with sub-directories included. */
  lemma InDirImpliesInTree(fs: FileSystem, link: string, dir: string)
    requires IsLink(fs, link)
    ensures SymlinkSourceIsInDir(fs, link, dir, false) ==> SymlinkSourceIsInDir(fs, link, dir, true)
  {
    var head := Split(RealPaths(fs, PathsAsList(OneString(link)))[0]).0;
    if head == dir {
      assert dir <= head;
    }
  }

  /** `symlink_source_is_in_dir` as evidently intended: the whole link path is resolved. */
  function SymlinkSourceIsInDirIntended(fs: FileSystem, link: string, dir: string, includeSubdirs: bool): bool
    requires IsLink(fs, link)
  {
    var head := Split(fs.realpath(link)).0;
    if includeSubdirs then StartsWith(head, dir) else head == dir
  }

  /** Splitting `dir + "/" + name` gives back `dir` and `name`, for a `dir` that does not end in a slash. */
  lemma SplitChild(dir: string, name: string)
    requires dir != [] && dir[|dir| - 1] != '/' && '/' !in name
    ensures Split(dir + "/" + name) == (dir, name)
  {
    var p := dir + "/" + name;
    var n := HeadLength(p);
    assert p[|dir|] == '/';
    assert forall i | |dir| < i < |p| :: p[i] == name[i - |dir| - 1];
    assert n == |dir| + 1;
    var head := p[..n];
    assert head == dir + "/";
    assert !AllSlashes(head) by {
      assert head[|dir| - 1] != '/';
    }
    var r := RStripSlashes(head);
    assert |r| == |dir|;
    assert r == dir;
    assert p[n..] == name;
  }

  /**
   * A link resolving to `dir/name` has its source in `dir`, whether or not
   * sub-directories are included.
   */
  lemma IntendedDirectChild(fs: FileSystem, link: string, dir: string, name: string, includeSubdirs: bool)
    requires IsLink(fs, link)
    requires dir != [] && dir[|dir| - 1] != '/' && '/' !in name
    requires fs.realpath(link) == dir + "/" + name
    ensures SymlinkSourceIsInDirIntended(fs, link, dir, includeSubdirs)
  {
    SplitChild(dir, name);
  }

  /**
   * A link resolving to `dir/sub/name` has its source in `dir` only when
   * sub-directories are included.
   */
  lemma IntendedNestedChild(fs: FileSystem, link: string, dir: string, sub: string, name: string, includeSubdirs: bool)
    requires IsLink(fs, link)
    requires dir != [] && sub != [] && sub[|sub| - 1] != '/' && '/' !in name
    requires fs.realpath(link) == dir + "/" + sub + "/" + name
    ensures SymlinkSourceIsInDirIntended(fs, link, dir, includeSubdirs) == includeSubdirs
  {
    var d := dir + "/" + sub;
    assert d[|d| - 1] == sub[|sub| - 1];
    SplitChild(d, name);
    assert dir <= d;
  }

  /**
   * The discrepancy on one input: an absolute link `fs.realpath` resolves to
   * "/data/x/y" is not reported as being in "/data" by the code as written, while the
   * intended version reports it is.
   */
  lemma FirstCharacterCounterexample(fs: FileSystem, link: string)
    requires IsLink(fs, link) && link[0] == '/'
    requires fs.realpath("/") == "/" && fs.realpath(link) == "/data/x/y"
    ensures !SymlinkSourceIsInDir(fs, link, "/data", true)
    ensures SymlinkSourceIsInDirIntended(fs, link, "/data", true)
  {
    AbsoluteLinkJudgedByRoot(fs, link, "/data", true);
    assert "/data/x/y" == "/data" + "/" + "x" + "/" + "y";
    IntendedNestedChild(fs, link, "/data", "x", "y", true);
  }

  /**
   * `startswith` compares characters, not path components: a sibling whose name
   * extends the directory's name counts as inside it.
   */
  lemma RawPrefixSibling(fs: FileSystem, link: string)
    requires IsLink(fs, link) && fs.realpath(link) == "/a/bcd/f"
    ensures SymlinkSourceIsInDirIntended(fs, link, "/a/b", true)
  {
    assert "/a/bcd/f" == "/a/bcd" + "/" + "f";
    SplitChild("/a/bcd", "f");
  }

  /** The same character-wise prefix test as written, when the link's first character resolves to the sibling. */
  lemma RawPrefixSiblingAsWritten(fs: FileSystem, link: string)
    requires IsLink(fs, link) && fs.realpath([link[0]]) == "/a/bcd/f"
    ensures SymlinkSourceIsInDir(fs, link, "/a/b", true)
  {
    AnswerFromFirstCharacter(fs, link, "/a/b", true);
    assert "/a/bcd/f" == "/a/bcd" + "/" + "f";
    SplitChild("/a/bcd", "f");
  }
}
