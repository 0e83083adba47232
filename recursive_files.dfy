/**
 * `count_files_recursively` and `recursively_list_files_in_dirs`: both go through
 * `os.walk`, one counting the file names it reports, the other joining each onto the
 * directory it was found in.
 */
module RecursiveFiles {
  import opened PosixPath
  import opened FsModel

  /** The total number of file names over the steps of a walk. */
  function FileCount(steps: seq<WalkStep>): nat {
    if steps == [] then 0 else FileCount(steps[..|steps| - 1]) + |steps[|steps| - 1].filenames|
  }

  /**
   * `count_files_recursively(dir_d)`: the number of file names `os.walk` reports under
   * `dir_d`, sub-directories themselves not counted.
   */
  function CountFilesRecursively(fs: FileSystem, dir: string): nat
    requires WellFormed(fs) && IsDir(fs, dir)
  {
    FileCount(Walk(fs, dir))
  }

  /** `source_dirs_d`: one directory, or a list of them. */
  datatype Sources = OneDir(dir: string) | DirList(dirs: seq<string>)

  /** A single directory is listed as the one-element list `[source_dirs_d]`. */
  function SourcesAsList(sources: Sources): seq<string> {
    match sources
    case OneDir(d) => [d]
    case DirList(ds) => ds
  }

  /** The paths built for one walk step as written: `os.path.join(dir_d, dir_d, file_n)`. */
  function StepPaths(step: WalkStep): (r: seq<string>)
    ensures |r| == |step.filenames|
  {
    var d := step.dirpath;
    seq(|step.filenames|, j requires 0 <= j < |step.filenames| => Join(Join(d, d), step.filenames[j]))
  }

  /** The paths built for the steps of a walk, one step after another. */
  function StepsPaths(steps: seq<WalkStep>): seq<string> {
    if steps == [] then [] else StepsPaths(steps[..|steps| - 1]) + StepPaths(steps[|steps| - 1])
  }

  /** `recursively_list_files_in_dirs` as written: the paths of every walk, source by source. */
  function ListedFiles(fs: FileSystem, sources: seq<string>): seq<string>
    requires WellFormed(fs)
  {
    if sources == [] then []
    else ListedFiles(fs, sources[..|sources| - 1]) + StepsPaths(Walk(fs, sources[|sources| - 1]))
  }

  lemma StepsPathsPrefix(steps: seq<WalkStep>, k: nat)
    requires k < |steps|
    ensures StepsPaths(steps[..k + 1]) == StepsPaths(steps[..k]) + StepPaths(steps[k])
    ensures StepPaths(steps[k])[..|steps[k].filenames|] == StepPaths(steps[k])
    ensures k + 1 == |steps| ==> steps[..k + 1] == steps
  {
    assert steps[..k + 1][..k] == steps[..k];
  }

  lemma ListedFilesPrefix(fs: FileSystem, sources: seq<string>, i: nat)
    requires WellFormed(fs) && i < |sources|
    ensures ListedFiles(fs, sources[..i + 1]) == ListedFiles(fs, sources[..i]) + StepsPaths(Walk(fs, sources[i]))
  {
    assert sources[..i + 1][..i] == sources[..i];
  }

  /**
   * The body of the loop over `os.walk(source_dir_d)` in `recursively_list_files_in_dirs`:
   * the paths for each reported file name, step by step.
   */
  method PathsOfWalk(steps: seq<WalkStep>) returns (output: seq<string>)
    ensures output == StepsPaths(steps)
  {
    output := [];
    for k := 0 to |steps|
      invariant output == StepsPaths(steps[..k])
    {
      ghost var before := output;
      var step := steps[k];
      for j := 0 to |step.filenames|
        invariant output == before + StepPaths(step)[..j]
      {
        output := output + [Join(Join(step.dirpath, step.dirpath), step.filenames[j])];
        assert StepPaths(step)[..j + 1] == StepPaths(step)[..j] + [StepPaths(step)[j]];
      }
      StepsPathsPrefix(steps, k);
    }
    assert steps[..|steps|] == steps;
  }

  /** `recursively_list_files_in_dirs(source_dirs_d)`. */
  method RecursivelyListFilesInDirs(fs: FileSystem, sources: Sources) returns (output: seq<string>)
    requires WellFormed(fs)
    requires forall i | 0 <= i < |SourcesAsList(sources)| :: Exists(fs, SourcesAsList(sources)[i])
    ensures output == ListedFiles(fs, SourcesAsList(sources))
    ensures sources.OneDir? ==> output == StepsPaths(Walk(fs, sources.dir))
  {
    var dirs := SourcesAsList(sources);
    output := [];
    for i := 0 to |dirs|
      invariant output == ListedFiles(fs, dirs[..i])
    {
      var paths := PathsOfWalk(Walk(fs, dirs[i]));
      output := output + paths;
      ListedFilesPrefix(fs, dirs, i);
    }
    assert dirs[..|dirs|] == dirs;
    if sources.OneDir? {
      SingleSource(fs, sources.dir);
    }
  }

  /** As many paths are built for a walk as it reports file names. */
  lemma {:induction false} StepsPathsCount(steps: seq<WalkStep>)
    ensures |StepsPaths(steps)| == FileCount(steps)
  {
    if steps != [] {
      StepsPathsCount(steps[..|steps| - 1]);
    }
  }

  /** Listing one directory yields exactly as many paths as `count_files_recursively` counts. */
  lemma ListingMatchesCount(fs: FileSystem, dir: string)
    requires WellFormed(fs) && IsDir(fs, dir)
    ensures |ListedFiles(fs, [dir])| == CountFilesRecursively(fs, dir)
  {
    assert [dir][..0] == [];
    StepsPathsCount(Walk(fs, dir));
  }

  /** A walk reports at least the file names of its first step (used only for the corollary below). */
  lemma {:induction false} FileCountAtLeastFirst(steps: seq<WalkStep>)
    requires steps != []
    ensures FileCount(steps) >= |steps[0].filenames|
  {
    if |steps| > 1 {
      FileCountAtLeastFirst(steps[..|steps| - 1]);
    }
  }

  /**
   * Every entry of `dir` that is not a directory is counted: a lower bound that is a
   * corollary of the exact equation `CountRecursion` above.
   */
  lemma CountCoversDirectFiles(fs: FileSystem, dir: string)
    requires WellFormed(fs) && IsDir(fs, dir)
    ensures CountFilesRecursively(fs, dir) >= |FileNames(fs, dir)|
  {
    FileCountAtLeastFirst(Walk(fs, dir));
  }

  /** The file count of two runs of steps is the sum of their counts. */
  lemma {:induction false} FileCountAppend(a: seq<WalkStep>, b: seq<WalkStep>)
    ensures FileCount(a + b) == FileCount(a) + FileCount(b)
  {
    if b != [] {
      var init := b[..|b| - 1];
      assert (a + b)[..|a + b| - 1] == a + init;
      assert (a + b)[|a + b| - 1] == b[|b| - 1];
      FileCountAppend(a, init);
    } else {
      assert a + b == a;
    }
  }

  /**
   * The counts of the sub-directories `dirs` of `top`: a link to a directory adds
   * nothing, since `os.walk` does not descend into it.
   */
  function SubdirCounts(fs: FileSystem, top: string, dirs: seq<string>): nat
    requires WellFormed(fs)
    requires forall i | 0 <= i < |dirs| :: ValidName(dirs[i]) && IsDir(fs, Join(top, dirs[i]))
  {
    if dirs == [] then 0
    else
      var p := Join(top, dirs[0]);
      (if IsLink(fs, p) then 0 else CountFilesRecursively(fs, p)) + SubdirCounts(fs, top, dirs[1..])
  }

  /** Every sub-directory after the first is still a sub-directory. */
  lemma SubdirsTail(fs: FileSystem, top: string, dirs: seq<string>)
    requires dirs != []
    requires forall i | 0 <= i < |dirs| :: ValidName(dirs[i]) && IsDir(fs, Join(top, dirs[i]))
    ensures forall i | 0 <= i < |dirs[1..]| :: ValidName(dirs[1..][i]) && IsDir(fs, Join(top, dirs[1..][i]))
  {
    forall i | 0 <= i < |dirs[1..]|
      ensures ValidName(dirs[1..][i]) && IsDir(fs, Join(top, dirs[1..][i]))
    {
      assert dirs[1..][i] == dirs[i + 1];
    }
  }

  /** The walks below the sub-directories `dirs` report the first one's files, then the rest's. */
  lemma WalkIntoFirst(fs: FileSystem, top: string, dirs: seq<string>)
    requires WellFormed(fs) && dirs != []
    requires forall i | 0 <= i < |dirs| :: ValidName(dirs[i]) && IsDir(fs, Join(top, dirs[i]))
    requires forall i | 0 <= i < |dirs[1..]| :: ValidName(dirs[1..][i]) && IsDir(fs, Join(top, dirs[1..][i]))
    ensures FileCount(WalkInto(fs, top, dirs))
      == SubdirCounts(fs, top, dirs) - SubdirCounts(fs, top, dirs[1..]) + FileCount(WalkInto(fs, top, dirs[1..]))
  {
    var p := Join(top, dirs[0]);
    var first := if IsLink(fs, p) then [] else Walk(fs, p);
    var rest := WalkInto(fs, top, dirs[1..]);
    assert WalkInto(fs, top, dirs) == first + rest;
    FileCountAppend(first, rest);
  }

  /** The walks below the sub-directories report as many files as their counts add up to. */
  lemma {:induction false} WalkIntoCount(fs: FileSystem, top: string, dirs: seq<string>)
    requires WellFormed(fs)
    requires forall i | 0 <= i < |dirs| :: ValidName(dirs[i]) && IsDir(fs, Join(top, dirs[i]))
    ensures FileCount(WalkInto(fs, top, dirs)) == SubdirCounts(fs, top, dirs)
  {
    if dirs != [] {
      SubdirsTail(fs, top, dirs);
      WalkIntoFirst(fs, top, dirs);
      WalkIntoCount(fs, top, dirs[1..]);
    }
  }

  /**
   * `count_files_recursively(dir_d)` counts the files of `dir_d` itself plus, for every
   * sub-directory that is not a link, that sub-directory's own count.
   */
  lemma CountRecursion(fs: FileSystem, dir: string)
    requires WellFormed(fs) && IsDir(fs, dir)
    ensures CountFilesRecursively(fs, dir)
      == |FileNames(fs, dir)| + SubdirCounts(fs, dir, SubdirNames(fs, dir))
  {
    var dirs := SubdirNames(fs, dir);
    var here := [WalkStep(dir, dirs, FileNames(fs, dir))];
    assert Walk(fs, dir) == here + WalkInto(fs, dir, dirs);
    FileCountAppend(here, WalkInto(fs, dir, dirs));
    assert here[..0] == [];
    WalkIntoCount(fs, dir, dirs);
  }

  /** The paths built for one walk step as evidently intended: `os.path.join(dir_d, file_n)`. */
  function StepPathsIntended(step: WalkStep): (r: seq<string>)
    ensures |r| == |step.filenames|
  {
    seq(|step.filenames|, j requires 0 <= j < |step.filenames| => Join(step.dirpath, step.filenames[j]))
  }

  function StepsPathsIntended(steps: seq<WalkStep>): seq<string> {
    if steps == [] then [] else StepsPathsIntended(steps[..|steps| - 1]) + StepPathsIntended(steps[|steps| - 1])
  }

  /** `recursively_list_files_in_dirs` as evidently intended. */
  function ListedFilesIntended(fs: FileSystem, sources: seq<string>): seq<string>
    requires WellFormed(fs)
  {
    if sources == [] then []
    else ListedFilesIntended(fs, sources[..|sources| - 1]) + StepsPathsIntended(Walk(fs, sources[|sources| - 1]))
  }

  /** What a walk from `top` guarantees of each step: `top` begins its directory, and its file names are valid. */
  predicate StepUnder(top: string, step: WalkStep) {
    && top <= step.dirpath
    && forall j | 0 <= j < |step.filenames| :: ValidName(step.filenames[j])
  }

  lemma PrefixTrans(a: string, b: string, c: string)
    requires a <= b && b <= c
    ensures a <= c
  {
    assert c[..|b|][..|a|] == c[..|a|];
  }

  /** Joining a valid name keeps the path it is joined onto as a prefix. */
  lemma JoinExtends(top: string, name: string)
    requires ValidName(name)
    ensures top <= Join(top, name)
  {
  }

  /** Every step of `os.walk(top)` lies under `top` and reports only valid file names. */
  lemma {:induction false} WalkUnder(fs: FileSystem, top: string)
    requires WellFormed(fs)
    ensures forall i | 0 <= i < |Walk(fs, top)| :: StepUnder(top, Walk(fs, top)[i])
    decreases KeysLongerThan(fs, |top|), 1, 0
  {
    if IsDir(fs, top) {
      var dirs, files := SubdirNames(fs, top), FileNames(fs, top);
      var rest := WalkInto(fs, top, dirs);
      WalkIntoUnder(fs, top, dirs);
      var here := [WalkStep(top, dirs, files)];
      assert StepUnder(top, here[0]);
      assert Walk(fs, top) == here + rest;
      ConcatUnder(top, here, rest);
    }
  }

  /** Steps under a directory `p` are under any prefix of `p`. */
  lemma LiftUnder(top: string, p: string, steps: seq<WalkStep>)
    requires top <= p && forall i | 0 <= i < |steps| :: StepUnder(p, steps[i])
    ensures forall i | 0 <= i < |steps| :: StepUnder(top, steps[i])
  {
    forall i | 0 <= i < |steps|
      ensures StepUnder(top, steps[i])
    {
      PrefixTrans(top, p, steps[i].dirpath);
    }
  }

  /** Two runs of steps under `top` make one. */
  lemma ConcatUnder(top: string, a: seq<WalkStep>, b: seq<WalkStep>)
    requires forall i | 0 <= i < |a| :: StepUnder(top, a[i])
    requires forall i | 0 <= i < |b| :: StepUnder(top, b[i])
    ensures forall i | 0 <= i < |a + b| :: StepUnder(top, (a + b)[i])
  {
    forall i | 0 <= i < |a + b|
      ensures StepUnder(top, (a + b)[i])
    {
      if i >= |a| {
        assert (a + b)[i] == b[i - |a|];
      }
    }
  }

  /** Every step of the walks below the sub-directories `dirs` of `top` lies under `top`. */
  lemma {:induction false} WalkIntoUnder(fs: FileSystem, top: string, dirs: seq<string>)
    requires WellFormed(fs)
    requires forall i | 0 <= i < |dirs| :: ValidName(dirs[i]) && IsDir(fs, Join(top, dirs[i]))
    ensures forall i | 0 <= i < |WalkInto(fs, top, dirs)| :: StepUnder(top, WalkInto(fs, top, dirs)[i])
    decreases KeysLongerThan(fs, |top|), 0, |dirs|
  {
    if dirs != [] {
      var p := Join(top, dirs[0]);
      JoinName(top, dirs[0]);
      JoinExtends(top, dirs[0]);
      assert IsDir(fs, p) && Canon(p) == p;
      assert p in KeysLongerThan(fs, |top|) - KeysLongerThan(fs, |p|);
      var first := if IsLink(fs, p) then [] else Walk(fs, p);
      if !IsLink(fs, p) {
        WalkUnder(fs, p);
        LiftUnder(top, p, first);
      }
      var rest := WalkInto(fs, top, dirs[1..]);
      WalkIntoUnder(fs, top, dirs[1..]);
      assert WalkInto(fs, top, dirs) == first + rest;
      ConcatUnder(top, first, rest);
    }
  }

  /** For a step whose directory is absolute the doubled join changes nothing. */
  lemma AbsoluteStepUnaffected(step: WalkStep)
    requires step.dirpath != [] && step.dirpath[0] == '/'
    ensures StepPaths(step) == StepPathsIntended(step)
  {
    assert Join(step.dirpath, step.dirpath) == step.dirpath;
  }

  lemma {:induction false} AbsoluteStepsUnaffected(steps: seq<WalkStep>, top: string)
    requires top != [] && top[0] == '/'
    requires forall i | 0 <= i < |steps| :: StepUnder(top, steps[i])
    ensures StepsPaths(steps) == StepsPathsIntended(steps)
  {
    if steps != [] {
      var last := steps[|steps| - 1];
      assert StepUnder(top, last);
      assert last.dirpath[0] == top[0];
      AbsoluteStepUnaffected(last);
      AbsoluteStepsUnaffected(steps[..|steps| - 1], top);
    }
  }

  /** For absolute source directories the code as written lists what was intended. */
  lemma {:induction false} AbsoluteSourcesUnaffected(fs: FileSystem, sources: seq<string>)
    requires WellFormed(fs)
    requires forall i | 0 <= i < |sources| :: sources[i] != [] && sources[i][0] == '/'
    ensures ListedFiles(fs, sources) == ListedFilesIntended(fs, sources)
  {
    if sources != [] {
      var last := sources[|sources| - 1];
      WalkUnder(fs, last);
      AbsoluteStepsUnaffected(Walk(fs, last), last);
      AbsoluteSourcesUnaffected(fs, sources[..|sources| - 1]);
    }
  }

  /** Every intended path lies under the walk's top directory. */
  lemma {:induction false} IntendedStepsUnder(steps: seq<WalkStep>, top: string)
    requires forall i | 0 <= i < |steps| :: StepUnder(top, steps[i])
    ensures forall i | 0 <= i < |StepsPathsIntended(steps)| :: top <= StepsPathsIntended(steps)[i]
  {
    if steps != [] {
      var init, last := steps[..|steps| - 1], steps[|steps| - 1];
      IntendedStepsUnder(init, top);
      assert StepUnder(top, last);
      var a, b := StepsPathsIntended(init), StepPathsIntended(last);
      forall j | 0 <= j < |b|
        ensures top <= b[j]
      {
        JoinExtends(last.dirpath, last.filenames[j]);
        PrefixTrans(top, last.dirpath, b[j]);
      }
      assert StepsPathsIntended(steps) == a + b;
    }
  }

  /**
   * As intended, every listed path is under the source directory it came from: the
   * listing of one directory only holds paths that start with it. The code as written
   * has this property too; `IntendedListingIsReportedFiles` below is the statement that
   * tells the two apart, and this one follows from it.
   */
  lemma IntendedListingUnderSource(fs: FileSystem, dir: string)
    requires WellFormed(fs)
    ensures forall i | 0 <= i < |ListedFilesIntended(fs, [dir])| :: dir <= ListedFilesIntended(fs, [dir])[i]
  {
    assert [dir][..0] == [];
    WalkUnder(fs, dir);
    IntendedStepsUnder(Walk(fs, dir), dir);
  }

  /** `path` is a file a walk reported: a name among some step's file names, joined onto that step's directory. */
  predicate Reported(steps: seq<WalkStep>, path: string) {
    exists i, j | 0 <= i < |steps| && 0 <= j < |steps[i].filenames| ::
      path == Join(steps[i].dirpath, steps[i].filenames[j])
  }

  /** The intended paths of a walk are exactly the files it reports. */
  lemma {:induction false} IntendedPathsReported(steps: seq<WalkStep>, path: string)
    ensures path in StepsPathsIntended(steps) <==> Reported(steps, path)
  {
    if steps != [] {
      var init, last := steps[..|steps| - 1], steps[|steps| - 1];
      var a, b := StepsPathsIntended(init), StepPathsIntended(last);
      assert StepsPathsIntended(steps) == a + b;
      IntendedPathsReported(init, path);
      if path in b {
        var j :| 0 <= j < |b| && b[j] == path;
        assert steps[|steps| - 1].filenames[j] == last.filenames[j];
      } else if path in a {
        var i, j :| 0 <= i < |init| && 0 <= j < |init[i].filenames| && path == Join(init[i].dirpath, init[i].filenames[j]);
        assert steps[i] == init[i];
      }
      if Reported(steps, path) {
        var i, j :| 0 <= i < |steps| && 0 <= j < |steps[i].filenames| && path == Join(steps[i].dirpath, steps[i].filenames[j]);
        if i < |init| {
          assert init[i] == steps[i];
        } else {
          assert b[j] == path;
        }
      }
    }
  }

  /** What a walk guarantees of each step: its directory is one, and its file names name no directory in it. */
  predicate StepFound(fs: FileSystem, step: WalkStep) {
    && IsDir(fs, step.dirpath)
    && forall j | 0 <= j < |step.filenames| :: !IsDir(fs, Join(step.dirpath, step.filenames[j]))
  }

  /** Two runs of found steps make one. */
  lemma ConcatFound(fs: FileSystem, a: seq<WalkStep>, b: seq<WalkStep>)
    requires forall i | 0 <= i < |a| :: StepFound(fs, a[i])
    requires forall i | 0 <= i < |b| :: StepFound(fs, b[i])
    ensures forall i | 0 <= i < |a + b| :: StepFound(fs, (a + b)[i])
  {
    forall i | 0 <= i < |a + b|
      ensures StepFound(fs, (a + b)[i])
    {
      if i >= |a| {
        assert (a + b)[i] == b[i - |a|];
      }
    }
  }

  /** Every step of `os.walk(top)` is a directory that holds its file names as non-directories. */
  lemma {:induction false} WalkFound(fs: FileSystem, top: string)
    requires WellFormed(fs)
    ensures forall i | 0 <= i < |Walk(fs, top)| :: StepFound(fs, Walk(fs, top)[i])
    decreases KeysLongerThan(fs, |top|), 1, 0
  {
    if IsDir(fs, top) {
      var dirs, files := SubdirNames(fs, top), FileNames(fs, top);
      var rest := WalkInto(fs, top, dirs);
      WalkIntoFound(fs, top, dirs);
      var here := [WalkStep(top, dirs, files)];
      assert StepFound(fs, here[0]);
      assert Walk(fs, top) == here + rest;
      ConcatFound(fs, here, rest);
    }
  }

  /** Every step of the walks below the sub-directories `dirs` of `top` is found as `WalkFound` says. */
  lemma {:induction false} WalkIntoFound(fs: FileSystem, top: string, dirs: seq<string>)
    requires WellFormed(fs)
    requires forall i | 0 <= i < |dirs| :: ValidName(dirs[i]) && IsDir(fs, Join(top, dirs[i]))
    ensures forall i | 0 <= i < |WalkInto(fs, top, dirs)| :: StepFound(fs, WalkInto(fs, top, dirs)[i])
    decreases KeysLongerThan(fs, |top|), 0, |dirs|
  {
    if dirs != [] {
      var p := Join(top, dirs[0]);
      JoinName(top, dirs[0]);
      assert IsDir(fs, p) && Canon(p) == p;
      assert p in KeysLongerThan(fs, |top|) - KeysLongerThan(fs, |p|);
      var first := if IsLink(fs, p) then [] else Walk(fs, p);
      if !IsLink(fs, p) {
        WalkFound(fs, p);
      }
      var rest := WalkInto(fs, top, dirs[1..]);
      SubdirsTail(fs, top, dirs);
      WalkIntoFound(fs, top, dirs[1..]);
      assert WalkInto(fs, top, dirs) == first + rest;
      ConcatFound(fs, first, rest);
    }
  }

  /** The intended paths of found steps are the reported files, none of them a directory. */
  lemma IntendedPathsAreFiles(fs: FileSystem, steps: seq<WalkStep>)
    requires forall i | 0 <= i < |steps| :: StepFound(fs, steps[i])
    ensures forall path :: path in StepsPathsIntended(steps) <==> Reported(steps, path)
    ensures forall k | 0 <= k < |StepsPathsIntended(steps)| :: !IsDir(fs, StepsPathsIntended(steps)[k])
  {
    var listed := StepsPathsIntended(steps);
    forall path
      ensures path in listed <==> Reported(steps, path)
    {
      IntendedPathsReported(steps, path);
    }
    forall k | 0 <= k < |listed|
      ensures !IsDir(fs, listed[k])
    {
      IntendedPathsReported(steps, listed[k]);
      var i, j :| 0 <= i < |steps| && 0 <= j < |steps[i].filenames| && listed[k] == Join(steps[i].dirpath, steps[i].filenames[j]);
      assert StepFound(fs, steps[i]);
    }
  }

  /**
   * As intended, listing one directory gives exactly the full paths of the files its walk
   * reports, and none of them is a directory.
   */
  lemma IntendedListingIsReportedFiles(fs: FileSystem, dir: string)
    requires WellFormed(fs)
    ensures forall path :: path in ListedFilesIntended(fs, [dir]) <==> Reported(Walk(fs, dir), path)
    ensures forall i | 0 <= i < |ListedFilesIntended(fs, [dir])| :: !IsDir(fs, ListedFilesIntended(fs, [dir])[i])
  {
    SingleSource(fs, dir);
    WalkFound(fs, dir);
    IntendedPathsAreFiles(fs, Walk(fs, dir));
  }

  /** In the one-step walk of "a" holding "f", the file reported is "a/f", and "a/a/f" is none. */
  lemma RelativeReported()
    ensures Reported([WalkStep("a", [], ["f"])], "a/f")
    ensures !Reported([WalkStep("a", [], ["f"])], "a/a/f")
  {
    var steps := [WalkStep("a", [], ["f"])];
    assert Join(steps[0].dirpath, steps[0].filenames[0]) == "a/f";
  }

  /** The walk of a directory whose only entry is a file is that one step. */
  lemma LeafWalk(fs: FileSystem, dir: string, name: string)
    requires WellFormed(fs) && IsDir(fs, dir) && Listing(fs, dir) == [name]
    requires !IsDir(fs, Join(dir, name))
    ensures Walk(fs, dir) == [WalkStep(dir, [], [name])]
  {
    var names := Listing(fs, dir);
    assert names[..0] == [];
    assert SubdirNames(fs, dir) == [];
    assert FileNames(fs, dir) == [name];
  }

  /** Listing one source directory lists the paths of its walk. */
  lemma SingleSource(fs: FileSystem, dir: string)
    requires WellFormed(fs)
    ensures ListedFiles(fs, [dir]) == StepsPaths(Walk(fs, dir))
    ensures ListedFilesIntended(fs, [dir]) == StepsPathsIntended(Walk(fs, dir))
  {
    assert [dir][..0] == [];
  }

  /** The walk of the relative directory "a" whose only entry is the file "a/f". */
  lemma RelativeLeafWalk(fs: FileSystem)
    requires WellFormed(fs)
    requires "a" in fs.entries && fs.entries["a"] == Dir(0, ["f"])
    requires "a/f" in fs.entries && fs.entries["a/f"].File?
    ensures Walk(fs, "a") == [WalkStep("a", [], ["f"])]
  {
    assert RStripSlashes("a") == "a";
    assert Canon("a") == "a";
    assert Join("a", "f") == "a/f";
    assert RStripSlashes("a/f") == "a/f";
    assert Canon("a/f") == "a/f";
    LeafWalk(fs, "a", "f");
  }

  /** The paths built for the one step of that walk, as written and as intended. */
  lemma RelativeStepPaths()
    ensures StepsPaths([WalkStep("a", [], ["f"])]) == ["a/a/f"]
    ensures StepsPathsIntended([WalkStep("a", [], ["f"])]) == ["a/f"]
  {
    var steps := [WalkStep("a", [], ["f"])];
    assert steps[..0] == [];
    assert Join("a", "a") == "a/a";
    assert Join("a/a", "f") == "a/a/f";
    assert Join("a", "f") == "a/f";
  }

  /**
   * The discrepancy on one input: in a relative directory "a" holding only the file "f",
   * the code as written lists "a/a/f", a path inside a directory "a/a" that need not
   * exist, where "a/f" was meant.
   */
  lemma RelativeSourceDoubled(fs: FileSystem)
    requires WellFormed(fs)
    requires "a" in fs.entries && fs.entries["a"] == Dir(0, ["f"])
    requires "a/f" in fs.entries && fs.entries["a/f"].File?
    ensures ListedFiles(fs, ["a"]) == ["a/a/f"]
    ensures ListedFilesIntended(fs, ["a"]) == ["a/f"]
    ensures !Reported(Walk(fs, "a"), "a/a/f") && Reported(Walk(fs, "a"), "a/f")
  {
    RelativeLeafWalk(fs);
    SingleSource(fs, "a");
    RelativeStepPaths();
    RelativeReported();
  }
}
