/**
 * `ancestor_contains_file`: walk upward from a directory with `os.path.dirname`,
 * looking in each ancestor for any of a set of marker names, with an optional
 * depth cut-off tested by truthiness and a latch that stops the walk at the top of the
 * dirname chain: "/" from an absolute path, "" (the working directory) from a relative one.
 */
module AncestorSearch {
  import opened Wrappers
  import opened PosixPath
  import opened FsModel

  /** `files_n`: a single name or a list of names. */
  datatype Names = OneName(name: string) | NameList(names: seq<string>)

  /** A single name is searched for as the one-element list `[files_n]`. */
  function NamesAsList(files: Names): seq<string> {
    match files
    case OneName(n) => [n]
    case NameList(ns) => ns
  }

  /** `depth` is truthy: given and not zero. `None` and `0` both mean "no limit". */
  predicate DepthLimited(depth: Option<int>) {
    depth.Some? && depth.value != 0
  }

  /** Some name of `files` exists directly inside `dir`. */
  predicate HoldsMarker(fs: FileSystem, dir: string, files: seq<string>) {
    files != [] && (HoldsMarker(fs, dir, files[..|files| - 1]) || Exists(fs, Join(dir, files[|files| - 1])))
  }

  /** Any name that exists inside `dir` makes `dir` hold a marker. */
  lemma {:induction false} MarkerFromName(fs: FileSystem, dir: string, files: seq<string>, i: nat)
    requires i < |files| && Exists(fs, Join(dir, files[i]))
    ensures HoldsMarker(fs, dir, files)
  {
    if i < |files| - 1 {
      var init := files[..|files| - 1];
      assert init[i] == files[i];
      MarkerFromName(fs, dir, init, i);
    }
  }

  /** A marker is always one of the names, existing inside `dir`. */
  lemma {:induction false} NameFromMarker(fs: FileSystem, dir: string, files: seq<string>)
    requires HoldsMarker(fs, dir, files)
    ensures exists i | 0 <= i < |files| :: Exists(fs, Join(dir, files[i]))
  {
    var init := files[..|files| - 1];
    if HoldsMarker(fs, dir, init) {
      NameFromMarker(fs, dir, init);
      var i :| 0 <= i < |init| && Exists(fs, Join(dir, init[i]));
      assert files[i] == init[i];
    } else {
      var i := |files| - 1;
      assert Exists(fs, Join(dir, files[i]));
    }
  }

  /** `dir` holds a marker exactly when one of the names, joined onto `dir`, exists. */
  lemma HoldsMarkerMeaning(fs: FileSystem, dir: string, files: seq<string>)
    ensures HoldsMarker(fs, dir, files) <==> exists i | 0 <= i < |files| :: Exists(fs, Join(dir, files[i]))
  {
    if HoldsMarker(fs, dir, files) {
      NameFromMarker(fs, dir, files);
    }
    if exists i | 0 <= i < |files| :: Exists(fs, Join(dir, files[i])) {
      var i :| 0 <= i < |files| && Exists(fs, Join(dir, files[i]));
      MarkerFromName(fs, dir, files, i);
    }
  }

  /** A single name is searched for on its own: a directory holds it when `dir/name` exists. */
  lemma SingleNameMarker(fs: FileSystem, dir: string, name: string)
    ensures HoldsMarker(fs, dir, NamesAsList(OneName(name))) <==> Exists(fs, Join(dir, name))
  {
    HoldsMarkerMeaning(fs, dir, [name]);
  }

  /** `HoldsMarker` as a test on directories. */
  function MarkerTest(fs: FileSystem, files: seq<string>): string -> bool {
    dir => HoldsMarker(fs, dir, files)
  }

  /**
   * The path the walk starts from: `path_p.rstrip("/")`, replaced by its dirname when
   * that is not a directory.
   */
  function SearchStart(fs: FileSystem, path: string): string {
    var p := RStripSlashes(path);
    if !IsDir(fs, p) then Dirname(p) else p
  }

  /**
   * The dirname chain from `s`: `s`, its dirname, and so on up to and including the
   * first string that `Dirname` leaves unchanged (a string of slashes: the root, or "").
   */
  function Chain(s: string): (r: seq<string>)
    ensures r != [] && r[0] == s
    ensures AllSlashes(r[|r| - 1])
    ensures |r| == 1 <==> AllSlashes(s)
    decreases |s|
  {
    if AllSlashes(s) then [s] else [s] + Chain(Dirname(s))
  }

  /** Every string of the chain but the last is not all slashes, and the next one is its dirname. */
  lemma {:induction false} ChainStep(s: string, i: nat)
    requires i < |Chain(s)| - 1
    ensures var c := Chain(s); !AllSlashes(c[i]) && c[i + 1] == Dirname(c[i])
    decreases |s|
  {
    if i > 0 {
      ChainStep(Dirname(s), i - 1);
    }
  }

  /**
   * The directories a walk from `start` inspects when nothing stops it early, nearest
   * first: the chain from the dirname of `start` to its top, "/" or "". When that first
   * ancestor is already the top, the latch only closes on the second visit, so the top
   * is inspected twice.
   */
  function AncestryFrom(start: string): seq<string> {
    var chain := Chain(Dirname(start));
    if |chain| == 1 then chain + chain else chain
  }

  /**
   * The directories inspected under `depth`: the first `depth` of the ancestry when
   * `depth` is truthy (at least one, so a negative depth inspects only the parent),
   * all of it otherwise.
   */
  function InspectedFrom(start: string, depth: Option<int>): seq<string> {
    var all := AncestryFrom(start);
    if DepthLimited(depth) && depth.value < |all| then all[..if depth.value < 1 then 1 else depth.value]
    else all
  }

  /** The directories `ancestor_contains_file(path, _, depth)` inspects, nearest first. */
  function Inspected(fs: FileSystem, path: string, depth: Option<int>): seq<string> {
    InspectedFrom(SearchStart(fs, path), depth)
  }

  /** The position of the first element of `dirs` that passes `holds`, or `|dirs|` when none does. */
  function FirstIndex(dirs: seq<string>, holds: string -> bool): (k: nat)
    ensures k <= |dirs|
  {
    if dirs == [] then 0
    else if holds(dirs[0]) then 0
    else 1 + FirstIndex(dirs[1..], holds)
  }

  /** The index found passes the test (unless it is `|dirs|`), and no element before it does. */
  lemma {:induction false} FirstIndexSpec(dirs: seq<string>, holds: string -> bool)
    ensures var k := FirstIndex(dirs, holds);
      && (k < |dirs| ==> holds(dirs[k]))
      && (forall j | 0 <= j < k :: !holds(dirs[j]))
  {
    if dirs != [] && !holds(dirs[0]) {
      var tail := dirs[1..];
      FirstIndexSpec(tail, holds);
      var k := FirstIndex(dirs, holds);
      forall j | 1 <= j < k
        ensures !holds(dirs[j])
      {
        assert dirs[j] == tail[j - 1];
      }
      if k < |dirs| {
        assert dirs[k] == tail[k - 1];
      }
    }
  }

  /** An element that passes bounds the index found. */
  lemma {:induction false} FirstIndexAtMost(dirs: seq<string>, holds: string -> bool, k: nat)
    requires k < |dirs| && holds(dirs[k])
    ensures FirstIndex(dirs, holds) <= k
  {
    if k > 0 && !holds(dirs[0]) {
      assert dirs[1..][k - 1] == dirs[k];
      FirstIndexAtMost(dirs[1..], holds, k - 1);
    }
  }

  /** An element at or before the index found that fails moves the bound past it. */
  lemma {:induction false} FirstIndexNext(dirs: seq<string>, holds: string -> bool, k: nat)
    requires k < |dirs| && k <= FirstIndex(dirs, holds) && !holds(dirs[k])
    ensures k + 1 <= FirstIndex(dirs, holds)
  {
    if k > 0 {
      assert dirs[1..][k - 1] == dirs[k];
      FirstIndexNext(dirs[1..], holds, k - 1);
    }
  }

  /** Searching a prefix finds the same element, or nothing when that element lies beyond it. */
  lemma {:induction false} FirstIndexPrefix(dirs: seq<string>, holds: string -> bool, n: nat)
    requires n <= |dirs|
    ensures var k := FirstIndex(dirs, holds);
      FirstIndex(dirs[..n], holds) == if k < n then k else n
  {
    if n > 0 && !holds(dirs[0]) {
      assert dirs[..n][1..] == dirs[1..][..n - 1];
      FirstIndexPrefix(dirs[1..], holds, n - 1);
    }
  }

  /** The first directory of `dirs` that holds a marker, or `None` when none does. */
  function FirstMatch(fs: FileSystem, files: seq<string>, dirs: seq<string>): Option<string> {
    var k := FirstIndex(dirs, MarkerTest(fs, files));
    if k < |dirs| then Some(dirs[k]) else None
  }

  /** The ends of the ancestry: the parent of `start` first, a string of slashes last. */
  lemma AncestryEnds(start: string)
    ensures var all := AncestryFrom(start);
      && |all| >= 2
      && all[0] == Dirname(start)
      && AllSlashes(all[|all| - 1])
      && Dirname(all[|all| - 1]) == all[|all| - 1]
      && (AllSlashes(all[0]) ==> all == [all[0], all[0]])
  {
  }

  /** The inspected directories are a non-empty prefix of the ancestry, as long as `depth` allows. */
  lemma InspectedPrefix(start: string, depth: Option<int>)
    ensures var all, inspected := AncestryFrom(start), InspectedFrom(start, depth);
      && 1 <= |inspected| <= |all|
      && inspected == all[..|inspected|]
      && (DepthLimited(depth) ==> |inspected| == |all| || |inspected| == if depth.value < 1 then 1 else depth.value)
      && (!DepthLimited(depth) ==> inspected == all)
  {
    AncestryEnds(start);
  }

  /**
   * One step up the ancestry from `all[i]`: the dirname is the next directory, and it
   * is a fixed point of dirname exactly when the step reaches (or stays on) the last.
   */
  lemma AncestryStep(start: string, i: nat)
    requires i < |AncestryFrom(start)|
    ensures var all := AncestryFrom(start); var up := Dirname(all[i]);
      && (i + 1 < |all| ==> up == all[i + 1])
      && (Dirname(up) == up <==> i + 2 >= |all|)
  {
    var all, c := AncestryFrom(start), Chain(Dirname(start));
    AncestryEnds(start);
    if |c| > 1 && i + 1 < |all| {
      ChainStep(Dirname(start), i);
      if i + 1 < |all| - 1 {
        ChainStep(Dirname(start), i + 1);
      }
    }
  }

  /** The walk stops on `all[count]`, which passes the test: it is the first match. */
  lemma FoundAt(start: string, depth: Option<int>, holds: string -> bool, count: nat)
    requires count < |AncestryFrom(start)|
    requires DepthLimited(depth) && count >= 1 ==> count < depth.value
    requires count <= FirstIndex(AncestryFrom(start), holds)
    requires holds(AncestryFrom(start)[count])
    ensures var inspected := InspectedFrom(start, depth);
      count < |inspected| && FirstIndex(inspected, holds) == count && inspected[count] == AncestryFrom(start)[count]
  {
    var all, inspected := AncestryFrom(start), InspectedFrom(start, depth);
    InspectedPrefix(start, depth);
    FirstIndexAtMost(all, holds, count);
    FirstIndexPrefix(all, holds, |inspected|);
  }

  /** The walk gives up after `count` directories that all fail the test: nothing is found. */
  lemma NotFoundWithin(start: string, depth: Option<int>, holds: string -> bool, count: nat)
    requires count <= |AncestryFrom(start)|
    requires (DepthLimited(depth) && count >= depth.value && count >= 1) || count == |AncestryFrom(start)|
    requires count <= FirstIndex(AncestryFrom(start), holds)
    ensures var inspected := InspectedFrom(start, depth);
      FirstIndex(inspected, holds) == |inspected|
  {
    InspectedPrefix(start, depth);
    FirstIndexPrefix(AncestryFrom(start), holds, |InspectedFrom(start, depth)|);
  }

  /** The inner loop of `ancestor_contains_file`: whether any of `names` exists inside `dir`. */
  method DirHoldsMarker(fs: FileSystem, dir: string, names: seq<string>) returns (found: bool)
    ensures found == HoldsMarker(fs, dir, names)
  {
    for i := 0 to |names|
      invariant !HoldsMarker(fs, dir, names[..i])
    {
      assert names[..i + 1][..i] == names[..i];
      if Exists(fs, Join(dir, names[i])) {
        MarkerFromName(fs, dir, names, i);
        return true;
      }
    }
    assert names[..|names|] == names;
    return false;
  }

  /**
   * `ancestor_contains_file(path_p, files_n, depth)`: the first inspected ancestor, in
   * nearest-first order, that holds one of the names, or `None`.
   */
  method AncestorContainsFile(fs: FileSystem, path: string, files: Names, depth: Option<int>)
    returns (r: Option<string>)
    requires IsDir(fs, path)
    ensures r == FirstMatch(fs, NamesAsList(files), Inspected(fs, path, depth))
  {
    var names := NamesAsList(files);
    var p := RStripSlashes(path);
    if !IsDir(fs, p) {
      p := Dirname(p);
    }
    r := ClimbFrom(fs, p, names, depth);
  }

  /**
   * The loop of `ancestor_contains_file`, from the start path `p`: test `dirname(p)`,
   * then each further dirname, until a marker is found, `depth` directories have been
   * tested, or the root has been tested twice over.
   */
  method ClimbFrom(fs: FileSystem, p: string, names: seq<string>, depth: Option<int>)
    returns (r: Option<string>)
    ensures r == FirstMatch(fs, names, InspectedFrom(p, depth))
  {
    ghost var holds := MarkerTest(fs, names);
    ghost var all := AncestryFrom(p);
    ghost var last := |all| - 1;
    AncestryEnds(p);
    var alreadyAtRoot := false;
    var count := 0;
    var test := Dirname(p);
    while true
      invariant 0 <= count <= last
      invariant test == all[count]
      invariant alreadyAtRoot <==> count == last
      invariant DepthLimited(depth) && count >= 1 ==> count < depth.value
      invariant count <= FirstIndex(all, holds)
      decreases last - count
    {
      var found := DirHoldsMarker(fs, test, names);
      if found {
        assert holds(test);
        FoundAt(p, depth, holds, count);
        return Some(test);
      }
      assert !holds(test);
      FirstIndexNext(all, holds, count);
      AncestryStep(p, count);
      test := Dirname(test);
      count := count + 1;
      if DepthLimited(depth) && count >= depth.value {
        NotFoundWithin(p, depth, holds, count);
        return None;
      }
      if Dirname(test) == test {
        if alreadyAtRoot {
          NotFoundWithin(p, depth, holds, count);
          return None;
        }
        alreadyAtRoot := true;
      }
    }
  }

  /** Every string of the dirname chain from `s` is a prefix of `s`. */
  lemma {:induction false} ChainPrefixes(s: string)
    ensures forall i | 0 <= i < |Chain(s)| :: Chain(s)[i] <= s
    decreases |s|
  {
    if !AllSlashes(s) {
      var d := Dirname(s);
      ChainPrefixes(d);
      var c := Chain(s);
      forall i | 1 <= i < |c|
        ensures c[i] <= s
      {
        assert c[i] == Chain(d)[i - 1];
      }
    }
  }

  /** Starting from a directory that is not the root, the walk starts from the path itself, trailing slashes removed. */
  lemma SearchStartOfDirectory(fs: FileSystem, path: string)
    requires IsDir(fs, path) && !AllSlashes(path)
    ensures SearchStart(fs, path) == RStripSlashes(path)
  {
    assert Canon(path) == RStripSlashes(path);
    var p := RStripSlashes(path);
    assert p != [] && p[|p| - 1] != '/';
    assert !AllSlashes(p);
    assert Canon(p) == p;
  }

  /** From a start that is not a string of slashes, every inspected directory is a strict prefix of it. */
  lemma InspectedFromAncestors(start: string, depth: Option<int>)
    requires !AllSlashes(start)
    ensures var inspected := InspectedFrom(start, depth);
      forall i | 0 <= i < |inspected| :: inspected[i] <= start && |inspected[i]| < |start|
  {
    var d := Dirname(start);
    ChainPrefixes(d);
    InspectedPrefix(start, depth);
    var all, inspected, c := AncestryFrom(start), InspectedFrom(start, depth), Chain(d);
    forall i | 0 <= i < |inspected|
      ensures inspected[i] <= start && |inspected[i]| < |start|
    {
      assert inspected[i] == all[i];
      if |c| == 1 {
        assert all[i] == c[0];
      } else {
        assert all[i] == c[i];
      }
    }
  }

  /**
   * Every inspected directory is a proper ancestor of the given one: a strict prefix of
   * the path with its trailing slashes removed.
   */
  lemma InspectedAreAncestors(fs: FileSystem, path: string, depth: Option<int>)
    requires IsDir(fs, path) && !AllSlashes(path)
    ensures var s, inspected := RStripSlashes(path), Inspected(fs, path, depth);
      forall i | 0 <= i < |inspected| :: inspected[i] <= s && |inspected[i]| < |s|
  {
    SearchStartOfDirectory(fs, path);
    var s := RStripSlashes(path);
    assert s != [] && s[|s| - 1] != '/';
    InspectedFromAncestors(s, depth);
  }

  /**
   * A truthy `depth` bounds the number of directories inspected (a negative one
   * inspects the parent alone); without one the walk runs on to a string of slashes,
   * which is "" from a relative start, so "/" is then never inspected. The first
   * directory inspected is always the parent of the start.
   */
  lemma InspectedDepth(start: string, depth: Option<int>)
    ensures var inspected := InspectedFrom(start, depth);
      && (DepthLimited(depth) ==> |inspected| <= if depth.value < 1 then 1 else depth.value)
      && (!DepthLimited(depth) ==> AllSlashes(inspected[|inspected| - 1]))
      && inspected[0] == Dirname(start)
  {
    InspectedPrefix(start, depth);
    AncestryEnds(start);
  }

  /** The chain from an absolute path ends at a non-empty string of slashes. */
  lemma {:induction false} ChainEndsAbsolute(s: string)
    requires s != [] && s[0] == '/'
    ensures var c := Chain(s); c[|c| - 1] != [] && c[|c| - 1][0] == '/'
    decreases |s|
  {
    if !AllSlashes(s) {
      DirnameAbsolute(s);
      ChainEndsAbsolute(Dirname(s));
    }
  }

  /**
   * From an absolute start with no depth, the walk runs on to the root: the last
   * directory inspected is a non-empty string of slashes, never "".
   */
  lemma AbsoluteStartEndsAtRoot(start: string, depth: Option<int>)
    requires start != [] && start[0] == '/' && !DepthLimited(depth)
    ensures var inspected := InspectedFrom(start, depth);
      inspected[|inspected| - 1] != [] && AllSlashes(inspected[|inspected| - 1])
  {
    InspectedDepth(start, depth);
    InspectedPrefix(start, depth);
    DirnameAbsolute(start);
    ChainEndsAbsolute(Dirname(start));
  }

  /** A depth of one, or any negative depth, looks only in the immediate parent. */
  lemma ShallowDepthOnlyParent(start: string, depth: Option<int>)
    requires DepthLimited(depth) && depth.value <= 1
    ensures InspectedFrom(start, depth) == [Dirname(start)]
  {
    AncestryEnds(start);
  }

  /**
   * From a relative start the walk never looks in "/": every inspected directory is ""
   * or relative, and with no depth the last one is "", the working directory.
   */
  lemma RelativeStartNeverAtRoot(start: string, depth: Option<int>)
    requires start == [] || start[0] != '/'
    ensures var inspected := InspectedFrom(start, depth);
      && (forall i | 0 <= i < |inspected| :: inspected[i] == [] || inspected[i][0] != '/')
      && (!DepthLimited(depth) ==> inspected[|inspected| - 1] == [])
  {
    InspectedDepth(start, depth);
    InspectedPrefix(start, depth);
    var inspected := InspectedFrom(start, depth);
    if AllSlashes(start) {
      assert start == [];
      assert Dirname(start) == [];
      assert AncestryFrom(start) == [[], []];
    } else {
      InspectedFromAncestors(start, depth);
      forall i | 0 <= i < |inspected|
        ensures inspected[i] == [] || inspected[i][0] != '/'
      {
        if inspected[i] != [] {
          assert inspected[i][0] == start[0];
        }
      }
      var last := inspected[|inspected| - 1];
      if last != [] {
        assert last[0] == start[0];
      }
    }
  }

  /** The top of the chain is looked at twice exactly when the first ancestor already is that top. */
  lemma RootTwiceOnlyAtTop(start: string)
    ensures var all := AncestryFrom(start);
      all[|all| - 2] == all[|all| - 1] <==> AllSlashes(all[0])
  {
    AncestryEnds(start);
    var all := AncestryFrom(start);
    if |all| > 2 {
      ChainStep(Dirname(start), |all| - 2);
      assert !AllSlashes(all[|all| - 2]);
      assert all[|all| - 2] != all[|all| - 1];
    }
  }

  /**
   * Given "/" itself, the stripped path is "" (no directory), so the walk looks in ""
   * (names relative to the working directory), twice.
   */
  lemma RootPathLooksInEmpty(fs: FileSystem, path: string, depth: Option<int>)
    requires path != [] && AllSlashes(path) && !DepthLimited(depth)
    ensures Inspected(fs, path, depth) == ["", ""]
  {
    assert RStripSlashes(path) == [];
    assert SearchStart(fs, path) == [];
    assert Dirname([]) == [];
  }

  /**
   * What the walk returns: a directory it inspects that holds a marker and follows only
   * directories that hold none, or `None` exactly when no inspected directory holds one.
   */
  lemma FirstMatchMeaning(fs: FileSystem, files: seq<string>, dirs: seq<string>)
    ensures FirstMatch(fs, files, dirs) == None <==>
      forall j | 0 <= j < |dirs| :: !HoldsMarker(fs, dirs[j], files)
    ensures FirstMatch(fs, files, dirs).Some? ==>
      exists k | 0 <= k < |dirs| :: dirs[k] == FirstMatch(fs, files, dirs).value && HoldsMarker(fs, dirs[k], files)
        && forall j | 0 <= j < k :: !HoldsMarker(fs, dirs[j], files)
  {
    FirstIndexSpec(dirs, MarkerTest(fs, files));
    var k := FirstIndex(dirs, MarkerTest(fs, files));
    if k < |dirs| {
      assert dirs[k] == FirstMatch(fs, files, dirs).value;
    }
  }
}
