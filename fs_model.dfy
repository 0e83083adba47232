/**
 * An in-memory stand-in for the operating system calls the library makes:
 * `os.path.exists`, `os.path.isdir`, `os.path.islink`, `os.listdir`,
 * `os.path.getsize`, `os.path.realpath` and `os.walk`.
 */
module FsModel {
  import opened PosixPath
  import opened Seqs

  /** What `stat` reports for a path once symbolic links are followed. */
  datatype Entry = Dir(size: nat, children: seq<string>) | File(size: nat)

  /**
   * `entries` is the view through symbolic links (a dangling link has no entry);
   * `links` holds the paths that are themselves symbolic links; `realpath` is the
   * operating system's resolution of a path, which the library only calls.
   */
  datatype FileSystem = FileSystem(entries: map<string, Entry>, links: set<string>, realpath: string -> string)

  /**
   * The key a path is looked up under: trailing slashes are dropped, and a path made
   * only of slashes names the root. A trailing slash also makes the path follow a link
   * and demand a directory, which `Exists` and `IsLink` add on top of the lookup.
   */
  function Canon(p: string): string {
    if p != [] && AllSlashes(p) then "/" else RStripSlashes(p)
  }

  /**
   * `os.path.exists(p)`; the empty path never exists, and a path ending in a slash
   * exists only when it names a directory (`stat` fails with ENOTDIR otherwise).
   */
  predicate Exists(fs: FileSystem, p: string) {
    && p != []
    && Canon(p) in fs.entries
    && (p[|p| - 1] == '/' ==> fs.entries[Canon(p)].Dir?)
  }

  /** `os.path.isdir(p)`. */
  predicate IsDir(fs: FileSystem, p: string) {
    Exists(fs, p) && fs.entries[Canon(p)].Dir?
  }

  /**
   * `os.path.islink(p)`: `lstat` sees the link itself only when the path does not end
   * in a slash (a trailing slash makes it follow the link).
   */
  predicate IsLink(fs: FileSystem, p: string) {
    p != [] && p[|p| - 1] != '/' && p in fs.links
  }

  /** A path that names something other than a directory does not exist with a slash appended, nor is a link then. */
  lemma SlashedFileMissing(fs: FileSystem, p: string)
    requires Exists(fs, p) && !IsDir(fs, p)
    ensures !Exists(fs, p + "/") && !IsLink(fs, p + "/")
  {
    var q := p + "/";
    assert q[..|p|] == p;
    assert !AllSlashes(q);
    assert RStripSlashes(q) == RStripSlashes(p);
  }

  /** `os.listdir(p)`, in the order the operating system lists it. */
  function Listing(fs: FileSystem, p: string): seq<string>
    requires IsDir(fs, p)
  {
    fs.entries[Canon(p)].children
  }

  /** `os.path.getsize(p)`. */
  function SizeOf(fs: FileSystem, p: string): nat
    requires Exists(fs, p)
  {
    fs.entries[Canon(p)].size
  }

  /** A name `os.listdir` can return: never empty, never `.` or `..`, never holding a slash. */
  predicate ValidName(n: string) {
    n != [] && '/' !in n && n != "." && n != ".."
  }

  /** Every directory lists only valid names. */
  predicate WellFormed(fs: FileSystem) {
    forall k | k in fs.entries && fs.entries[k].Dir? ::
      forall i | 0 <= i < |fs.entries[k].children| :: ValidName(fs.entries[k].children[i])
  }

  /** Joining a valid name onto a path gives a longer path that is its own lookup key. */
  lemma JoinName(top: string, name: string)
    requires ValidName(name)
    ensures |Join(top, name)| > |top|
    ensures Canon(Join(top, name)) == Join(top, name)
  {
    var j := Join(top, name);
    assert j[|j| - 1] == name[|name| - 1] != '/';
    assert !AllSlashes(j);
  }

  /** One triple `(dirpath, dirnames, filenames)` yielded by `os.walk`. */
  datatype WalkStep = WalkStep(dirpath: string, dirnames: seq<string>, filenames: seq<string>)

  /** The keys longer than `n` characters: a walk only ever descends into them. */
  function KeysLongerThan(fs: FileSystem, n: nat): set<string> {
    set k | k in fs.entries && |k| > n
  }

  /** The `dirnames` of a walk step: the listed names that are directories, in listing order. */
  function SubdirNames(fs: FileSystem, top: string): (r: seq<string>)
    requires WellFormed(fs) && IsDir(fs, top)
    ensures forall i | 0 <= i < |r| :: ValidName(r[i]) && IsDir(fs, Join(top, r[i]))
  {
    var names := Listing(fs, top);
    var dirs := Filter(names, n => IsDir(fs, Join(top, n)));
    assert forall i | 0 <= i < |dirs| :: ValidName(dirs[i]) && IsDir(fs, Join(top, dirs[i])) by {
      forall i | 0 <= i < |dirs| ensures ValidName(dirs[i]) && IsDir(fs, Join(top, dirs[i])) {
        FilterMembers(names, n => IsDir(fs, Join(top, n)), dirs[i]);
      }
    }
    dirs
  }

  /** The `filenames` of a walk step: the listed names that are not directories, in listing order. */
  function FileNames(fs: FileSystem, top: string): (r: seq<string>)
    requires WellFormed(fs) && IsDir(fs, top)
    ensures forall i | 0 <= i < |r| :: ValidName(r[i]) && !IsDir(fs, Join(top, r[i]))
  {
    var names := Listing(fs, top);
    var files := Filter(names, n => !IsDir(fs, Join(top, n)));
    assert forall i | 0 <= i < |files| :: ValidName(files[i]) && !IsDir(fs, Join(top, files[i])) by {
      forall i | 0 <= i < |files| ensures ValidName(files[i]) && !IsDir(fs, Join(top, files[i])) {
        FilterMembers(names, n => !IsDir(fs, Join(top, n)), files[i]);
      }
    }
    files
  }

  /**
   * `os.walk(top)` with its defaults: top-down, errors ignored (a `top` that is not a
   * directory yields nothing), symbolic links to directories listed among the
   * directory names but not descended into.
   */
  function Walk(fs: FileSystem, top: string): seq<WalkStep>
    requires WellFormed(fs)
    decreases KeysLongerThan(fs, |top|), 1, 0
  {
    if !IsDir(fs, top) then []
    else
      var dirs := SubdirNames(fs, top);
      [WalkStep(top, dirs, FileNames(fs, top))] + WalkInto(fs, top, dirs)
  }

  /** The walks of the sub-directories `dirs` of `top`, one after another. */
  function WalkInto(fs: FileSystem, top: string, dirs: seq<string>): seq<WalkStep>
    requires WellFormed(fs)
    requires forall i | 0 <= i < |dirs| :: ValidName(dirs[i]) && IsDir(fs, Join(top, dirs[i]))
    decreases KeysLongerThan(fs, |top|), 0, |dirs|
  {
    if dirs == [] then []
    else
      var p := Join(top, dirs[0]);
      JoinName(top, dirs[0]);
      assert IsDir(fs, p) && Canon(p) == p;
      assert p in KeysLongerThan(fs, |top|) - KeysLongerThan(fs, |p|);
      (if IsLink(fs, p) then [] else Walk(fs, p)) + WalkInto(fs, top, dirs[1..])
  }
}
