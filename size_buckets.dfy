/**
 * `dir_files_keyed_by_size`: the entries of one directory, grouped in a dictionary
 * from `os.path.getsize` to the list of their paths. Every entry that `os.listdir`
 * returns is grouped, sub-directories included (under their own size).
 */
module SizeBuckets {
  import opened Wrappers
  import opened PosixPath
  import opened Seqs
  import opened FsModel

  /** `os.path.join(path_d, file_n)` for every name `os.listdir(path_d)` returns, in order. */
  function ChildPaths(fs: FileSystem, dir: string): (r: seq<string>)
    requires IsDir(fs, dir)
    ensures |r| == |Listing(fs, dir)|
  {
    var names := Listing(fs, dir);
    seq(|names|, i requires 0 <= i < |names| => Join(dir, names[i]))
  }

  /** Every path exists, so `os.path.getsize` succeeds on each. */
  predicate AllExist(fs: FileSystem, paths: seq<string>) {
    forall i | 0 <= i < |paths| :: Exists(fs, paths[i])
  }

  /** Whether `p` exists and has size `size`. */
  function HasSize(fs: FileSystem, size: nat): string -> bool {
    p => Exists(fs, p) && SizeOf(fs, p) == size
  }

  /** The sizes that occur among `paths`. */
  function SizesOf(fs: FileSystem, paths: seq<string>): set<nat>
    requires AllExist(fs, paths)
  {
    set i | 0 <= i < |paths| :: SizeOf(fs, paths[i])
  }

  /** The reference grouping: each occurring size maps to its paths, in their order in `paths`. */
  function Buckets(fs: FileSystem, paths: seq<string>): map<nat, seq<string>>
    requires AllExist(fs, paths)
  {
    map size | size in SizesOf(fs, paths) :: Filter(paths, HasSize(fs, size))
  }

  lemma SizesSnoc(fs: FileSystem, paths: seq<string>, p: string)
    requires AllExist(fs, paths) && Exists(fs, p)
    ensures AllExist(fs, paths + [p])
    ensures SizesOf(fs, paths + [p]) == SizesOf(fs, paths) + {SizeOf(fs, p)}
  {
    assert forall i | 0 <= i < |paths| :: paths[i] == (paths + [p])[i];
    assert (paths + [p])[|paths|] == p;
  }

  lemma NoBucketForAbsentSize(fs: FileSystem, paths: seq<string>, size: nat)
    requires AllExist(fs, paths) && size !in SizesOf(fs, paths)
    ensures Filter(paths, HasSize(fs, size)) == []
  {
    assert forall i | 0 <= i < |paths| :: SizeOf(fs, paths[i]) in SizesOf(fs, paths);
    FilterNone(paths, HasSize(fs, size));
  }

  /**
   * `output[size].append(p)`, or `output[size] = [p]` when there is no such bucket yet:
   * only the bucket of `size` changes, and it ends with `p`.
   */
  function AddToBucket(b: map<nat, seq<string>>, size: nat, p: string): (r: map<nat, seq<string>>)
    ensures r.Keys == b.Keys + {size}
    ensures r[size] == (if size in b then b[size] else []) + [p]
    ensures forall k | k in b && k != size :: r[k] == b[k]
  {
    if size in b then b[size := b[size] + [p]] else b[size := [p]]
  }

  /** The bucket of `k` after one more path: the old bucket, extended by the path when it has that size. */
  lemma BucketAtSnoc(fs: FileSystem, paths: seq<string>, p: string, k: nat)
    requires AllExist(fs, paths) && Exists(fs, p)
    requires AllExist(fs, paths + [p]) && k in SizesOf(fs, paths + [p])
    requires SizesOf(fs, paths + [p]) == SizesOf(fs, paths) + {SizeOf(fs, p)}
    ensures Buckets(fs, paths + [p])[k] == AddToBucket(Buckets(fs, paths), SizeOf(fs, p), p)[k]
  {
    FilterSnoc(paths, p, HasSize(fs, k));
    if k !in SizesOf(fs, paths) {
      NoBucketForAbsentSize(fs, paths, k);
    }
  }

  /** The buckets are keyed by exactly the sizes that occur. */
  lemma BucketsKeys(fs: FileSystem, paths: seq<string>)
    requires AllExist(fs, paths)
    ensures Buckets(fs, paths).Keys == SizesOf(fs, paths)
  {
  }

  /** Two maps with the same keys and the same value at every key are equal. */
  lemma MapExtensional(a: map<nat, seq<string>>, b: map<nat, seq<string>>)
    requires a.Keys == b.Keys && forall k | k in a :: a[k] == b[k]
    ensures a == b
  {
  }

  /** Grouping one more path adds it at the end of the bucket of its size, opening that bucket if need be. */
  lemma BucketsSnoc(fs: FileSystem, paths: seq<string>, p: string)
    requires AllExist(fs, paths) && Exists(fs, p)
    ensures AllExist(fs, paths + [p])
    ensures Buckets(fs, paths + [p]) == AddToBucket(Buckets(fs, paths), SizeOf(fs, p), p)
  {
    SizesSnoc(fs, paths, p);
    BucketsKeys(fs, paths);
    BucketsKeys(fs, paths + [p]);
    var b' := Buckets(fs, paths + [p]);
    var expected := AddToBucket(Buckets(fs, paths), SizeOf(fs, p), p);
    forall k | k in b'
      ensures b'[k] == expected[k]
    {
      BucketAtSnoc(fs, paths, p, k);
    }
    MapExtensional(b', expected);
  }

  /** The loop step of `dir_files_keyed_by_size`, stated on the prefix of the paths grouped so far. */
  lemma BucketsPrefixStep(fs: FileSystem, paths: seq<string>, i: nat)
    requires i < |paths| && AllExist(fs, paths[..i]) && Exists(fs, paths[i])
    ensures AllExist(fs, paths[..i + 1])
    ensures Buckets(fs, paths[..i + 1]) == AddToBucket(Buckets(fs, paths[..i]), SizeOf(fs, paths[i]), paths[i])
  {
    assert paths[..i + 1] == paths[..i] + [paths[i]];
    BucketsSnoc(fs, paths[..i], paths[i]);
  }

  /**
   * `dir_files_keyed_by_size(path_d)`: `os.listdir` fails on a path that is not a
   * directory, `os.path.getsize` fails on an entry that does not exist (a dangling
   * link); otherwise every entry is added to the bucket of its size.
   */
  method DirFilesKeyedBySize(fs: FileSystem, dir: string) returns (r: Result<map<nat, seq<string>>>)
    requires Exists(fs, dir)
    ensures !IsDir(fs, dir) ==> r == Err(NotADirectory)
    ensures IsDir(fs, dir) && !AllExist(fs, ChildPaths(fs, dir)) ==> r == Err(FileNotFound)
    ensures IsDir(fs, dir) && AllExist(fs, ChildPaths(fs, dir)) ==> r == Ok(Buckets(fs, ChildPaths(fs, dir)))
  {
    if !IsDir(fs, dir) {
      return Err(NotADirectory);
    }
    ghost var paths := ChildPaths(fs, dir);
    var output: map<nat, seq<string>> := map[];
    var names := Listing(fs, dir);
    for i := 0 to |names|
      invariant AllExist(fs, paths[..i])
      invariant output == Buckets(fs, paths[..i])
    {
      var file := Join(dir, names[i]);
      assert file == paths[i];
      if !Exists(fs, file) {
        return Err(FileNotFound);
      }
      var size := SizeOf(fs, file);
      BucketsPrefixStep(fs, paths, i);
      if size !in output {
        output := output[size := [file]];
      } else {
        var existing := output[size];
        existing := existing + [file];
        output := output[size := existing];
      }
    }
    assert paths[..|names|] == paths;
    return Ok(output);
  }

  /** Each path sits in the bucket of its own size. */
  lemma BucketsCover(fs: FileSystem, paths: seq<string>, i: nat)
    requires AllExist(fs, paths) && i < |paths|
    ensures var b, size := Buckets(fs, paths), SizeOf(fs, paths[i]);
      size in b && paths[i] in b[size]
  {
    FilterMembers(paths, HasSize(fs, SizeOf(fs, paths[i])), paths[i]);
  }

  /** A bucket holds only paths from `paths` that have the bucket's size. */
  lemma BucketsSound(fs: FileSystem, paths: seq<string>, size: nat, p: string)
    requires AllExist(fs, paths)
    requires var b := Buckets(fs, paths); size in b && p in b[size]
    ensures p in paths && Exists(fs, p) && SizeOf(fs, p) == size
  {
    FilterMembers(paths, HasSize(fs, size), p);
  }

  /** No bucket is empty, and each keeps the listing order. */
  lemma BucketsNonEmptyOrdered(fs: FileSystem, paths: seq<string>, size: nat)
    requires AllExist(fs, paths)
    requires size in Buckets(fs, paths)
    ensures var b := Buckets(fs, paths); b[size] != [] && IsSubsequence(b[size], paths)
  {
    var i :| 0 <= i < |paths| && SizeOf(fs, paths[i]) == size;
    FilterMembers(paths, HasSize(fs, size), paths[i]);
    FilterIsSubsequence(paths, HasSize(fs, size));
  }

  /** A fixed but arbitrary key of a non-empty map. */
  ghost function PickKey(m: map<nat, seq<string>>): nat
    requires m != map[]
  {
    var k :| k in m; k
  }

  /** The sum of the lengths of the lists in `m`. */
  ghost function TotalLength(m: map<nat, seq<string>>): nat
    decreases |m|
  {
    if m == map[] then 0
    else
      var k := PickKey(m);
      assert (m - {k}).Keys == m.Keys - {k};
      |m[k]| + TotalLength(m - {k})
  }

  /** The total does not depend on which key is taken out first. */
  lemma {:induction false} TotalLengthRemove(m: map<nat, seq<string>>, k: nat)
    requires k in m
    ensures TotalLength(m) == |m[k]| + TotalLength(m - {k})
    decreases |m|
  {
    var j := PickKey(m);
    assert (m - {j}).Keys == m.Keys - {j};
    if j != k {
      TotalLengthRemove(m - {j}, k);
      assert (m - {k}).Keys == m.Keys - {k};
      TotalLengthRemove(m - {k}, j);
      assert m - {j} - {k} == m - {k} - {j};
    }
  }

  /** Appending one path to a bucket, or opening a bucket with it, adds one to the total. */
  lemma TotalLengthAppend(m: map<nat, seq<string>>, k: nat, p: string)
    ensures TotalLength(AddToBucket(m, k, p)) == TotalLength(m) + 1
  {
    var m' := AddToBucket(m, k, p);
    TotalLengthRemove(m', k);
    if k in m {
      TotalLengthRemove(m, k);
      assert m' - {k} == m - {k};
    } else {
      assert m' - {k} == m;
    }
  }

  /** No path is lost or duplicated: the bucket lengths add up to the number of entries. */
  lemma {:induction false} BucketsTotal(fs: FileSystem, paths: seq<string>)
    requires AllExist(fs, paths)
    ensures TotalLength(Buckets(fs, paths)) == |paths|
  {
    if paths == [] {
      assert Buckets(fs, paths) == map[];
    } else {
      var init, p := paths[..|paths| - 1], paths[|paths| - 1];
      assert paths == init + [p];
      BucketsSnoc(fs, init, p);
      BucketsTotal(fs, init);
      TotalLengthAppend(Buckets(fs, init), SizeOf(fs, p), p);
    }
  }
}
