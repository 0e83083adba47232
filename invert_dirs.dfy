/**
 * `invert_dir_list`: the sub-directories of a parent directory that are not in a
 * given list of names, optionally only those whose name matches a regular expression.
 */
module InvertDirs {
  import opened Wrappers
  import opened PosixPath
  import opened Seqs
  import opened FsModel

  /**
   * A pattern filters only when it is truthy: `None` and the empty pattern do not.
   * `matches(pattern, name)` stands for `re.match(pattern, name)` finding a match.
   */
  predicate PatternApplies(pattern: Option<string>) {
    pattern.Some? && pattern.value != ""
  }

  /** Whether the child `name` of `parent` belongs in the result. */
  predicate Kept(fs: FileSystem, parent: string, subdirs: seq<string>, pattern: Option<string>,
                 matches: (string, string) -> bool, name: string)
  {
    && IsDir(fs, Join(parent, name))
    && name !in subdirs
    && (PatternApplies(pattern) ==> matches(pattern.value, name))
  }

  /** `Kept` as a filter for the listing of `parent`. */
  function KeptFilter(fs: FileSystem, parent: string, subdirs: seq<string>, pattern: Option<string>,
                      matches: (string, string) -> bool): string -> bool
  {
    name => Kept(fs, parent, subdirs, pattern, matches, name)
  }

  /** The listing of `parent`, filtered by `Kept`, in listing order. */
  function Inverted(fs: FileSystem, parent: string, subdirs: seq<string>, pattern: Option<string>,
                    matches: (string, string) -> bool): seq<string>
    requires IsDir(fs, parent)
  {
    Filter(Listing(fs, parent), KeptFilter(fs, parent, subdirs, pattern, matches))
  }

  /** One more listed name extends the result by that name exactly when it is kept. */
  lemma KeptStep(fs: FileSystem, parent: string, subdirs: seq<string>, pattern: Option<string>,
                 matches: (string, string) -> bool, items: seq<string>, i: nat)
    requires i < |items|
    ensures var keep := KeptFilter(fs, parent, subdirs, pattern, matches);
      Filter(items[..i + 1], keep)
        == Filter(items[..i], keep) + if Kept(fs, parent, subdirs, pattern, matches, items[i]) then [items[i]] else []
  {
    assert items[..i + 1] == items[..i] + [items[i]];
    FilterSnoc(items[..i], items[i], KeptFilter(fs, parent, subdirs, pattern, matches));
  }

  /** `invert_dir_list(parent_d, subdirs_n, pattern)`. */
  method InvertDirList(fs: FileSystem, parent: string, subdirs: seq<string>, pattern: Option<string>,
                       matches: (string, string) -> bool)
    returns (output: seq<string>)
    requires IsDir(fs, parent)
    ensures output == Inverted(fs, parent, subdirs, pattern, matches)
  {
    var items := Listing(fs, parent);
    ghost var keep := KeptFilter(fs, parent, subdirs, pattern, matches);
    output := [];
    for i := 0 to |items|
      invariant output == Filter(items[..i], keep)
    {
      var item := items[i];
      ghost var before := output;
      if IsDir(fs, Join(parent, item)) {
        if item !in subdirs {
          var result := true;
          if PatternApplies(pattern) {
            result := matches(pattern.value, item);
          }
          if result {
            output := output + [item];
          }
        }
      }
      assert output == before + if Kept(fs, parent, subdirs, pattern, matches, item) then [item] else [];
      KeptStep(fs, parent, subdirs, pattern, matches, items, i);
    }
    assert items[..|items|] == items;
  }

  /**
   * A name is returned exactly when it is listed in `parent`, names a directory there,
   * is not one of `subdirs`, and matches the pattern when the pattern is truthy.
   */
  lemma InvertedMembers(fs: FileSystem, parent: string, subdirs: seq<string>, pattern: Option<string>,
                        matches: (string, string) -> bool, name: string)
    requires IsDir(fs, parent)
    ensures name in Inverted(fs, parent, subdirs, pattern, matches) <==>
      && name in Listing(fs, parent)
      && IsDir(fs, Join(parent, name))
      && name !in subdirs
      && (PatternApplies(pattern) ==> matches(pattern.value, name))
  {
    FilterMembers(Listing(fs, parent), KeptFilter(fs, parent, subdirs, pattern, matches), name);
  }

  /** The result keeps the order of `os.listdir`. */
  lemma InvertedInListingOrder(fs: FileSystem, parent: string, subdirs: seq<string>, pattern: Option<string>,
                               matches: (string, string) -> bool)
    requires IsDir(fs, parent)
    ensures IsSubsequence(Inverted(fs, parent, subdirs, pattern, matches), Listing(fs, parent))
  {
    FilterIsSubsequence(Listing(fs, parent), KeptFilter(fs, parent, subdirs, pattern, matches));
  }

  /** With `None` or `""` as the pattern the matcher is never consulted. */
  lemma {:induction false} FalsyPatternIgnored(fs: FileSystem, parent: string, subdirs: seq<string>,
                                               pattern: Option<string>, matches: (string, string) -> bool,
                                               other: (string, string) -> bool)
    requires IsDir(fs, parent)
    requires !PatternApplies(pattern)
    ensures Inverted(fs, parent, subdirs, pattern, matches) == Inverted(fs, parent, subdirs, None, other)
  {
    FilterSameKeep(Listing(fs, parent), KeptFilter(fs, parent, subdirs, pattern, matches),
                   KeptFilter(fs, parent, subdirs, None, other));
  }

  lemma {:induction false} FilterSameKeep(s: seq<string>, k1: string -> bool, k2: string -> bool)
    requires forall x :: k1(x) == k2(x)
    ensures Filter(s, k1) == Filter(s, k2)
  {
    if s != [] {
      FilterSameKeep(s[..|s| - 1], k1, k2);
    }
  }
}
