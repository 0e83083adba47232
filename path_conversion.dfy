/**
 * `convert_unix_path_to_os_path`: strip the leading slashes, split on "/", and join
 * the pieces back with the host's `os.path.join` (here `posixpath.join`).
 */
module PathConversion {
  import opened PosixPath

  /** `convert_unix_path_to_os_path(path)`. */
  function ConvertUnixPathToOsPath(path: string): string {
    JoinAll(SplitOnSlash(LStripSlashes(path)))
  }

  /** No slash is directly followed by another slash. */
  predicate NoDoubleSlash(s: string) {
    forall i | 0 <= i < |s| - 1 :: !(s[i] == '/' && s[i + 1] == '/')
  }

  /**
   * The reference behaviour: `s` with every run of slashes shortened to one slash.
   * The result has no doubled slash, and keeps the first and the last character.
   */
  function CollapseSlashes(s: string): (r: string)
    ensures NoDoubleSlash(r)
    ensures |r| <= |s|
    ensures (r == []) == (s == [])
    ensures s != [] ==> r[0] == s[0] && r[|r| - 1] == s[|s| - 1]
  {
    if |s| <= 1 then s
    else if s[|s| - 1] == '/' && s[|s| - 2] == '/' then CollapseSlashes(s[..|s| - 1])
    else CollapseSlashes(s[..|s| - 1]) + [s[|s| - 1]]
  }

  /** A string without doubled slashes is left as it is. */
  lemma {:induction false} CollapseNoDoubleSlash(s: string)
    requires NoDoubleSlash(s)
    ensures CollapseSlashes(s) == s
  {
    if |s| > 1 {
      var init := s[..|s| - 1];
      assert NoDoubleSlash(init);
      CollapseNoDoubleSlash(init);
      assert s == init + [s[|s| - 1]];
    }
  }

  /** Adding a character other than a slash to the last piece adds it to the joined path. */
  lemma JoinExtend(a: string, b: string, c: char)
    requires '/' !in b && c != '/'
    ensures Join(a, b + [c]) == Join(a, b) + [c]
  {
    assert (b + [c])[0] != '/';
  }

  /** Adding an empty last piece adds a separating slash, as `posixpath.join(a, "")` does. */
  lemma JoinAllAddEmpty(parts: seq<string>)
    requires parts != []
    ensures JoinAll(parts + [""]) == Join(JoinAll(parts), "")
  {
    assert (parts + [""])[..|parts|] == parts;
  }

  /** Extending the last piece by a character other than a slash extends the joined path by it. */
  lemma JoinAllExtendLast(parts: seq<string>, c: char)
    requires parts != [] && '/' !in parts[|parts| - 1] && c != '/'
    ensures var k := |parts| - 1;
      JoinAll(parts[..k] + [parts[k] + [c]]) == JoinAll(parts) + [c]
  {
    var k := |parts| - 1;
    var all := parts[..k] + [parts[k] + [c]];
    if k == 0 {
      assert JoinAll(all) == parts[0] + [c];
    } else {
      assert all[..k] == parts[..k];
      JoinExtend(JoinAll(parts[..k]), parts[k], c);
    }
  }

  /**
   * Joining the pieces of `s.split("/")` with `posixpath.join` collapses runs of slashes,
   * provided `s` does not start with a slash (a piece starting with "/" would reset the join).
   */
  lemma {:induction false} JoinAllSplitCollapses(s: string)
    requires s == [] || s[0] != '/'
    ensures JoinAll(SplitOnSlash(s)) == CollapseSlashes(s)
  {
    if s != [] {
      var init, c := s[..|s| - 1], s[|s| - 1];
      assert s == init + [c];
      var parts := SplitOnSlash(init);
      if init == [] {
        assert SplitOnSlash(s) == [[c]];
      } else {
        assert init[0] == s[0];
        JoinAllSplitCollapses(init);
        var collapsed := CollapseSlashes(init);
        assert collapsed[|collapsed| - 1] == init[|init| - 1] == s[|s| - 2];
        if c == '/' {
          assert SplitOnSlash(s) == parts + [""];
          JoinAllAddEmpty(parts);
          assert CollapseSlashes(s) == Join(collapsed, "");
        } else {
          var k := |parts| - 1;
          assert SplitOnSlash(s) == parts[..k] + [parts[k] + [c]];
          JoinAllExtendLast(parts, c);
          assert CollapseSlashes(s) == collapsed + [c];
        }
      }
    }
  }

  /** The conversion is the slash-collapsed path with its leading slashes removed. */
  lemma ConvertIsCollapse(path: string)
    ensures ConvertUnixPathToOsPath(path) == CollapseSlashes(LStripSlashes(path))
  {
    JoinAllSplitCollapses(LStripSlashes(path));
  }

  /** The result is relative (never starts with a slash) and has no doubled slash. */
  lemma ConvertShape(path: string)
    ensures var r := ConvertUnixPathToOsPath(path);
      (r == [] || r[0] != '/') && NoDoubleSlash(r)
  {
    ConvertIsCollapse(path);
  }

  /** Converting an already converted path changes nothing. */
  lemma ConvertIdempotent(path: string)
    ensures ConvertUnixPathToOsPath(ConvertUnixPathToOsPath(path)) == ConvertUnixPathToOsPath(path)
  {
    var r := ConvertUnixPathToOsPath(path);
    ConvertShape(path);
    ConvertIsCollapse(r);
    assert LStripSlashes(r) == r;
    CollapseNoDoubleSlash(r);
  }

  /** The empty string converts to the empty string rather than failing. */
  lemma ConvertEmpty()
    ensures ConvertUnixPathToOsPath("") == ""
  {
  }

  /**
   * Leading slashes followed by a relative path without doubled slashes convert to that
   * relative path: `/a/b/c` becomes `a/b/c`.
   */
  lemma ConvertAbsoluteClean(lead: string, rest: string)
    requires AllSlashes(lead) && (rest == [] || rest[0] != '/') && NoDoubleSlash(rest)
    ensures ConvertUnixPathToOsPath(lead + rest) == rest
  {
    LStripLeading(lead, rest);
    ConvertIsCollapse(lead + rest);
    CollapseNoDoubleSlash(rest);
  }

  /** `/a/b/c` becomes `a/b/c`. */
  lemma ConvertAbsoluteExample()
    ensures ConvertUnixPathToOsPath("/a/b/c") == "a/b/c"
  {
    assert NoDoubleSlash("a/b/c");
    assert "/a/b/c" == "/" + "a/b/c";
    ConvertAbsoluteClean("/", "a/b/c");
  }

  /** `a//b/` becomes `a/b/`: the doubled slash collapses, the trailing one stays. */
  lemma ConvertCollapseExample(path: string)
    requires path == "a//b/"
    ensures ConvertUnixPathToOsPath(path) == "a/b/"
  {
    ConvertIsCollapse(path);
    var a, a1, a2, a3 := path[..1], path[..2], path[..3], path[..4];
    assert LStripSlashes(path) == path;
    assert CollapseSlashes(a1) == a1;
    assert CollapseSlashes(a2) == a1;
    assert CollapseSlashes(a3) == "a/b";
  }
}
