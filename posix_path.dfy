/**
 * The parts of Python's `posixpath` that the library relies on: `str.lstrip("/")`,
 * `str.rstrip("/")`, `str.split("/")`, `str.startswith`, and `posixpath.join`,
 * `posixpath.split`, `posixpath.dirname`.
 */
module PosixPath {

  /** True when every character of `s` is a slash (so also for the empty string). */
  predicate AllSlashes(s: string) {
    forall i | 0 <= i < |s| :: s[i] == '/'
  }

  /** `s.startswith(prefix)`: a raw character-by-character prefix test. */
  predicate StartsWith(s: string, prefix: string) {
    prefix <= s
  }

  /** `s.rstrip("/")`: the longest prefix of `s` that does not end in a slash. */
  function RStripSlashes(s: string): (r: string)
    ensures r <= s
    ensures r == [] || r[|r| - 1] != '/'
    ensures AllSlashes(s[|r|..])
  {
    if s != [] && s[|s| - 1] == '/' then RStripSlashes(s[..|s| - 1]) else s
  }

  /** `s.lstrip("/")`: the longest suffix of `s` that does not start with a slash. */
  function LStripSlashes(s: string): (r: string)
    ensures |r| <= |s| && r == s[|s| - |r|..]
    ensures r == [] || r[0] != '/'
    ensures AllSlashes(s[..|s| - |r|])
  {
    if s != [] && s[0] == '/' then LStripSlashes(s[1..]) else s
  }

  /** Stripping leading slashes from slashes followed by a path that does not start with one. */
  lemma {:induction false} LStripLeading(lead: string, rest: string)
    requires AllSlashes(lead) && (rest == [] || rest[0] != '/')
    ensures LStripSlashes(lead + rest) == rest
  {
    if lead != [] {
      assert (lead + rest)[1..] == lead[1..] + rest;
      LStripLeading(lead[1..], rest);
    } else {
      assert lead + rest == rest;
    }
  }

  /** `p.rfind("/") + 1`: how much of `p` runs up to and including its last slash. */
  function HeadLength(p: string): (n: nat)
    ensures n <= |p|
    ensures n == 0 || p[n - 1] == '/'
    ensures forall i | n <= i < |p| :: p[i] != '/'
  {
    if p == [] then 0 else if p[|p| - 1] == '/' then |p| else HeadLength(p[..|p| - 1])
  }

  /**
   * `posixpath.split(p)`: the tail is everything after the last slash; the head is
   * everything up to it, with trailing slashes removed unless the head is all slashes.
   */
  function Split(p: string): (r: (string, string))
    ensures r.0 <= p
    ensures |r.1| <= |p| && r.1 == p[|p| - |r.1|..]
    ensures '/' !in r.1
  {
    var n := HeadLength(p);
    var head := p[..n];
    (if head != [] && !AllSlashes(head) then RStripSlashes(head) else head, p[n..])
  }

  /**
   * `posixpath.dirname(p)`: drop everything after the last slash, then the trailing
   * slashes, unless only slashes are left. It is a prefix of `p`; its fixed points are
   * exactly the strings made only of slashes (the root, and ""); every other string
   * gets strictly shorter, which is what bounds an upward walk.
   */
  function Dirname(p: string): (d: string)
    ensures d <= p
    ensures d == p <==> AllSlashes(p)
    ensures d != p ==> |d| < |p|
  {
    if p != [] && p[|p| - 1] != '/' then Dirname(p[..|p| - 1])
    else if AllSlashes(p) then p
    else RStripSlashes(p)
  }

  /** The dirname of an absolute path is absolute: it is never "". */
  lemma {:induction false} DirnameAbsolute(p: string)
    requires p != [] && p[0] == '/'
    ensures Dirname(p) != [] && Dirname(p)[0] == '/'
  {
    if p[|p| - 1] != '/' {
      DirnameAbsolute(p[..|p| - 1]);
    }
  }

  /** `Dirname` is the head of `Split`, as `posixpath.dirname` is defined. */
  lemma {:induction false} DirnameIsSplitHead(p: string)
    ensures Dirname(p) == Split(p).0
  {
    if p != [] && p[|p| - 1] != '/' {
      var init := p[..|p| - 1];
      DirnameIsSplitHead(init);
      assert HeadLength(p) == HeadLength(init);
      assert p[..HeadLength(p)] == init[..HeadLength(init)];
    } else {
      assert HeadLength(p) == |p|;
      assert p[..|p|] == p;
    }
  }

  /** `posixpath.join(a, b)`. */
  function Join(a: string, b: string): string {
    if b != [] && b[0] == '/' then b
    else if a == [] || a[|a| - 1] == '/' then a + b
    else a + "/" + b
  }

  /** `posixpath.join(*parts)` for a non-empty list of parts: Join folded from the left. */
  function JoinAll(parts: seq<string>): string
    requires parts != []
  {
    if |parts| == 1 then parts[0] else Join(JoinAll(parts[..|parts| - 1]), parts[|parts| - 1])
  }

  /** `"/".join(parts)`. */
  function Interleave(parts: seq<string>): string
    requires parts != []
  {
    if |parts| == 1 then parts[0] else Interleave(parts[..|parts| - 1]) + "/" + parts[|parts| - 1]
  }

  /** Extending the last piece by one character extends the interleaving by that character. */
  lemma InterleaveExtendLast(parts: seq<string>, c: char)
    requires parts != []
    ensures var k := |parts| - 1;
      Interleave(parts[..k] + [parts[k] + [c]]) == Interleave(parts) + [c]
  {
    var k := |parts| - 1;
    var r := parts[..k] + [parts[k] + [c]];
    if k > 0 {
      assert r[..k] == parts[..k];
    }
  }

  /** Adding an empty piece adds a slash to the interleaving. */
  lemma InterleaveAddEmpty(parts: seq<string>)
    requires parts != []
    ensures Interleave(parts + [""]) == Interleave(parts) + "/"
  {
    assert (parts + [""])[..|parts|] == parts;
  }

  /**
   * `s.split("/")`: never empty, no piece holds a slash, and joining the pieces back
   * with "/" gives `s` again.
   */
  function SplitOnSlash(s: string): (r: seq<string>)
    ensures r != []
    ensures forall i | 0 <= i < |r| :: '/' !in r[i]
    ensures Interleave(r) == s
  {
    if s == [] then [""]
    else
      var init := SplitOnSlash(s[..|s| - 1]);
      var c := s[|s| - 1];
      assert s == s[..|s| - 1] + [c];
      if c == '/' then
        InterleaveAddEmpty(init);
        init + [""]
      else
        var k := |init| - 1;
        InterleaveExtendLast(init, c);
        init[..k] + [init[k] + [c]]
  }
}
