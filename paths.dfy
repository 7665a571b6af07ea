/**
  Strings and paths as the CLI uses them: `String.prototype.includes`,
  `url.split('/').pop()`, and an abstract `path.join` / `path.dirname`.

  A path is the string the program builds; the empty path stands for the
  working directory (or the root). Trailing separators of a directory are
  dropped where node's path and file-system calls drop them; no
  normalisation of `.`, `..` or inner repeated separators is modelled.
*/
module Paths {

  type Path = string

  predicate StartsWith(s: string, prefix: string) {
    |prefix| <= |s| && s[..|prefix|] == prefix
  }

  /** `s.includes(t)`: `t` occurs somewhere in `s` (the empty string occurs everywhere). */
  predicate Contains(s: string, t: string)
    decreases |s|
  {
    StartsWith(s, t) || (|s| > 0 && Contains(s[1..], t))
  }

  /** `t` occurs in `s` at position `i`. */
  ghost predicate OccursAt(s: string, t: string, i: int) {
    0 <= i && i + |t| <= |s| && s[i..i + |t|] == t
  }

  lemma {:induction false} ContainsIsOccurrence(s: string, t: string)
    ensures Contains(s, t) <==> exists i :: OccursAt(s, t, i)
    decreases |s|
  {
    if StartsWith(s, t) {
      assert OccursAt(s, t, 0);
    } else if |s| == 0 {
    } else {
      ContainsIsOccurrence(s[1..], t);
      if Contains(s[1..], t) {
        var i :| OccursAt(s[1..], t, i);
        assert s[i + 1..i + 1 + |t|] == s[1..][i..i + |t|];
        assert OccursAt(s, t, i + 1);
      } else {
        forall i | OccursAt(s, t, i) && i > 0 ensures OccursAt(s[1..], t, i - 1) {
          assert s[1..][i - 1..i - 1 + |t|] == s[i..i + |t|];
        }
      }
    }
  }

  /**
    `s.split('/').pop()`: the text after the last `/` of `s`, all of `s` when it
    has no `/`, and empty when `s` ends with `/`.
  */
  function LastSegment(s: string): (r: string)
    ensures |r| <= |s| && r == s[|s| - |r|..]
    ensures '/' !in r
    ensures |r| < |s| ==> s[|s| - |r| - 1] == '/'
  {
    if |s| == 0 then ""
    else if s[|s| - 1] == '/' then ""
    else LastSegment(s[..|s| - 1]) + [s[|s| - 1]]
  }

  /** The conditions of LastSegment's contract single out one string. */
  lemma LastSegmentUnique(s: string, n: string)
    requires |n| <= |s| && n == s[|s| - |n|..] && '/' !in n
    requires |n| < |s| ==> s[|s| - |n| - 1] == '/'
    ensures LastSegment(s) == n
  {
  }

  lemma LastSegmentWhole(s: string)
    ensures LastSegment(s) == s <==> '/' !in s
  {
    if '/' !in s {
      LastSegmentUnique(s, s);
    }
  }

  lemma LastSegmentOfTrailingSlash(s: string)
    requires |s| > 0 && s[|s| - 1] == '/'
    ensures LastSegment(s) == ""
  {
  }

  /** `path.join(dir, name)`, with an empty component contributing nothing. */
  function Join(dir: Path, name: string): Path {
    if name == "" then dir
    else if dir == "" then name
    else dir + "/" + name
  }

  /** `path.dirname(p)`: everything before the last `/`; the empty path when there is none. */
  function Dirname(p: Path): (d: Path)
    ensures '/' in p ==> p == d + "/" + LastSegment(p)
    ensures '/' !in p ==> d == ""
  {
    if '/' in p then p[..|p| - |LastSegment(p)| - 1] else ""
  }

  /**
    A directory as `path.join` and the `fs` calls read it: `p` without its
    trailing `/`s, so `out/` and `out` name the same directory.
  */
  function TrimTrailingSlashes(p: Path): (r: Path)
    ensures |r| <= |p| && r == p[..|r|]
    ensures r == "" || r[|r| - 1] != '/'
    ensures forall k :: |r| <= k < |p| ==> p[k] == '/'
    decreases |p|
  {
    if |p| > 0 && p[|p| - 1] == '/' then TrimTrailingSlashes(p[..|p| - 1]) else p
  }

  /** Trimming leaves a path without a trailing `/` alone, and extra trailing `/`s change nothing. */
  lemma {:induction false} TrimTrailingSlashesCharacterised(p: Path, r: Path)
    ensures TrimTrailingSlashes(p) == r <==>
      && |r| <= |p| && r == p[..|r|] && (r == "" || r[|r| - 1] != '/')
      && (forall k :: |r| <= k < |p| ==> p[k] == '/')
  {
    var t := TrimTrailingSlashes(p);
    if && |r| <= |p| && r == p[..|r|] && (r == "" || r[|r| - 1] != '/')
       && (forall k :: |r| <= k < |p| ==> p[k] == '/') {
      assert |r| > 0 ==> p[|r| - 1] != '/';
      assert |t| > 0 ==> p[|t| - 1] != '/';
    }
  }

  lemma TrimTrailingSlashesOfSlash(p: Path)
    ensures TrimTrailingSlashes(p + "/") == TrimTrailingSlashes(p)
  {
    assert (p + "/")[..|p|] == p;
  }

  /** Joining a plain name to a directory and taking the dirname and last segment gives both back. */
  lemma {:induction false} JoinSplits(dir: Path, name: string)
    requires name != "" && '/' !in name
    ensures LastSegment(Join(dir, name)) == name
    ensures Dirname(Join(dir, name)) == dir
  {
    var p := Join(dir, name);
    if dir == "" {
      LastSegmentWhole(name);
    } else {
      assert p[|p| - |name|..] == name;
      assert p[|p| - |name| - 1] == '/';
      LastSegmentUnique(p, name);
      assert p[..|p| - |name| - 1] == dir;
    }
  }
}
