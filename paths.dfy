/**
  Paths as the extension handles them through Node's `path` module:
  `path.join(dir, name)`, `path.relative(root, p)`, `path.basename(p)` and the
  tree-item label `fsPath.split(path.sep).pop() || ''`.

  A path is the list of its segments below the filesystem root, so
  `/home/u/ws` is ["home", "u", "ws"] and `/` is []; `path.join(dir, name)` is
  `dir + [name]`.
 */
module Paths {

  type Path = seq<string>

  /** A path whose segments are plain names: none is empty, "." or "..". */
  predicate Normal(p: Path) {
    forall i :: 0 <= i < |p| ==> p[i] != "" && p[i] != "." && p[i] != ".."
  }

  /** `a` is `b` itself or one of its ancestors. */
  predicate IsPrefix(a: Path, b: Path) {
    |a| <= |b| && b[..|a|] == a
  }

  /** `path.basename(p)`: the last segment, "" for the root. */
  function Basename(p: Path): (r: string)
    ensures p != [] ==> r == p[|p| - 1]
    ensures p == [] ==> r == ""
  {
    if p == [] then "" else p[|p| - 1]
  }

  /** The number of leading segments `a` and `b` share. */
  function CommonPrefixLength(a: Path, b: Path): (n: nat)
    ensures n <= |a| && n <= |b|
    ensures a[..n] == b[..n]
    ensures n < |a| && n < |b| ==> a[n] != b[n]
  {
    if a == [] || b == [] || a[0] != b[0] then 0
    else
      var m := CommonPrefixLength(a[1..], b[1..]);
      assert a[..m + 1] == [a[0]] + a[1..][..m];
      assert b[..m + 1] == [b[0]] + b[1..][..m];
      1 + m
  }

  /** `k` segments "..". */
  function Ups(k: nat): (r: Path)
    ensures |r| == k
    ensures forall i :: 0 <= i < k ==> r[i] == ".."
  {
    seq(k, _ => "..")
  }

  /**
    `path.relative(from, to)`: climb from `from` to the deepest directory the
    two paths share, then descend to `to`. The empty path is Node's ''.
   */
  function Relative(from: Path, to: Path): Path {
    var n := CommonPrefixLength(from, to);
    Ups(|from| - n) + to[n..]
  }

  /**
    `path.resolve(base, rel)` for a relative `rel`: ".." climbs one level
    (never above the root), "" and "." stay, any other segment descends.
    It is the inverse `path.relative` is defined against.
   */
  function Resolve(base: Path, rel: Path): Path
    decreases |rel|
  {
    if rel == [] then base
    else if rel[0] == ".." then Resolve(if base == [] then [] else base[..|base| - 1], rel[1..])
    else if rel[0] == "" || rel[0] == "." then Resolve(base, rel[1..])
    else Resolve(base + [rel[0]], rel[1..])
  }

  /** Descending along plain names appends them. */
  lemma {:induction false} ResolveNormal(base: Path, rel: Path)
    requires Normal(rel)
    ensures Resolve(base, rel) == base + rel
    decreases |rel|
  {
    if rel != [] {
      assert Normal(rel[1..]) by {
        forall i | 0 <= i < |rel[1..]| ensures rel[1..][i] != "" && rel[1..][i] != "." && rel[1..][i] != ".." {
          assert rel[1..][i] == rel[i + 1];
        }
      }
      ResolveNormal(base + [rel[0]], rel[1..]);
      assert base + [rel[0]] + rel[1..] == base + rel;
    }
  }

  /** Each leading ".." climbs one level. */
  lemma {:induction false} ResolveUps(base: Path, k: nat, rest: Path)
    requires k <= |base|
    ensures Resolve(base, Ups(k) + rest) == Resolve(base[..|base| - k], rest)
    decreases k
  {
    if k > 0 {
      var r := Ups(k) + rest;
      assert r[0] == "..";
      assert r[1..] == Ups(k - 1) + rest;
      var up := base[..|base| - 1];
      assert Resolve(base, r) == Resolve(up, r[1..]);
      ResolveUps(up, k - 1, rest);
      assert up[..|up| - (k - 1)] == base[..|base| - k];
    } else {
      assert Ups(0) + rest == rest;
      assert base[..|base|] == base;
    }
  }

  /** Resolving the relative path against its origin gives the target back. */
  lemma RelativeRoundTrip(from: Path, to: Path)
    requires Normal(to)
    ensures Resolve(from, Relative(from, to)) == to
  {
    var n := CommonPrefixLength(from, to);
    ResolveUps(from, |from| - n, to[n..]);
    assert from[..|from| - (|from| - n)] == from[..n];
    assert Normal(to[n..]) by {
      forall i | 0 <= i < |to[n..]| ensures to[n..][i] != "" && to[n..][i] != "." && to[n..][i] != ".." {
        assert to[n..][i] == to[n + i];
      }
    }
    ResolveNormal(from[..n], to[n..]);
    assert to[..n] + to[n..] == to;
  }

  /** Below `from`, the relative path is the remaining segments. */
  lemma RelativeOfDescendant(from: Path, to: Path)
    requires IsPrefix(from, to)
    ensures Relative(from, to) == to[|from|..]
  {
    assert forall i :: 0 <= i < |from| ==> from[i] == to[..|from|][i] == to[i];
    assert Ups(0) == [];
  }

  /** Being an ancestor is transitive, and the remaining segments split at the middle path. */
  lemma PrefixThrough(a: Path, b: Path, c: Path)
    requires IsPrefix(a, b) && IsPrefix(b, c)
    ensures IsPrefix(a, c)
    ensures c[|a|..] == b[|a|..] + c[|b|..]
  {
    assert c[..|a|] == c[..|b|][..|a|];
    assert c == b + c[|b|..];
  }

  /**
    A relative path leaves its origin (starts with "..") exactly when the
    target is not below the origin.
   */
  lemma RelativeEscapesIff(from: Path, to: Path)
    requires Normal(to)
    ensures var r := Relative(from, to); (|r| > 0 && r[0] == "..") <==> !IsPrefix(from, to)
  {
    var n := CommonPrefixLength(from, to);
    var r := Relative(from, to);
    if n < |from| {
      assert r[0] == Ups(|from| - n)[0] == "..";
      assert |from| <= |to| ==> to[..|from|][n] != from[n];
    } else {
      assert to[..|from|] == from[..|from|] == from;
      RelativeOfDescendant(from, to);
      if |r| > 0 {
        assert r[0] == to[|from|];
      }
    }
  }

  /** `fsPath` of a path whose separator is `sep`: `/a/b` for ["a", "b"]. */
  function Joined(sep: char, p: Path): string {
    if p == [] then "" else Joined(sep, p[..|p| - 1]) + [sep] + p[|p| - 1]
  }

  function FsPath(sep: char, p: Path): string {
    if p == [] then [sep] else Joined(sep, p)
  }

  /**
    `s.split(sep).pop() || ''`: the text after the last separator (all of `s`
    when it holds none, "" when it ends in one).
   */
  function LastSegment(s: string, sep: char): (r: string)
    ensures |r| <= |s| && r == s[|s| - |r|..]
    ensures sep !in r
    ensures |r| < |s| ==> s[|s| - |r| - 1] == sep
  {
    if s == [] || s[|s| - 1] == sep then ""
    else
      var r' := LastSegment(s[..|s| - 1], sep);
      assert s[..|s| - 1][|s| - 1 - |r'|..] + [s[|s| - 1]] == s[|s| - |r'| - 1..];
      r' + [s[|s| - 1]]
  }

  /** After a separator, the label is everything that follows it. */
  lemma {:induction false} LastSegmentAfterSep(x: string, sep: char, w: string)
    requires sep !in w
    ensures LastSegment(x + [sep] + w, sep) == w
    decreases |w|
  {
    var s := x + [sep] + w;
    if w != [] {
      var w' := w[..|w| - 1];
      assert s[..|s| - 1] == x + [sep] + w';
      LastSegmentAfterSep(x, sep, w');
      assert w' + [w[|w| - 1]] == w;
    }
  }

  /** The label of a path is its last segment, "" for the root. */
  lemma LabelOfFsPath(sep: char, p: Path)
    requires p != [] ==> sep !in p[|p| - 1]
    ensures LastSegment(FsPath(sep, p), sep) == Basename(p)
  {
    if p != [] {
      LastSegmentAfterSep(Joined(sep, p[..|p| - 1]), sep, p[|p| - 1]);
    }
  }
}
