/** Clean absolute directory paths and the lexical parent relation used by the upward walk. */
module Paths {

  /** One path component (a directory name). */
  type Segment = string

  /** An absolute, clean path: "/a/b/c" is ["a", "b", "c"] and the root "/" is []. */
  type Path = seq<Segment>

  const Root: Path := []

  /** `a` is `p` itself or a directory above it. */
  predicate IsAncestorOrSelf(a: Path, p: Path) {
    a <= p
  }

  /** `a` is a directory strictly above `p`. */
  predicate IsProperAncestor(a: Path, p: Path) {
    a < p
  }

  /** `d` is a directory the upward walk from `p` reaches: `p` or one of its
      ancestors, the root excluded unless `p` is the root. */
  predicate OnWalk(d: Path, p: Path) {
    IsAncestorOrSelf(d, p) && (d != Root || p == Root)
  }

  /** `filepath.Dir` on a clean absolute path: the directory one level up.
      The root is the only fixed point. */
  function Parent(p: Path): (q: Path)
    ensures p == Root ==> q == Root
    ensures p != Root ==> |q| == |p| - 1 && IsProperAncestor(q, p)
    ensures q == p <==> p == Root
  {
    if p == [] then [] else p[..|p| - 1]
  }

  /** The directories the upward walk probes when nothing stops it early:
      `p`, then each parent in turn, stopping before the root, except that a walk
      started at the root probes the root once. It takes one step per level of `p`,
      so the walk ends after at most that many steps. */
  function Chain(p: Path): (c: seq<Path>)
    ensures |c| == (if p == Root then 1 else |p|) && c[0] == p
    decreases |p|
  {
    if |p| <= 1 then [p] else [p] + Chain(Parent(p))
  }

  /** Each entry of a sequence of paths lies strictly above every earlier entry:
      deepest first, each one an ancestor of the one before. */
  predicate Ascending(ps: seq<Path>) {
    forall i, j :: 0 <= i < j < |ps| ==> IsProperAncestor(ps[j], ps[i])
  }

  /** The i-th step of the walk probes `p` with its last i segments removed. */
  lemma {:induction false} ChainShape(p: Path)
    ensures forall i :: 0 <= i < |Chain(p)| ==> Chain(p)[i] == p[..|p| - i]
    decreases |p|
  {
    if |p| > 1 {
      ChainShape(Parent(p));
      forall i | 0 <= i < |Chain(p)|
        ensures Chain(p)[i] == p[..|p| - i]
      {
        if i > 0 {
          assert Chain(p)[i] == Chain(Parent(p))[i - 1];
        }
      }
    }
  }

  /** A directory is probed exactly when it is the start or one of its ancestors,
      the root excluded unless the walk starts there. */
  lemma ChainMembers(p: Path, d: Path)
    ensures d in Chain(p) <==> OnWalk(d, p)
  {
    ChainShape(p);
    if OnWalk(d, p) {
      var i := |p| - |d|;
      assert p[..|p| - i] == d;
      assert Chain(p)[i] == d;
    }
  }

  /** The root is never probed unless the walk starts at the root. */
  lemma RootProbedOnlyFromRoot(p: Path)
    ensures Root in Chain(p) <==> p == Root
  {
    ChainMembers(p, Root);
  }

  /** The walk moves strictly upward: deepest first, each directory an ancestor of the previous one. */
  lemma ChainAscending(p: Path)
    ensures Ascending(Chain(p))
  {
    ChainShape(p);
  }

  /** Walking up from an ancestor `a` (not the root) of `p` probes exactly the tail
      of the walk from `p` that starts at `a`. */
  lemma ChainSuffix(p: Path, a: Path)
    requires IsAncestorOrSelf(a, p) && a != Root
    ensures Chain(p)[|p| - |a|..] == Chain(a)
  {
    ChainShape(p);
    ChainShape(a);
    var s := Chain(p)[|p| - |a|..];
    assert |s| == |Chain(a)|;
    forall i | 0 <= i < |s|
      ensures s[i] == Chain(a)[i]
    {
      assert s[i] == Chain(p)[|p| - |a| + i];
      assert p[..|a| - i] == a[..|a| - i];
    }
  }
}
