/** What the upward search returns, stated without reference to its loop. */
module SearchFacts {
  import opened Results
  import opened Paths
  import opened Search

  /** The walk over `dirs` reaches index `k` and fails there: every earlier
      directory was listed and did not end the walk, and `dirs[k]` cannot be listed. */
  predicate StopsWithError(fs: FileSystem, dirs: seq<Path>, fname: Name, onlyFirst: bool, k: int) {
    0 <= k < |dirs| && dirs[k] !in fs &&
    forall j :: 0 <= j < k ==> dirs[j] in fs && !(onlyFirst && fname in fs[dirs[j]])
  }

  /** `dirs[k]` is the first directory of `dirs` holding `fname`, and every earlier one was listed. */
  predicate NearestMatch(fs: FileSystem, dirs: seq<Path>, fname: Name, k: int) {
    0 <= k < |dirs| && Contains(fs, dirs[k], fname) &&
    forall j :: 0 <= j < k ==> dirs[j] in fs && fname !in fs[dirs[j]]
  }

  /** The first element of `s`, if any, as a list of length at most one. */
  function Take1<T>(s: seq<T>): seq<T> {
    if s == [] then [] else [s[0]]
  }

  /** Every reported directory was probed and holds an entry named `fname`. */
  lemma {:induction false} WalkSound(fs: FileSystem, dirs: seq<Path>, fname: Name, onlyFirst: bool)
    requires Walk(fs, dirs, fname, onlyFirst).Success?
    ensures forall d :: d in Walk(fs, dirs, fname, onlyFirst).value ==> d in dirs && Contains(fs, d, fname)
  {
    if dirs != [] && dirs[0] in fs && !(onlyFirst && fname in fs[dirs[0]]) {
      WalkSound(fs, dirs[1..], fname, onlyFirst);
    }
  }

  /** The walk fails exactly when it reaches a directory it cannot list, and the
      error names that directory; no partial list is returned. */
  lemma {:induction false} WalkFailure(fs: FileSystem, dirs: seq<Path>, fname: Name, onlyFirst: bool)
    ensures Walk(fs, dirs, fname, onlyFirst).Failure? <==> exists k :: StopsWithError(fs, dirs, fname, onlyFirst, k)
    ensures forall k :: StopsWithError(fs, dirs, fname, onlyFirst, k) ==>
      Walk(fs, dirs, fname, onlyFirst) == Failure(CouldNotRead(dirs[k], ReadDirError(dirs[k])))
  {
    if dirs == [] {
    } else if dirs[0] !in fs {
      assert StopsWithError(fs, dirs, fname, onlyFirst, 0);
    } else if onlyFirst && fname in fs[dirs[0]] {
    } else {
      var tail := dirs[1..];
      WalkFailure(fs, tail, fname, onlyFirst);
      forall k | StopsWithError(fs, dirs, fname, onlyFirst, k)
        ensures k > 0 && StopsWithError(fs, tail, fname, onlyFirst, k - 1)
      {
        forall j | 0 <= j < k - 1
          ensures tail[j] in fs && !(onlyFirst && fname in fs[tail[j]])
        {
          assert tail[j] == dirs[j + 1];
        }
      }
      if Walk(fs, tail, fname, onlyFirst).Failure? {
        var k :| StopsWithError(fs, tail, fname, onlyFirst, k);
        assert StopsWithError(fs, dirs, fname, onlyFirst, k + 1) by {
          forall j | 0 <= j < k + 1
            ensures dirs[j] in fs && !(onlyFirst && fname in fs[dirs[j]])
          {
            if j > 0 {
              assert dirs[j] == tail[j - 1];
            }
          }
        }
      }
    }
  }

  /** Without `onlyFirst`, the walk succeeds exactly when every directory in it can be listed. */
  lemma {:induction false} FullWalkFailsIffUnlistable(fs: FileSystem, dirs: seq<Path>, fname: Name)
    ensures Walk(fs, dirs, fname, false).Success? <==> forall d :: d in dirs ==> d in fs
  {
    if dirs != [] {
      FullWalkFailsIffUnlistable(fs, dirs[1..], fname);
      assert forall d :: d in dirs <==> d == dirs[0] || d in dirs[1..];
    }
  }

  /** Without `onlyFirst` and with every directory listable, the result holds exactly
      the directories of `dirs` that contain `fname`, in the order of `dirs`
      (deepest first when `dirs` is). */
  lemma {:induction false} FullWalk(fs: FileSystem, dirs: seq<Path>, fname: Name)
    requires forall d :: d in dirs ==> d in fs
    ensures Walk(fs, dirs, fname, false).Success?
    ensures forall d :: d in Walk(fs, dirs, fname, false).value <==> d in dirs && Contains(fs, d, fname)
    ensures Ascending(dirs) ==> Ascending(Walk(fs, dirs, fname, false).value)
  {
    if dirs != [] {
      var tail := dirs[1..];
      FullWalk(fs, tail, fname);
      var rest := Walk(fs, tail, fname, false).value;
      if Ascending(dirs) {
        assert Ascending(tail) by {
          forall i, j | 0 <= i < j < |tail|
            ensures IsProperAncestor(tail[j], tail[i])
          {
            assert tail[i] == dirs[i + 1] && tail[j] == dirs[j + 1];
          }
        }
        if fname in fs[dirs[0]] {
          var r := [dirs[0]] + rest;
          forall i, j | 0 <= i < j < |r|
            ensures IsProperAncestor(r[j], r[i])
          {
            assert r[j] == rest[j - 1] && r[j] in tail;
            var m :| 0 <= m < |tail| && tail[m] == r[j];
            assert tail[m] == dirs[m + 1];
            if i > 0 {
              assert r[i] == rest[i - 1];
            }
          }
        }
      }
    }
  }

  /** The head of a deepest-first list is strictly deeper than every other member. */
  lemma AscendingHead(a: seq<Path>, p: Path)
    requires Ascending(a) && p in a
    ensures p != a[0] ==> |p| < |a[0]|
  {
  }

  /** A non-empty list has its head as a member. */
  lemma HeadIsMember(b: seq<Path>)
    ensures b != [] ==> b[0] in b
  {
  }

  /** Two deepest-first lists of directories with the same members are equal:
      membership and order together pin a result down. */
  lemma {:induction false} AscendingDetermined(a: seq<Path>, b: seq<Path>)
    requires Ascending(a) && Ascending(b)
    requires forall p :: p in a <==> p in b
    ensures a == b
  {
    if a != [] {
      assert a[0] in a && a[0] in b;
      assert b[0] in b && b[0] in a;
      AscendingHead(a, b[0]);
      AscendingHead(b, a[0]);
      forall p
        ensures p in a[1..] <==> p in b[1..]
      {
        if p in a[1..] {
          var m :| 1 <= m < |a| && a[m] == p;
          assert p != a[0];
          assert p in b;
        }
        if p in b[1..] {
          var m :| 1 <= m < |b| && b[m] == p;
          assert p != b[0];
          assert p in a;
        }
      }
      assert Ascending(a[1..]) && Ascending(b[1..]);
      AscendingDetermined(a[1..], b[1..]);
      assert a[0] == b[0];
      assert a == [a[0]] + a[1..] && b == [b[0]] + b[1..];
    } else {
      HeadIsMember(b);
    }
  }

  /** With `onlyFirst`, a successful walk reports at most one directory. */
  lemma {:induction false} FirstWalkAtMostOne(fs: FileSystem, dirs: seq<Path>, fname: Name)
    requires Walk(fs, dirs, fname, true).Success?
    ensures |Walk(fs, dirs, fname, true).value| <= 1
  {
    if dirs != [] && dirs[0] in fs && fname !in fs[dirs[0]] {
      FirstWalkAtMostOne(fs, dirs[1..], fname);
    }
  }

  /** With `onlyFirst`, the walk reports the nearest directory holding `fname`,
      and the empty list exactly when every directory was listed and none matched. */
  lemma {:induction false} FirstWalkNearest(fs: FileSystem, dirs: seq<Path>, fname: Name)
    ensures forall k :: NearestMatch(fs, dirs, fname, k) ==> Walk(fs, dirs, fname, true) == Success([dirs[k]])
    ensures Walk(fs, dirs, fname, true) == Success([]) <==> forall d :: d in dirs ==> d in fs && fname !in fs[d]
  {
    if dirs != [] && dirs[0] in fs && fname !in fs[dirs[0]] {
      var tail := dirs[1..];
      FirstWalkNearest(fs, tail, fname);
      forall k | NearestMatch(fs, dirs, fname, k)
        ensures NearestMatch(fs, tail, fname, k - 1)
      {
        forall j | 0 <= j < k - 1
          ensures tail[j] in fs && fname !in fs[tail[j]]
        {
          assert tail[j] == dirs[j + 1];
        }
      }
      assert forall d :: d in dirs <==> d == dirs[0] || d in tail;
      assert Walk(fs, dirs, fname, true) == Walk(fs, tail, fname, true) by {
        match Walk(fs, tail, fname, true)
        case Success(s) => assert [] + s == s;
        case Failure(_) =>
      }
    } else if dirs != [] {
      assert dirs[0] in dirs;
    }
  }

  /** With `onlyFirst`, a reported directory is the nearest match. */
  lemma {:induction false} FirstWalkReportsNearest(fs: FileSystem, dirs: seq<Path>, fname: Name, d: Path)
    requires Walk(fs, dirs, fname, true) == Success([d])
    ensures exists k :: NearestMatch(fs, dirs, fname, k) && dirs[k] == d
  {
    if Contains(fs, dirs[0], fname) {
      assert NearestMatch(fs, dirs, fname, 0);
    } else {
      var tail := dirs[1..];
      assert Walk(fs, tail, fname, true) == Success([d]) by {
        match Walk(fs, tail, fname, true)
        case Success(s) => assert [] + s == s;
        case Failure(_) =>
      }
      FirstWalkReportsNearest(fs, tail, fname, d);
      var k :| NearestMatch(fs, tail, fname, k) && tail[k] == d;
      assert NearestMatch(fs, dirs, fname, k + 1) by {
        forall j | 0 <= j < k + 1
          ensures dirs[j] in fs && fname !in fs[dirs[j]]
        {
          if j > 0 {
            assert dirs[j] == tail[j - 1];
          }
        }
      }
    }
  }

  /** With `onlyFirst`, the result is the full result cut to its first element. */
  lemma {:induction false} FirstIsFullTruncated(fs: FileSystem, dirs: seq<Path>, fname: Name)
    requires Walk(fs, dirs, fname, false).Success?
    ensures Walk(fs, dirs, fname, true) == Success(Take1(Walk(fs, dirs, fname, false).value))
  {
    if dirs != [] && fname !in fs[dirs[0]] {
      FirstIsFullTruncated(fs, dirs[1..], fname);
      assert [] + Walk(fs, dirs[1..], fname, false).value == Walk(fs, dirs[1..], fname, false).value;
      assert [] + Walk(fs, dirs[1..], fname, true).value == Walk(fs, dirs[1..], fname, true).value;
    }
  }

  /** Without `onlyFirst`, walking `a` then `b` reports the matches of `a` followed
      by those of `b`; a failure in `a` ends the walk. */
  lemma {:induction false} WalkConcat(fs: FileSystem, a: seq<Path>, b: seq<Path>, fname: Name)
    ensures Walk(fs, a + b, fname, false) ==
      match Walk(fs, a, fname, false)
      case Failure(e) => Failure(e)
      case Success(r) => Prepend(r, Walk(fs, b, fname, false))
  {
    if a == [] {
      assert a + b == b;
      match Walk(fs, b, fname, false)
      case Success(s) => assert [] + s == s;
      case Failure(_) =>
    } else {
      assert (a + b)[0] == a[0] && (a + b)[1..] == a[1..] + b;
      WalkConcat(fs, a[1..], b, fname);
      if a[0] in fs {
        var here := if fname in fs[a[0]] then [a[0]] else [];
        match Walk(fs, a[1..], fname, false)
        case Failure(_) =>
        case Success(r) =>
          match Walk(fs, b, fname, false)
          case Failure(_) =>
          case Success(s) => assert here + (r + s) == (here + r) + s;
      }
    }
  }

  /** The walk depends on no directory outside `dirs`: two file systems that agree
      on every directory of `dirs` give the same outcome. */
  lemma {:induction false} WalkFrame(fs: FileSystem, other: FileSystem, dirs: seq<Path>, fname: Name, onlyFirst: bool)
    requires forall d :: d in dirs ==> (d in fs <==> d in other) && (d in fs ==> fs[d] == other[d])
    ensures Walk(fs, dirs, fname, onlyFirst) == Walk(other, dirs, fname, onlyFirst)
  {
    if dirs != [] {
      assert dirs[0] in dirs;
      assert forall d :: d in dirs[1..] ==> d in dirs;
      WalkFrame(fs, other, dirs[1..], fname, onlyFirst);
    }
  }

  // ---- searchUp from a start directory ----

  /** Without `onlyFirst`: `searchUp` fails exactly when some directory on the walk
      cannot be listed; otherwise it returns, deepest first, exactly the directories
      on the walk (the start and its ancestors, the root only when it is the start)
      that contain `fname` — the empty list when there are none. */
  lemma SearchUpAll(fs: FileSystem, start: Path, fname: Name)
    ensures Walk(fs, Chain(start), fname, false).Success? <==> forall d :: OnWalk(d, start) ==> d in fs
    ensures Walk(fs, Chain(start), fname, false).Success? ==>
      (forall d :: d in Walk(fs, Chain(start), fname, false).value <==> OnWalk(d, start) && Contains(fs, d, fname)) &&
      Ascending(Walk(fs, Chain(start), fname, false).value)
  {
    var dirs := Chain(start);
    forall d
      ensures d in dirs <==> OnWalk(d, start)
    {
      ChainMembers(start, d);
    }
    FullWalkFailsIffUnlistable(fs, dirs, fname);
    if Walk(fs, dirs, fname, false).Success? {
      ChainAscending(start);
      FullWalk(fs, dirs, fname);
    }
  }

  /** Without `onlyFirst`, when every directory on the walk can be listed, `searchUp`
      returns exactly `expected` for any deepest-first list `expected` whose members
      are the directories on the walk that contain `fname`. */
  lemma SearchUpAllExactly(fs: FileSystem, start: Path, fname: Name, expected: seq<Path>)
    requires forall d :: OnWalk(d, start) ==> d in fs
    requires Ascending(expected)
    requires forall d :: d in expected <==> OnWalk(d, start) && Contains(fs, d, fname)
    ensures Walk(fs, Chain(start), fname, false) == Success(expected)
  {
    SearchUpAll(fs, start, fname);
    AscendingDetermined(Walk(fs, Chain(start), fname, false).value, expected);
  }

  /** With `onlyFirst`: a successful `searchUp` reports at most one directory. */
  lemma SearchUpFirstAtMostOne(fs: FileSystem, start: Path, fname: Name)
    requires Walk(fs, Chain(start), fname, true).Success?
    ensures |Walk(fs, Chain(start), fname, true).value| <= 1
  {
    FirstWalkAtMostOne(fs, Chain(start), fname);
  }

  /** With `onlyFirst`: when `searchUp` reports `d`, `d` is on the walk and holds
      `fname`, and every directory the walk visits below `d` was listed and does
      not hold `fname`. */
  lemma SearchUpFirstNearest(fs: FileSystem, start: Path, fname: Name, d: Path)
    requires Walk(fs, Chain(start), fname, true) == Success([d])
    ensures OnWalk(d, start) && Contains(fs, d, fname)
    ensures forall e :: OnWalk(e, start) && IsProperAncestor(d, e) ==> e in fs && fname !in fs[e]
  {
    var dirs := Chain(start);
    FirstWalkReportsNearest(fs, dirs, fname, d);
    var k :| NearestMatch(fs, dirs, fname, k) && dirs[k] == d;
    ChainShape(start);
    ChainMembers(start, d);
    forall e | OnWalk(e, start) && IsProperAncestor(d, e)
      ensures e in fs && fname !in fs[e]
    {
      ChainMembers(start, e);
      var m :| 0 <= m < |dirs| && dirs[m] == e;
      assert |e| == |start| - m && |d| == |start| - k;
    }
  }

  /** Without `onlyFirst`: starting higher up, at an ancestor `a` (not the root) of the
      start, gives a suffix of the result from the start; starting lower down only adds
      directories in front. */
  lemma SearchUpFromAncestor(fs: FileSystem, start: Path, a: Path, fname: Name)
    requires IsAncestorOrSelf(a, start) && a != Root
    requires Walk(fs, Chain(start), fname, false).Success?
    ensures Walk(fs, Chain(a), fname, false).Success?
    ensures var r := Walk(fs, Chain(start), fname, false).value;
            var s := Walk(fs, Chain(a), fname, false).value;
            |s| <= |r| && s == r[|r| - |s|..]
  {
    var dirs := Chain(start);
    var cut := |start| - |a|;
    ChainSuffix(start, a);
    var below := dirs[..cut];
    assert dirs == below + Chain(a);
    WalkConcat(fs, below, Chain(a), fname);
    var front := Walk(fs, below, fname, false);
    assert front.Success?;
    var tail := Walk(fs, Chain(a), fname, false);
    assert tail.Success?;
    var r := Walk(fs, dirs, fname, false).value;
    assert r == front.value + tail.value;
    assert tail.value == r[|r| - |tail.value|..];
  }

  /** The root is never probed unless the walk starts there: whatever the root's
      listing is, and whether it can be listed at all, the outcome is the same. */
  lemma SearchUpIgnoresRoot(fs: FileSystem, start: Path, fname: Name, onlyFirst: bool, rootEntries: seq<Name>)
    requires start != Root
    ensures Walk(fs[Root := rootEntries], Chain(start), fname, onlyFirst) == Walk(fs - {Root}, Chain(start), fname, onlyFirst)
  {
    RootProbedOnlyFromRoot(start);
    WalkFrame(fs[Root := rootEntries], fs - {Root}, Chain(start), fname, onlyFirst);
  }

  /** With `onlyFirst` the outcome of `searchUp` is the full outcome cut to its first element. */
  lemma SearchUpFirstIsTruncated(fs: FileSystem, start: Path, fname: Name)
    requires Walk(fs, Chain(start), fname, false).Success?
    ensures Walk(fs, Chain(start), fname, true) == Success(Take1(Walk(fs, Chain(start), fname, false).value))
  {
    FirstIsFullTruncated(fs, Chain(start), fname);
  }
}
