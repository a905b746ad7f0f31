/** The upward search of main.go: `searchDirForFile` probes one directory,
    `searchUp` walks from a start directory towards the root collecting matches. */
module Search {
  import opened Results
  import opened Paths

  /** A directory entry name, compared byte for byte. */
  type Name = string

  /** What `os.ReadDir` sees: the entry names of every directory it can list.
      A path that is not a key cannot be listed (it is missing, is not a
      directory, or may not be read). */
  type FileSystem = map<Path, seq<Name>>

  /** The error `os.ReadDir` returns for a directory it cannot list. */
  datatype ReadDirError = ReadDirError(dir: Path)

  /** The error `searchUp` returns: the path it failed on, together with the listing
      error whose text it quotes. */
  datatype SearchError = CouldNotRead(path: Path, cause: ReadDirError)

  /** `dir` can be listed and has an entry named `name`. */
  predicate Contains(fs: FileSystem, dir: Path, name: Name) {
    dir in fs && name in fs[dir]
  }

  /** `found` in front of the list of a successful walk; an error passes through unchanged. */
  function Prepend(found: seq<Path>, r: Result<seq<Path>, SearchError>): Result<seq<Path>, SearchError> {
    match r
    case Success(rest) => Success(found + rest)
    case Failure(e) => Failure(e)
  }

  /** What the loop of `searchUp` returns when it probes `dirs` in order:
      the first unlistable directory aborts with an error and no list; each
      directory holding `fname` is appended; with `onlyFirst` the first match ends the walk. */
  function Walk(fs: FileSystem, dirs: seq<Path>, fname: Name, onlyFirst: bool): (r: Result<seq<Path>, SearchError>)
    ensures r.Success? ==> |r.value| <= |dirs|
  {
    if dirs == [] then Success([])
    else if dirs[0] !in fs then Failure(CouldNotRead(dirs[0], ReadDirError(dirs[0])))
    else if onlyFirst && fname in fs[dirs[0]] then Success([dirs[0]])
    else Prepend(if fname in fs[dirs[0]] then [dirs[0]] else [], Walk(fs, dirs[1..], fname, onlyFirst))
  }

  /** `searchDirForFile`: list `dir` and scan its entries for one named exactly `file`.
      A listing failure is passed through; an empty listing gives false. */
  method SearchDirForFile(fs: FileSystem, dir: Path, file: Name) returns (r: Result<bool, ReadDirError>)
    ensures dir !in fs ==> r == Failure(ReadDirError(dir))
    ensures dir in fs ==> r == Success(exists k :: 0 <= k < |fs[dir]| && fs[dir][k] == file)
  {
    if dir !in fs {
      return Failure(ReadDirError(dir));
    }
    var dirEntries := fs[dir];
    for i := 0 to |dirEntries|
      invariant forall k :: 0 <= k < i ==> dirEntries[k] != file
    {
      if dirEntries[i] == file {
        return Success(true);
      }
    }
    return Success(false);
  }

  /** The walk from `here` probes `here` first, then continues with the walk
      from its parent, unless that parent is the root. */
  lemma WalkStep(fs: FileSystem, here: Path, fname: Name, onlyFirst: bool)
    ensures Walk(fs, Chain(here), fname, onlyFirst) ==
      if here !in fs then Failure(CouldNotRead(here, ReadDirError(here)))
      else if onlyFirst && fname in fs[here] then Success([here])
      else Prepend(if fname in fs[here] then [here] else [],
                   Walk(fs, if Parent(here) == Root then [] else Chain(Parent(here)), fname, onlyFirst))
  {
    assert Chain(here)[1..] == if Parent(here) == Root then [] else Chain(Parent(here));
  }

  /** Putting `a` and then `b` in front of an outcome is putting `a + b` in front. */
  lemma PrependTwice(a: seq<Path>, b: seq<Path>, r: Result<seq<Path>, SearchError>)
    ensures Prepend(a, Prepend(b, r)) == Prepend(a + b, r)
  {
    if r.Success? {
      assert a + (b + r.value) == (a + b) + r.value;
    }
  }

  /** Putting nothing in front of an outcome leaves it unchanged. */
  lemma PrependNothing(r: Result<seq<Path>, SearchError>)
    ensures Prepend([], r) == r
  {
    if r.Success? {
      assert [] + r.value == r.value;
    }
  }

  /** Putting `a` in front of an empty successful outcome gives `a`. */
  lemma PrependToNothing(a: seq<Path>)
    ensures Prepend(a, Success([])) == Success(a)
  {
    assert a + [] == a;
  }

  /** `searchUp`: probe `start`, then each parent in turn, until the parent is the
      root (which is then not probed) or, with `onlyFirst`, until the first match.
      The outcome is that of `Walk` over `Chain(start)`; the lemmas of module
      SearchFacts say what that outcome is. */
  method SearchUp(fs: FileSystem, start: Path, fname: Name, onlyFirst: bool) returns (r: Result<seq<Path>, SearchError>)
    ensures r == Walk(fs, Chain(start), fname, onlyFirst)
  {
    var path := start;
    var foundPaths: seq<Path> := [];
    PrependNothing(Walk(fs, Chain(start), fname, onlyFirst));
    while true
      invariant Walk(fs, Chain(start), fname, onlyFirst) == Prepend(foundPaths, Walk(fs, Chain(path), fname, onlyFirst))
      decreases |path|
    {
      WalkStep(fs, path, fname, onlyFirst);
      var found := SearchDirForFile(fs, path, fname);
      if found.Failure? {
        return Failure(CouldNotRead(path, found.error));
      }
      assert found.value == (fname in fs[path]);
      ghost var before := foundPaths;
      ghost var rest := if Parent(path) == Root then [] else Chain(Parent(path));
      if found.value {
        foundPaths := foundPaths + [path];
        if onlyFirst {
          PrependToNothing(foundPaths);
          PrependTwice(before, [path], Success([]));
          break;
        }
      }
      PrependTwice(before, if found.value then [path] else [], Walk(fs, rest, fname, onlyFirst));
      assert before + (if found.value then [path] else []) == foundPaths;
      path := Parent(path);
      if path == Root {
        PrependToNothing(foundPaths);
        break;
      }
    }
    return Success(foundPaths);
  }
}
