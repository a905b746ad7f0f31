/** The situations of main_test.go, on one instance of its test tree. The tests
    create a fresh temporary directory (named Search-up_temp plus a random suffix,
    under the system's temporary directory) holding SubA/SubB/SubC, where SubA,
    SubB and SubC each hold temp-file.txt. Here that directory is fixed as
    /tmp/Search-up_temp. */
module Scenarios {
  import opened Results
  import opened Paths
  import opened Search
  import opened SearchFacts

  const TempFile: Name := "temp-file.txt"
  const Tmp: Path := ["tmp"]
  const Top: Path := ["tmp", "Search-up_temp"]
  const SubA: Path := Top + ["SubA"]
  const SubB: Path := SubA + ["SubB"]
  const SubC: Path := SubB + ["SubC"]

  /** Every directory of the tree can be listed. */
  function TempTree(): FileSystem {
    map[
      Root := ["tmp"],
      Tmp := ["Search-up_temp"],
      Top := ["SubA"],
      SubA := ["SubB", TempFile],
      SubB := ["SubC", TempFile],
      SubC := [TempFile]
    ]
  }

  lemma ChainFromSubC()
    ensures Chain(SubC) == [SubC, SubB, SubA, Top, Tmp]
    ensures Chain(SubB) == [SubB, SubA, Top, Tmp]
    ensures Chain(SubA) == [SubA, Top, Tmp]
  {
    assert Parent(SubC) == SubB && Parent(SubB) == SubA && Parent(SubA) == Top && Parent(Top) == Tmp;
    assert |SubC| == 5 && |SubB| == 4 && |SubA| == 3 && |Top| == 2;
    assert Chain(Tmp) == [Tmp];
    assert Chain(Top) == [Top] + Chain(Tmp);
    assert Chain(SubA) == [SubA] + Chain(Top);
    assert Chain(SubB) == [SubB] + Chain(SubA);
    assert Chain(SubC) == [SubC] + Chain(SubB);
  }

  /** The listings of the tree, directory by directory. */
  lemma TempTreeListings()
    ensures TempTree()[SubC] == [TempFile] && TempTree()[SubB] == ["SubC", TempFile]
    ensures TempTree()[SubA] == ["SubB", TempFile] && TempTree()[Top] == ["SubA"]
    ensures TempTree()[Tmp] == ["Search-up_temp"] && TempTree()[Root] == ["tmp"]
  {
  }

  /** One step of the walk without `onlyFirst`, over a listable directory. */
  lemma WalkFront(fs: FileSystem, d: Path, rest: seq<Path>, fname: Name)
    requires d in fs
    ensures Walk(fs, [d] + rest, fname, false) == Prepend(if fname in fs[d] then [d] else [], Walk(fs, rest, fname, false))
  {
    assert ([d] + rest)[1..] == rest;
  }

  /** All three matches, deepest first; starting higher gives the shorter tail. */
  lemma FindMultipleDirs()
    ensures Walk(TempTree(), Chain(SubC), TempFile, false) == Success([SubC, SubB, SubA])
    ensures Walk(TempTree(), Chain(SubB), TempFile, false) == Success([SubB, SubA])
    ensures Walk(TempTree(), Chain(SubA), TempFile, false) == Success([SubA])
  {
    var fs := TempTree();
    TempTreeListings();
    ChainFromSubC();
    WalkFront(fs, Tmp, [], TempFile);
    assert Walk(fs, [], TempFile, false) == Success([]);
    PrependNothing(Success([]));
    assert [Tmp] + [] == [Tmp] && Walk(fs, [Tmp], TempFile, false) == Success([]);
    WalkFront(fs, Top, [Tmp], TempFile);
    assert Walk(fs, [Top, Tmp], TempFile, false) == Success([]);
    WalkFront(fs, SubA, [Top, Tmp], TempFile);
    assert [SubA] + [] == [SubA];
    assert Walk(fs, [SubA, Top, Tmp], TempFile, false) == Success([SubA]);
    WalkFront(fs, SubB, [SubA, Top, Tmp], TempFile);
    assert [SubB] + [SubA] == [SubB, SubA];
    assert Walk(fs, [SubB, SubA, Top, Tmp], TempFile, false) == Success([SubB, SubA]);
    WalkFront(fs, SubC, [SubB, SubA, Top, Tmp], TempFile);
    assert [SubC] + [SubB, SubA] == [SubC, SubB, SubA];
  }

  /** With `onlyFirst`, only the start directory itself is reported. */
  lemma FindSingleDir()
    ensures Walk(TempTree(), Chain(SubC), TempFile, true) == Success([SubC])
    ensures Walk(TempTree(), Chain(SubB), TempFile, true) == Success([SubB])
    ensures Walk(TempTree(), Chain(SubA), TempFile, true) == Success([SubA])
  {
    ChainFromSubC();
  }

  /** A name held nowhere gives the empty list and no error. */
  lemma NonExistingFile()
    ensures Walk(TempTree(), Chain(SubC), "BOGUS-FILE", false) == Success([])
  {
    var fs := TempTree();
    TempTreeListings();
    ChainFromSubC();
    WalkFront(fs, Tmp, [], "BOGUS-FILE");
    assert Walk(fs, [], "BOGUS-FILE", false) == Success([]);
    PrependNothing(Success([]));
    assert [Tmp] + [] == [Tmp] && Walk(fs, [Tmp], "BOGUS-FILE", false) == Success([]);
    WalkFront(fs, Top, [Tmp], "BOGUS-FILE");
    assert Walk(fs, [Top, Tmp], "BOGUS-FILE", false) == Success([]);
    WalkFront(fs, SubA, [Top, Tmp], "BOGUS-FILE");
    assert Walk(fs, [SubA, Top, Tmp], "BOGUS-FILE", false) == Success([]);
    WalkFront(fs, SubB, [SubA, Top, Tmp], "BOGUS-FILE");
    assert Walk(fs, [SubB, SubA, Top, Tmp], "BOGUS-FILE", false) == Success([]);
    WalkFront(fs, SubC, [SubB, SubA, Top, Tmp], "BOGUS-FILE");
  }

  /** A start directory that cannot be listed gives an error naming it. */
  lemma BadPath()
    ensures Walk(TempTree(), Chain(["a", "bad", "path"]), "irrelevant-name", false)
      == Failure(CouldNotRead(["a", "bad", "path"], ReadDirError(["a", "bad", "path"])))
  {
  }

  /** A file in the root is found only by a search that starts at the root. */
  lemma RootOnlyFromRoot()
    ensures Walk(TempTree(), Chain(Tmp), "tmp", false) == Success([])
    ensures Walk(TempTree(), Chain(Root), "tmp", false) == Success([Root])
  {
    TempTreeListings();
    assert Chain(Tmp) == [Tmp] && Chain(Root) == [Root];
    WalkFront(TempTree(), Tmp, [], "tmp");
    assert Walk(TempTree(), [], "tmp", false) == Success([]);
    PrependNothing(Success([]));
    assert [Tmp] + [] == [Tmp];
    assert "tmp" !in TempTree()[Tmp];
    assert Walk(TempTree(), [], "tmp", false) == Success([]);
    assert [Root] + [] == [Root];
  }
}
