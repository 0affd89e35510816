/**
  The cache tree scenarios of the index's tests: an empty index, a single
  sub-directory between two files that sort on either side of it, a
  sub-directory with a nested one, and long component names. Each is
  stated once on the tree value and once by driving the index objects the
  way the test does.
 */
module TreeTests {
  import opened Wrappers
  import opened Paths
  import opened CacheTree
  import opened TreeNodes
  import opened Index

  const DASH: byte := 0x2D
  const ZERO: byte := 0x30

  /** "a-", "a/b", "a/c", "a/d", "a0b". */
  const SingleSubtreePaths: seq<Path> :=
    [[0x61, 0x2D], [0x61, 0x2F, 0x62], [0x61, 0x2F, 0x63], [0x61, 0x2F, 0x64], [0x61, 0x30, 0x62]]

  /** "a-", "a/b", "a/c/e", "a/c/f", "a/d", "a0b". */
  const TwoLevelPaths: seq<Path> :=
    [[0x61, 0x2D], [0x61, 0x2F, 0x62], [0x61, 0x2F, 0x63, 0x2F, 0x65],
     [0x61, 0x2F, 0x63, 0x2F, 0x66], [0x61, 0x2F, 0x64], [0x61, 0x30, 0x62]]

  /** The empty index has a root with no children that spans nothing. */
  lemma EmptyTree()
    ensures BuildRoot([]) == Tree([], [], [], 0, false)
  {
  }

  /** "a-" and "a0b" sort on either side of the "a/" run and stay files of
      the root; "a/b", "a/c", "a/d" make up the one child "a". */
  lemma SingleSubtreeTree()
    ensures BuildRoot(SingleSubtreePaths) ==
            Tree([], [], [Tree([0x61], DirA, [], 3, false)], 5, false)
  {
    var es := SingleSubtreePaths;
    SingleSubtreeRootFrom1(es);
    assert FirstSlash(es[0], 0) == None;
    ScanSkipsLeaf(es, 0, []);
  }

  /** The root from "a/b" on: the child "a", then the file "a0b". */
  lemma SingleSubtreeRootFrom1(es: seq<Path>)
    requires es == SingleSubtreePaths
    ensures Scan(es, 1, []) == Scanned([Tree([0x61], DirA, [], 3, false)], 5)
  {
    SingleSubtreeRunOfA(es);
    assert FirstSlash(es[4], 0) == None;
    ScanStops(es, 5, []);
    ScanSkipsLeaf(es, 4, []);
    FirstSlashAt(es[1], 0, 1);
    ScanOpens(es, 1, [], 1);
    assert es[1][..2] == DirA && es[1][0..1] == [0x61];
  }

  /** Inside "a/": the files "a/b", "a/c", "a/d"; "a0b" ends the run. */
  lemma SingleSubtreeRunOfA(es: seq<Path>)
    requires es == SingleSubtreePaths
    ensures Scan(es, 1, DirA) == Scanned([], 4)
  {
    assert FirstSlash(es[1], 2) == None && FirstSlash(es[2], 2) == None && FirstSlash(es[3], 2) == None;
    assert es[4][1] != DirA[1];
    ScanStops(es, 4, DirA);
    ScanSkipsLeaf(es, 3, DirA);
    ScanSkipsLeaf(es, 2, DirA);
    ScanSkipsLeaf(es, 1, DirA);
  }

  /** "a/", and "a/c/". */
  const DirA: Path := [0x61, 0x2F]
  const DirAC: Path := [0x61, 0x2F, 0x63, 0x2F]

  /** The nodes the two-level scenario expects. */
  const NodeC: Tree := Tree([0x63], DirAC, [], 2, false)
  const NodeA: Tree := Tree([0x61], DirA, [NodeC], 4, false)

  /** "a/c/e" and "a/c/f" make up "c" inside "a". */
  lemma TwoLevelTree()
    ensures BuildRoot(TwoLevelPaths) == Tree([], [], [NodeA], 6, false)
  {
    TwoLevelRootFrom1(TwoLevelPaths);
    assert FirstSlash(TwoLevelPaths[0], 0) == None;
    ScanSkipsLeaf(TwoLevelPaths, 0, []);
  }

  /** The root from "a/b" on: the child "a", then the file "a0b". */
  lemma TwoLevelRootFrom1(es: seq<Path>)
    requires es == TwoLevelPaths
    ensures Scan(es, 1, []) == Scanned([NodeA], 6)
  {
    TwoLevelRootFrom5(es);
    TwoLevelOpensA(es);
    FirstSlashAt(es[1], 0, 1);
    ScanOpens(es, 1, [], 1);
  }

  /** "a/b" opens the child "a". */
  lemma TwoLevelOpensA(es: seq<Path>)
    requires es == TwoLevelPaths
    ensures es[1][..2] == DirA && OpenedChild(es, 1, [], 1) == NodeA
  {
    TwoLevelRunOfA();
    assert es[1][..2] == DirA && es[1][0..1] == [0x61];
  }

  /** "a0b" is a file of the root, and the last entry. */
  lemma TwoLevelRootFrom5(es: seq<Path>)
    requires es == TwoLevelPaths
    ensures Scan(es, 5, []) == Scanned([], 6)
  {
    assert FirstSlash(es[5], 0) == None;
    ScanStops(es, 6, []);
    ScanSkipsLeaf(es, 5, []);
  }

  /** Inside "a/": the file "a/b", the child "c", the file "a/d"; "a0b"
      ends the run. */
  lemma TwoLevelRunOfA()
    ensures Scan(TwoLevelPaths, 1, DirA) == Scanned([NodeC], 5)
  {
    var es := TwoLevelPaths;
    TwoLevelRunOfAC();
    assert FirstSlash(es[1], 2) == None && FirstSlash(es[4], 2) == None;
    FirstSlashAt(es[2], 2, 3);
    assert es[5][1] != DirA[1];
    ScanStops(es, 5, DirA);
    ScanSkipsLeaf(es, 4, DirA);
    assert Scan(es, 4, DirA) == Scanned([], 5);
    ScanOpens(es, 2, DirA, 3);
    assert es[2][..4] == DirAC && es[2][2..3] == [0x63];
    assert OpenedChild(es, 2, DirA, 3) == NodeC;
    ScanSkipsLeaf(es, 1, DirA);
  }

  /** Inside "a/c/": the files "a/c/e" and "a/c/f"; "a/d" ends the run. */
  lemma TwoLevelRunOfAC()
    ensures Scan(TwoLevelPaths, 2, DirAC) == Scanned([], 4)
  {
    var es := TwoLevelPaths;
    assert FirstSlash(es[2], 4) == None && FirstSlash(es[3], 4) == None;
    assert es[4][2] != DirAC[2];
    ScanStops(es, 4, DirAC);
    ScanSkipsLeaf(es, 3, DirAC);
    ScanSkipsLeaf(es, 2, DirAC);
  }

  // ---------------------------------------------------------------------
  // Long component names

  /** A path component as the index accepts it: non-empty, no '/', no NUL. */
  predicate Component(n: Path)
  {
    ValidName(n) && forall k | 0 <= k < |n| :: n[k] != 0
  }

  /** `A + "-"`, `A + "-" + B`, `A + "/" + B`, `A + "0" + B`. */
  function LongNamePaths(A: Path, B: Path): seq<Path>
  {
    [A + [DASH], A + [DASH] + B, A + [SLASH] + B, A + [ZERO] + B]
  }

  /** The names the test uses: "a" right-aligned in 2000 columns after an
      "a", and the same with "b". */
  const LongA: Path := [0x61] + seq(1999, k => 0x20) + [0x61]
  const LongB: Path := [0x62] + seq(1999, k => 0x20) + [0x62]

  lemma LongNamesAreComponents()
    ensures Component(LongA) && Component(LongB)
  {
    assert forall k | 1 <= k < 2000 :: LongA[k] == 0x20 && LongB[k] == 0x20;
  }

  /** However long the names, only `A + "/" + B` lies in a sub-directory:
      the root has the one child `A`, spanning that single entry. */
  lemma LongNamesTree(A: Path, B: Path)
    requires Component(A) && Component(B)
    ensures BuildRoot(LongNamePaths(A, B)) == Tree([], [], [Tree(A, A + [SLASH], [], 1, false)], 4, false)
  {
    var es := LongNamePaths(A, B);
    LongNamesRootFrom2(A, B);
    NoSlashNone(es[0], 0);
    NoSlashNone(es[1], 0);
    ScanSkipsLeaf(es, 1, []);
    ScanSkipsLeaf(es, 0, []);
  }

  lemma LongNamesRootFrom2(A: Path, B: Path)
    requires Component(A) && Component(B)
    ensures Scan(LongNamePaths(A, B), 2, []) == Scanned([Tree(A, A + [SLASH], [], 1, false)], 4)
  {
    var es := LongNamePaths(A, B);
    LongNamesOpensA(A, B);
    NoSlashNone(es[3], 0);
    ScanStops(es, 4, []);
    ScanSkipsLeaf(es, 3, []);
    ScanOpens(es, 2, [], |A|);
  }

  /** `A + "/" + B` opens the child `A`, whose run is that entry alone. */
  lemma LongNamesOpensA(A: Path, B: Path)
    requires Component(A) && Component(B)
    ensures var es := LongNamePaths(A, B);
            FirstSlash(es[2], 0) == Some(|A|) &&
            OpenedChild(es, 2, [], |A|) == Tree(A, A + [SLASH], [], 1, false)
  {
    var es := LongNamePaths(A, B);
    var sub := A + [SLASH];
    assert es[2] == sub + B;
    FirstSlashAt(es[2], 0, |A|);
    assert es[2][..|A| + 1] == sub && es[2][0..|A|] == A;
    forall k | |A| + 1 <= k < |es[2]|
      ensures es[2][k] != SLASH
    {
      assert es[2][k] == B[k - |A| - 1];
    }
    assert FirstSlash(es[2], |A| + 1) == None;
    assert es[3][|A|] != sub[|A|];
    ScanStops(es, 3, sub);
    ScanSkipsLeaf(es, 2, sub);
  }

  lemma NoSlashNone(s: Path, from: nat)
    requires forall k | 0 <= k < |s| :: s[k] != SLASH
    ensures FirstSlash(s, from) == None
  {
  }

  /** The four paths are in index order and well-formed, so the builder
      keeps them as they are. */
  lemma LongNamesWellFormed(A: Path, B: Path)
    requires Component(A) && Component(B)
    ensures StrictlySorted(LongNamePaths(A, B)) && AllValid(LongNamePaths(A, B))
  {
    var es := LongNamePaths(A, B);
    LexLessProperPrefix(A + [DASH], B);
    assert A + [DASH] + B == A + ([DASH] + B) && A + [SLASH] + B == A + ([SLASH] + B);
    assert A + [ZERO] + B == A + ([ZERO] + B);
    LexLessExtend(A, [DASH] + B, [SLASH] + B);
    LexLessExtend(A, [SLASH] + B, [ZERO] + B);
    SortedFour(es[0], es[1], es[2], es[3]);
    assert es == [es[0], es[1], es[2], es[3]];
    ComponentsValid(A, [DASH]);
    ComponentsValid(A, [DASH] + B);
    ComponentsValid(A, [ZERO] + B);
    JoinedValid(A, B);
    AllValidFromEach(es);
  }

  lemma SortedFour(a: Path, b: Path, c: Path, d: Path)
    requires LexLess(a, b) && LexLess(b, c) && LexLess(c, d)
    ensures StrictlySorted([a, b, c, d])
  {
    assert [c, d][1..] == [d];
    assert StrictlySorted([c, d]);
    assert [b, c, d][1..] == [c, d];
    assert StrictlySorted([b, c, d]);
    assert [a, b, c, d][1..] == [b, c, d];
  }

  /** A component followed by bytes with no '/' and no NUL is a valid path. */
  lemma ComponentsValid(A: Path, tail: Path)
    requires Component(A) && forall k | 0 <= k < |tail| :: tail[k] != SLASH && tail[k] != 0
    ensures ValidPath(A + tail)
  {
    var p := A + tail;
    forall k | 0 <= k < |p|
      ensures p[k] != SLASH && p[k] != 0
    {
      if k < |A| {
        assert p[k] == A[k];
      } else {
        assert p[k] == tail[k - |A|];
      }
    }
    ValidPathMeans(p);
  }

  /** `A + "/" + B` is a valid path. */
  lemma JoinedValid(A: Path, B: Path)
    requires Component(A) && Component(B)
    ensures ValidPath(A + [SLASH] + B)
  {
    var p := A + [SLASH] + B;
    forall k | 0 <= k < |p|
      ensures p[k] != 0 && (p[k] == SLASH <==> k == |A|)
    {
      if k < |A| {
        assert p[k] == A[k];
      } else if k > |A| {
        assert p[k] == B[k - |A| - 1];
      }
    }
    ValidPathMeans(p);
  }

  // ---------------------------------------------------------------------
  // The tests, driven through the index objects

  /** What the tests read off a node. */
  datatype Data = Data(name: Path, path: Path, childCount: nat, entrySpan: nat, valid: bool)

  /** Read a node's name, path, child count, span and valid flag. */
  method ReadData(t: DirCacheTree) returns (d: Data)
    requires t.Valid()
    ensures d == Data(t.Shape.name, t.Shape.path, |t.Shape.children|, t.Shape.span, t.Shape.valid)
  {
    var name := t.GetNameString();
    var path := t.GetPathString();
    var count := t.GetChildCount();
    var span := t.GetEntrySpan();
    var valid := t.IsValid();
    d := Data(name, path, count, span, valid);
  }

  /** One entry per path, in the given order; `None` when a path is one no
      entry may have. */
  method CreateDirCacheEntries(paths: seq<Path>) returns (r: Option<array<Path>>)
    ensures r.Some? <==> forall k | 0 <= k < |paths| :: ValidPath(paths[k])
    ensures r.Some? ==> fresh(r.value) && r.value[..] == paths
  {
    var ents := new Path[|paths|];
    var i := 0;
    while i < |paths|
      invariant 0 <= i <= |paths|
      invariant ents[..i] == paths[..i]
      invariant forall k | 0 <= k < i :: ValidPath(paths[k])
    {
      var ok := IsValidPath(paths[i]);
      if !ok {
        return None;
      }
      ents[i] := paths[i];
      i := i + 1;
    }
    assert ents[..] == ents[..i];
    return Some(ents);
  }

  /** Queue every entry of `ents` on the builder, in order. */
  method AddAll(b: DirCacheBuilder, ents: array<Path>)
    requires b.Valid() && forall k | 0 <= k < ents.Length :: ValidPath(ents[k])
    modifies b
    ensures b.Valid() && b.pending == old(b.pending) + ents[..]
  {
    for i := 0 to ents.Length
      invariant b.Valid() && b.pending == old(b.pending) + ents[..i]
    {
      b.Add(ents[i]);
      assert ents[..i + 1] == ents[..i] + [ents[i]];
    }
    assert ents[..] == ents[..ents.Length];
  }

  /** A fresh index whose entries are `paths`, put in through a builder;
      `paths` must already be in index order. */
  method IndexOf(paths: seq<Path>) returns (dc: DirCache)
    requires StrictlySorted(paths) && AllValid(paths)
    ensures dc.Valid() && fresh(dc.Repr) && dc.entries == paths && dc.tree == null
  {
    dc := new DirCache();
    forall k | 0 <= k < |paths|
      ensures ValidPath(paths[k])
    {
      AllValidAt(paths, k);
    }
    var ents := CreateDirCacheEntries(paths);
    var b := new DirCacheBuilder(dc);
    AddAll(b, ents.value);
    SortedNoDuplicates(paths);
    var r := b.Finish();
    SortedUnique(dc.entries, paths);
  }

  /** The index of the single sub-directory scenario, no tree built yet. */
  method SingleSubtreeIndex() returns (dc: DirCache)
    ensures dc.Valid() && fresh(dc.Repr) && dc.tree == null && |dc.entries| == 5
    ensures BuildRoot(dc.entries) == Tree([], [], [Tree([0x61], DirA, [], 3, false)], 5, false)
  {
    SingleSubtreeWellFormed();
    dc := IndexOf(SingleSubtreePaths);
    SingleSubtreeTree();
  }

  /** The index of the two-level scenario, no tree built yet. */
  method TwoLevelIndex() returns (dc: DirCache)
    ensures dc.Valid() && fresh(dc.Repr) && dc.tree == null && |dc.entries| == 6
    ensures BuildRoot(dc.entries) == Tree([], [], [NodeA], 6, false)
  {
    TwoLevelWellFormed();
    dc := IndexOf(TwoLevelPaths);
    TwoLevelTree();
  }

  method EmptyCacheNoCacheTree() returns (t: DirCacheTree?)
    ensures t == null
  {
    var dc := new DirCache();
    t := dc.GetCacheTree(false);
  }

  /** Building on an empty index gives an empty root, and later calls with
      or without `build` return that same root. */
  method EmptyCacheCreateEmptyCacheTree() returns (built: bool, sameWithout: bool, sameWith: bool, d: Data)
    ensures built && sameWithout && sameWith
    ensures d == Data([], [], 0, 0, false)
  {
    var dc := new DirCache();
    var tree := dc.GetCacheTree(true);
    var again := dc.GetCacheTree(true);
    built := tree != null && again != null;
    var without := dc.GetCacheTree(false);
    var with := dc.GetCacheTree(true);
    sameWithout := tree != null && without == tree;
    sameWith := tree != null && with == tree;
    EmptyTree();
    d := ReadData(tree);
  }

  /** Clearing drops the root: none without `build`, a new one with it. */
  method EmptyCacheClearNoCacheTree() returns (built: bool, afterClear: DirCacheTree?, rebuiltIsNew: bool)
    ensures built && afterClear == null && rebuiltIsNew
  {
    var dc := new DirCache();
    var tree := dc.GetCacheTree(true);
    built := tree != null;
    dc.Clear();
    afterClear := dc.GetCacheTree(false);
    var rebuilt := dc.GetCacheTree(true);
    rebuiltIsNew := tree != null && rebuilt != null && rebuilt != tree;
  }

  method SingleSubtree() returns (noTreeBefore: bool, sameRoot: bool, entryCount: nat, root: Data,
                                  sameChild: bool, a: Data)
    ensures noTreeBefore && sameRoot && sameChild
    ensures entryCount == 5 && root == Data([], [], 1, entryCount, false)
    ensures a == Data([0x61], DirA, 0, 3, false)
  {
    var dc := SingleSubtreeIndex();
    var t := dc.GetCacheTree(false);
    noTreeBefore := t == null;
    var rootTree := dc.GetCacheTree(true);
    var again := dc.GetCacheTree(true);
    sameRoot := again == rootTree;
    entryCount := dc.GetEntryCount();
    root := ReadData(rootTree);
    var aTree := rootTree.GetChild(0);
    var aAgain := rootTree.GetChild(0);
    sameChild := aAgain == aTree;
    a := ReadData(aTree);
  }

  method TwoLevelSubtree() returns (noTreeBefore: bool, sameRoot: bool, entryCount: nat, root: Data,
                                    sameA: bool, a: Data, sameC: bool, c: Data)
    ensures noTreeBefore && sameRoot && sameA && sameC
    ensures entryCount == 6 && root == Data([], [], 1, entryCount, false)
    ensures a == Data([0x61], [0x61, 0x2F], 1, 4, false)
    ensures c == Data([0x63], [0x61, 0x2F, 0x63, 0x2F], 0, 2, false)
  {
    var dc := TwoLevelIndex();
    var t := dc.GetCacheTree(false);
    noTreeBefore := t == null;
    var rootTree := dc.GetCacheTree(true);
    var again := dc.GetCacheTree(true);
    sameRoot := again == rootTree;
    entryCount := dc.GetEntryCount();
    root := ReadData(rootTree);
    var aTree := rootTree.GetChild(0);
    var aAgain := rootTree.GetChild(0);
    sameA := aAgain == aTree;
    a := ReadData(aTree);
    var cTree := aTree.GetChild(0);
    var cAgain := aTree.GetChild(0);
    sameC := cAgain == cTree;
    c := ReadData(cTree);
  }

  /** Four entries whose long names differ only after `A`: one child. */
  method WriteReadTree(A: Path, B: Path) returns (entryCount: nat, childCount: nat)
    requires Component(A) && Component(B)
    ensures entryCount == 4 && childCount == 1
  {
    LongNamesWellFormed(A, B);
    var dc := IndexOf(LongNamePaths(A, B));
    entryCount := dc.GetEntryCount();
    var tree := dc.GetCacheTree(true);
    LongNamesTree(A, B);
    childCount := tree.GetChildCount();
  }

  /** The same, with the 2001-byte names the test builds. */
  method WriteReadTreeWithTestNames() returns (entryCount: nat, childCount: nat)
    ensures entryCount == 4 && childCount == 1
  {
    LongNamesAreComponents();
    entryCount, childCount := WriteReadTree(LongA, LongB);
  }

  lemma SingleSubtreeWellFormed()
    ensures StrictlySorted(SingleSubtreePaths) && AllValid(SingleSubtreePaths)
  {
  }

  lemma TwoLevelWellFormed()
    ensures StrictlySorted(TwoLevelPaths) && AllValid(TwoLevelPaths)
  {
  }
}
