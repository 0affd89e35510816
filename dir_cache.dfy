/**
  The index: its sorted entry list, the cache tree it builds over that
  list on demand, and the builder that replaces the list wholesale.
 */
module Index {
  import opened Wrappers
  import opened Paths
  import opened CacheTree
  import opened TreeNodes

  /** No path occurs twice. */
  predicate NoDuplicates(ps: seq<Path>)
  {
    forall a, b | 0 <= a < b < |ps| :: ps[a] != ps[b]
  }

  /** A list in index order has no duplicates, so finishing a builder
      filled from it succeeds. */
  lemma SortedNoDuplicates(es: seq<Path>)
    requires StrictlySorted(es)
    ensures NoDuplicates(es)
  {
    forall a, b | 0 <= a < b < |es|
      ensures es[a] != es[b]
    {
      SortedPair(es, a, b);
      LexLessIrreflexive(es[a]);
    }
  }

  /** `x` placed into the sorted list `s` at its place in index order;
      `None` when `s` already holds it. */
  function Insert(s: seq<Path>, x: Path): (r: Option<seq<Path>>)
    requires StrictlySorted(s)
    ensures r.None? <==> x in s
    ensures r.Some? ==> StrictlySorted(r.value) && multiset(r.value) == multiset(s) + multiset{x}
    ensures r.Some? && s != [] ==> r.value != [] && (r.value[0] == x || r.value[0] == s[0])
    ensures r.Some? && s == [] ==> r.value == [x]
    decreases |s|
  {
    if s == [] then Some([x])
    else if x == s[0] then None
    else if LexLess(x, s[0]) then
      BelowHeadNotIn(s, x);
      Some([x] + s)
    else
      LexLessTotal(x, s[0]);
      assert s == [s[0]] + s[1..];
      match Insert(s[1..], x)
      case None => None
      case Some(t) =>
        assert ([s[0]] + t)[1..] == t;
        Some([s[0]] + t)
  }

  /** A path that sorts before the head of a sorted list is not in it. */
  lemma BelowHeadNotIn(s: seq<Path>, x: Path)
    requires StrictlySorted(s) && s != [] && LexLess(x, s[0])
    ensures x !in s
  {
    if x in s {
      var k :| 0 <= k < |s| && s[k] == x;
      if k > 0 {
        SortedPair(s, 0, k);
        LexLessTransitive(x, s[0], x);
      }
      LexLessIrreflexive(x);
    }
  }

  /** Index order leaves no choice: two sorted lists holding the same
      paths are the same list. */
  lemma {:induction false} SortedUnique(a: seq<Path>, b: seq<Path>)
    requires StrictlySorted(a) && StrictlySorted(b) && multiset(a) == multiset(b)
    ensures a == b
    decreases |a|
  {
    assert |a| == |multiset(a)| == |multiset(b)| == |b|;
    if a != [] {
      SortedHeadsAgree(a, b);
      MultisetOfCons(a);
      MultisetOfCons(b);
      assert multiset(a[1..]) == multiset(a) - multiset{a[0]};
      assert multiset(b[1..]) == multiset(b) - multiset{b[0]};
      SortedUnique(a[1..], b[1..]);
      assert a == [a[0]] + a[1..] && b == [b[0]] + b[1..];
    }
  }

  /** Both lists start with the least path they hold. */
  lemma SortedHeadsAgree(a: seq<Path>, b: seq<Path>)
    requires StrictlySorted(a) && StrictlySorted(b) && multiset(a) == multiset(b)
    requires a != [] && b != []
    ensures a[0] == b[0]
  {
    assert a[0] in multiset(b) && b[0] in multiset(a);
    if a[0] != b[0] {
      var j :| 0 <= j < |a| && a[j] == b[0];
      var k :| 0 <= k < |b| && b[k] == a[0];
      SortedPair(a, 0, j);
      SortedPair(b, 0, k);
      LexLessTransitive(a[0], b[0], a[0]);
      LexLessIrreflexive(a[0]);
    }
  }

  lemma MultisetOfCons(s: seq<Path>)
    requires s != []
    ensures multiset(s) == multiset{s[0]} + multiset(s[1..])
  {
    assert s == [s[0]] + s[1..];
  }

  lemma MultisetOfSnoc(ps: seq<Path>, i: nat)
    requires i < |ps|
    ensures multiset(ps[..i + 1]) == multiset(ps[..i]) + multiset{ps[i]}
  {
    assert ps[..i + 1] == ps[..i] + [ps[i]];
  }

  /** A path seen before at an earlier position is a duplicate. */
  lemma SeenBefore(ps: seq<Path>, i: nat)
    requires i < |ps| && ps[i] in multiset(ps[..i])
    ensures !NoDuplicates(ps)
  {
    var j :| 0 <= j < i && ps[..i][j] == ps[i];
    assert ps[j] == ps[i];
  }

  /** A path not seen before keeps the prefix free of duplicates. */
  lemma NotSeenBefore(ps: seq<Path>, i: nat)
    requires i < |ps| && NoDuplicates(ps[..i]) && ps[i] !in multiset(ps[..i])
    ensures NoDuplicates(ps[..i + 1])
  {
    var q := ps[..i + 1];
    forall a, b | 0 <= a < b < |q|
      ensures q[a] != q[b]
    {
      if b == i {
        assert ps[..i][a] == ps[a];
      } else {
        assert ps[..i][a] == ps[a] && ps[..i][b] == ps[b];
      }
    }
  }

  /** A rearrangement of valid paths is a list of valid paths. */
  lemma RearrangedValid(sorted: seq<Path>, ps: seq<Path>)
    requires multiset(sorted) == multiset(ps)
    requires forall k | 0 <= k < |ps| :: ValidPath(ps[k])
    ensures AllValid(sorted)
  {
    forall k | 0 <= k < |sorted|
      ensures ValidPath(sorted[k])
    {
      assert sorted[k] in multiset(ps);
    }
    AllValidFromEach(sorted);
  }

  class DirCache {
    /** The entries, sorted by path in index order. */
    var entries: seq<Path>
    /** The cache tree, once one has been built. */
    var tree: DirCacheTree?
    ghost var Repr: set<object>

    ghost predicate Valid()
      reads this, Repr
    {
      this in Repr && StrictlySorted(entries) && AllValid(entries) &&
      (tree != null ==>
         tree in Repr && tree.Repr <= Repr && this !in tree.Repr &&
         tree.Valid() && tree.Shape == BuildRoot(entries))
    }

    /** An index with no entries and no cache tree, as read when no index
        file exists yet. */
    constructor ()
      ensures Valid() && fresh(Repr)
      ensures entries == [] && tree == null
    {
      entries := [];
      tree := null;
      Repr := {this};
    }

    /** The cache tree. With `build`, a missing tree is built over the
        current entries; an existing one is returned as it is. Without
        `build`, nothing is built. */
    method GetCacheTree(build: bool) returns (t: DirCacheTree?)
      requires Valid()
      modifies this
      ensures Valid() && entries == old(entries) && fresh(Repr - old(Repr))
      ensures t == tree
      ensures old(tree) != null ==> t == old(tree)
      ensures old(tree) == null && !build ==> t == null
      ensures old(tree) == null && build ==> t != null && fresh(t)
      ensures t != null ==> t.Valid() && t.Shape == BuildRoot(entries) && t.Repr <= Repr
    {
      if build && tree == null {
        var root := new DirCacheTree.Root();
        root.Validate(entries, 0);
        tree := root;
        Repr := Repr + root.Repr;
      }
      t := tree;
    }

    /** Empty the index: no entries and no cache tree. */
    method Clear()
      requires Valid()
      modifies this
      ensures Valid() && entries == [] && tree == null && Repr == old(Repr)
    {
      entries := [];
      tree := null;
    }

    /** Install a new sorted entry list; the cache tree of the old list is
        dropped. */
    method Replace(es: seq<Path>)
      requires Valid() && StrictlySorted(es) && AllValid(es)
      modifies this
      ensures Valid() && entries == es && tree == null && Repr == old(Repr)
    {
      entries := es;
      tree := null;
    }

    method GetEntryCount() returns (n: nat)
      requires Valid()
      ensures n == |entries|
    {
      n := |entries|;
    }
  }

  /** Collects entries in any order and, on finish, replaces the index's
      entry list with them in index order. */
  class DirCacheBuilder {
    const cache: DirCache
    var pending: seq<Path>

    ghost predicate Valid()
      reads this, cache, cache.Repr
    {
      cache.Valid() && this !in cache.Repr &&
      forall k | 0 <= k < |pending| :: ValidPath(pending[k])
    }

    constructor (cache: DirCache)
      requires cache.Valid()
      ensures Valid() && this.cache == cache && pending == []
    {
      this.cache := cache;
      pending := [];
    }

    /** Queue one entry. */
    method Add(p: Path)
      requires Valid() && ValidPath(p)
      modifies this
      ensures Valid() && pending == old(pending) + [p]
    {
      pending := pending + [p];
    }

    /** Sort the queued entries into index order and make them the index's
        entry list. Two entries with the same path are refused, naming the
        path, and the index is left as it was. */
    method Finish() returns (r: Result<(), Path>)
      requires Valid()
      modifies cache
      ensures Valid() && pending == old(pending) && cache.Repr == old(cache.Repr)
      ensures r.Success? <==> NoDuplicates(pending)
      ensures r.Success? ==> multiset(cache.entries) == multiset(pending) && cache.tree == null
      ensures r.Failure? ==> multiset(pending)[r.error] > 1 &&
                             cache.entries == old(cache.entries) && cache.tree == old(cache.tree)
    {
      var sorted: seq<Path> := [];
      var i := 0;
      while i < |pending|
        invariant 0 <= i <= |pending|
        invariant StrictlySorted(sorted) && multiset(sorted) == multiset(pending[..i])
        invariant NoDuplicates(pending[..i])
        invariant unchanged(cache)
      {
        var ins := Insert(sorted, pending[i]);
        if ins.None? {
          SeenBefore(pending, i);
          MultisetOfSnoc(pending, i);
          assert pending == pending[..i + 1] + pending[i + 1..];
          return Failure(pending[i]);
        }
        NotSeenBefore(pending, i);
        MultisetOfSnoc(pending, i);
        sorted := ins.value;
        i := i + 1;
      }
      assert pending[..i] == pending;
      RearrangedValid(sorted, pending);
      cache.Replace(sorted);
      return Success(());
    }
  }
}
