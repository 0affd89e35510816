/**
  The cache tree as the index keeps it: one object per directory, each
  holding its children in an updatable list. Every node mirrors a `Tree`
  value (its `Shape`), and building a node walks the entry list the way
  `CacheTree.Scan` describes.
 */
module TreeNodes {
  import opened Wrappers
  import opened Paths
  import opened CacheTree

  class DirCacheTree {
    /** The last component of the directory's path; empty for the root. */
    const name: Path
    /** The directory's path with a trailing '/'; empty for the root. */
    const path: Path
    var children: seq<DirCacheTree>
    var entrySpan: nat
    var valid: bool

    /** The value this node and the nodes below it stand for. */
    ghost var Shape: Tree
    ghost var Repr: set<object>

    ghost predicate Valid()
      reads this, Repr
      decreases Repr, 1
    {
      Shape.name == name && Shape.path == path && Shape.span == entrySpan &&
      Shape.valid == valid && Partial(Shape.children)
    }

    /** The children are distinct valid nodes standing for `shapes`, owned
        by this node and not owning it. */
    ghost predicate Partial(shapes: seq<Tree>)
      reads this, Repr
      decreases Repr, 0
    {
      this in Repr && |shapes| == |children| &&
      (forall k | 0 <= k < |children| ::
        children[k] in Repr && children[k].Repr <= Repr && this !in children[k].Repr &&
        children[k].Shape == shapes[k] && children[k].Valid()) &&
      (forall a, b | 0 <= a < b < |children| :: children[a] != children[b])
    }

    /** A root with no children and no entries yet. */
    constructor Root()
      ensures Valid() && fresh(Repr) && Repr == {this}
      ensures name == [] && path == [] && children == [] && entrySpan == 0 && !valid
    {
      name := [];
      path := [];
      children := [];
      entrySpan := 0;
      valid := false;
      Shape := Tree([], [], [], 0, false);
      Repr := {this};
    }

    /** A new sub-directory node, not yet filled. */
    constructor Child(name: Path, path: Path)
      ensures Valid() && fresh(Repr) && Repr == {this}
      ensures this.name == name && this.path == path && children == [] && entrySpan == 0 && !valid
    {
      this.name := name;
      this.path := path;
      children := [];
      entrySpan := 0;
      valid := false;
      Shape := Tree(name, path, [], 0, false);
      Repr := {this};
    }

    /** Fill a new node from the entries starting at `start`: each entry
        with no '/' after this node's path is one of its files, and each run
        of entries sharing the next component becomes a new child, filled
        the same way. Stops at the first entry outside this node's path.
        The result is exactly the tree `Scan` describes. */
    method Validate(es: seq<Path>, start: nat)
      requires start <= |es| && Valid() && children == [] && !valid && Repr == {this}
      modifies Repr
      ensures Valid() && fresh(Repr - {this})
      ensures Shape == Tree(name, path, Scan(es, start, path).children,
                            Scan(es, start, path).next - start, false)
      decreases |es| - start, if start < |es| && |path| <= |es[start]| then |es[start]| - |path| else 0, 2
    {
      ghost var shapes: seq<Tree> := [];
      entrySpan := 0;
      var cIdx := start;
      while cIdx < |es|
        invariant start <= cIdx <= |es| && entrySpan == cIdx - start && !valid
        invariant ScannedUpTo(es, start, cIdx, path, shapes)
        invariant Partial(shapes) && fresh(Repr - {this})
        decreases |es| - cIdx
      {
        if |path| > 0 && !(path <= es[cIdx]) {
          break;
        }
        assert path <= es[cIdx];
        var p := Slash(es[cIdx], |path|);
        if p < 0 {
          ScannedPastLeaf(es, start, cIdx, path, shapes);
          cIdx := cIdx + 1;
          entrySpan := entrySpan + 1;
        } else {
          cIdx, shapes := FillChild(es, start, cIdx, p, shapes);
        }
      }
      ScannedAll(es, start, cIdx, path, shapes);
      Shape := Tree(name, path, shapes, entrySpan, false);
    }

    /** One step of `Validate` at an entry that opens a sub-directory: make
        the child, fill it from `cIdx`, append it, and move past its run. */
    method FillChild(es: seq<Path>, start: nat, cIdx: nat, p: nat, ghost shapes: seq<Tree>)
      returns (next: nat, ghost shapes': seq<Tree>)
      requires start <= cIdx < |es| && path <= es[cIdx] && FirstSlash(es[cIdx], |path|) == Some(p)
      requires ScannedUpTo(es, start, cIdx, path, shapes) && Partial(shapes)
      requires entrySpan == cIdx - start
      modifies this
      ensures cIdx < next <= |es| && entrySpan == next - start
      ensures ScannedUpTo(es, start, next, path, shapes') && Partial(shapes')
      ensures fresh(Repr - old(Repr)) && valid == old(valid)
      decreases |es| - cIdx, |es[cIdx]| - |path|, 1
    {
      ScannedPastChild(es, start, cIdx, path, p, shapes);
      var st := OpenChild(es, cIdx, p);
      InsertChild(st, shapes);
      shapes' := shapes + [st.Shape];
      next := cIdx + st.entrySpan;
      entrySpan := entrySpan + st.entrySpan;
      assert next == Scan(es, cIdx, es[cIdx][..p + 1]).next;
      assert shapes' == shapes + [OpenedChild(es, cIdx, path, p)];
    }

    /** The child that entry `cIdx` opens: the directory up to its first
        '/' after this node's path, filled from `cIdx` on. */
    method OpenChild(es: seq<Path>, cIdx: nat, p: nat) returns (st: DirCacheTree)
      requires cIdx < |es| && path <= es[cIdx] && FirstSlash(es[cIdx], |path|) == Some(p)
      ensures st.Valid() && fresh(st.Repr) && this !in st.Repr
      ensures st.Shape == OpenedChild(es, cIdx, path, p)
      ensures st.entrySpan == Scan(es, cIdx, es[cIdx][..p + 1]).next - cIdx
      decreases |es| - cIdx, |es[cIdx]| - |path|, 0
    {
      st := new DirCacheTree.Child(es[cIdx][|path|..p], es[cIdx][..p + 1]);
      st.Validate(es, cIdx);
    }

    /** Append a filled child after the children found so far. */
    method InsertChild(st: DirCacheTree, ghost shapes: seq<Tree>)
      requires Partial(shapes) && st.Valid() && this !in st.Repr && st !in Repr
      modifies this
      ensures Partial(shapes + [st.Shape])
      ensures children == old(children) + [st] && Repr == old(Repr) + st.Repr
      ensures entrySpan == old(entrySpan) && valid == old(valid) && Shape == old(Shape)
    {
      children := children + [st];
      Repr := Repr + st.Repr;
    }

    method GetChildCount() returns (n: nat)
      requires Valid()
      ensures n == |Shape.children|
    {
      n := |children|;
    }

    /** The `i`-th child: the same node on every call. */
    method GetChild(i: nat) returns (c: DirCacheTree)
      requires Valid() && i < |Shape.children|
      ensures i < |children| && c == children[i] && c.Valid() && c.Shape == Shape.children[i]
      ensures c in Repr && c.Repr <= Repr
    {
      c := children[i];
    }

    method GetEntrySpan() returns (n: nat)
      requires Valid()
      ensures n == Shape.span
    {
      n := entrySpan;
    }

    method GetNameString() returns (s: Path)
      requires Valid()
      ensures s == Shape.name
    {
      s := name;
    }

    method GetPathString() returns (s: Path)
      requires Valid()
      ensures s == Shape.path
    {
      s := path;
    }

    method IsValid() returns (b: bool)
      requires Valid()
      ensures b == Shape.valid
    {
      b := valid;
    }
  }
}
