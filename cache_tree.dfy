/**
  The cache tree as a value: the directory structure that the index's
  flat, sorted list of paths implies, and what is proved about it.
 */
module CacheTree {
  import opened Wrappers
  import opened Paths

  /** One directory of the cache tree: its last component (empty for the
      root), its path with a '/' after every component (empty for the root),
      its sub-directories in order, the number of index entries at or below
      it, and whether an object id has been recorded for it. */
  datatype Tree = Tree(name: Path, path: Path, children: seq<Tree>, span: nat, valid: bool)

  /** What scanning one directory yields: the sub-directories found, in
      order, and the index of the first entry it did not take. */
  datatype Scanned = Scanned(children: seq<Tree>, next: nat)

  /** Builds the sub-directories of directory `dir` from entry `i` on.
      An entry with no '/' after `dir` is a file of `dir` and is only counted;
      a run of entries that agree up to their next '/' becomes one child,
      built the same way one level down. The scan ends at the first entry
      that does not begin with `dir`. */
  function Scan(es: seq<Path>, i: nat, dir: Path): (r: Scanned)
    requires i <= |es|
    ensures i <= r.next <= |es|
    ensures i < |es| && dir <= es[i] ==> i < r.next
    decreases |es| - i, if i < |es| && |dir| <= |es[i]| then |es[i]| - |dir| else 0
  {
    if i == |es| || !(dir <= es[i]) then Scanned([], i)
    else match FirstSlash(es[i], |dir|)
      case None => Scan(es, i + 1, dir)
      case Some(p) =>
        var sub := es[i][..p + 1];
        var inner := Scan(es, i, sub);
        var child := Tree(es[i][|dir|..p], sub, inner.children, inner.next - i, false);
        var rest := Scan(es, inner.next, dir);
        Scanned([child] + rest.children, rest.next)
  }

  /** The root of the cache tree built from the whole entry list. */
  function BuildRoot(es: seq<Path>): (t: Tree)
    ensures t.name == [] && t.path == [] && !t.valid && t.span == |es|
  {
    var s := Scan(es, 0, []);
    ScanRun(es, 0, []);
    Tree([], [], s.children, s.next, false)
  }

  function SumSpans(ts: seq<Tree>): nat
  {
    if ts == [] then 0 else ts[0].span + SumSpans(ts[1..])
  }

  lemma SumSpansCons(t: Tree, ts: seq<Tree>)
    ensures SumSpans([t] + ts) == t.span + SumSpans(ts)
  {
    assert ([t] + ts)[1..] == ts;
  }

  /** Number of entries at or below directory `dir`. */
  function CountUnder(es: seq<Path>, dir: Path): nat
  {
    if es == [] then 0 else (if dir <= es[0] then 1 else 0) + CountUnder(es[1..], dir)
  }

  /** `s` is a file directly inside directory `dir`. */
  predicate IsLeafOf(dir: Path, s: Path)
  {
    dir <= s && FirstSlash(s, |dir|).None?
  }

  /** Number of entries that are files directly inside `dir`. */
  function CountLeaves(es: seq<Path>, dir: Path): nat
  {
    if es == [] then 0 else (if IsLeafOf(dir, es[0]) then 1 else 0) + CountLeaves(es[1..], dir)
  }

  /** `dir` is the root's empty path or ends with '/'. */
  predicate DirPath(dir: Path)
  {
    dir == [] || dir[|dir| - 1] == SLASH
  }

  /** Entry `i` does not continue the sub-directory (one level below offset
      `off`) that entry `i - 1` lies in. */
  ghost predicate OpensRun(es: seq<Path>, i: nat, off: nat)
  {
    0 < i < |es| && FirstSlash(es[i], off).Some? ==> SubdirOf(es[i - 1], off) != SubdirOf(es[i], off)
  }

  /** What the cache tree is, stated without reference to how it is built:
      `t` covers exactly the entries below its path; its span is their
      number and splits into its children's spans and its own files; every
      such entry is a file of `t` or lies in one of its children; the
      children are in git tree order, non-empty, one level down, and are
      themselves derived. No node has a recorded object id. */
  ghost predicate Derived(es: seq<Path>, t: Tree)
    decreases t
  {
    !t.valid &&
    t.span == CountUnder(es, t.path) &&
    t.span == SumSpans(t.children) + CountLeaves(es, t.path) &&
    (forall k | 0 <= k < |es| && t.path <= es[k] ::
       IsLeafOf(t.path, es[k]) || exists c | c in t.children :: c.path <= es[k]) &&
    GitOrdered(t.children) &&
    forall c | c in t.children ::
      ValidName(c.name) && c.path == t.path + c.name + [SLASH] && c.span > 0 && Derived(es, c)
  }

  // ---------------------------------------------------------------------
  // Counting

  lemma {:induction false} CountAppend(a: seq<Path>, b: seq<Path>, dir: Path)
    ensures CountUnder(a + b, dir) == CountUnder(a, dir) + CountUnder(b, dir)
    ensures CountLeaves(a + b, dir) == CountLeaves(a, dir) + CountLeaves(b, dir)
    decreases |a|
  {
    if a == [] {
      assert a + b == b;
    } else {
      assert (a + b)[0] == a[0] && (a + b)[1..] == a[1..] + b;
      CountAppend(a[1..], b, dir);
    }
  }

  lemma {:induction false} CountNoneUnder(s: seq<Path>, dir: Path)
    requires forall k | 0 <= k < |s| :: !(dir <= s[k])
    ensures CountUnder(s, dir) == 0 && CountLeaves(s, dir) == 0
    decreases |s|
  {
    if s != [] {
      CountNoneUnder(s[1..], dir);
    }
  }

  lemma {:induction false} CountAllUnder(s: seq<Path>, dir: Path)
    requires forall k | 0 <= k < |s| :: dir <= s[k]
    ensures CountUnder(s, dir) == |s|
    decreases |s|
  {
    if s != [] {
      CountAllUnder(s[1..], dir);
    }
  }

  /** Entries that all lie below the sub-directory `opener` starts at `p`
      hold no file of `dir`. */
  lemma {:induction false} CountNoLeaves(s: seq<Path>, opener: Path, dir: Path, p: nat)
    requires FirstSlash(opener, |dir|) == Some(p)
    requires forall k | 0 <= k < |s| :: opener[..p + 1] <= s[k]
    ensures CountLeaves(s, dir) == 0
    decreases |s|
  {
    if s != [] {
      BelowChildNotLeaf(opener, s[0], dir, p);
      CountNoLeaves(s[1..], opener, dir, p);
    }
  }

  /** When the entries below `dir` are exactly those at indices lo..hi-1,
      counting over the whole list is counting over that slice. */
  lemma CountRun(es: seq<Path>, lo: nat, hi: nat, dir: Path)
    requires lo <= hi <= |es|
    requires forall k | 0 <= k < |es| :: dir <= es[k] <==> lo <= k < hi
    ensures CountUnder(es, dir) == hi - lo
    ensures CountLeaves(es, dir) == CountLeaves(es[lo..hi], dir)
  {
    assert es == es[..lo] + es[lo..hi] + es[hi..];
    CountAppend(es[..lo] + es[lo..hi], es[hi..], dir);
    CountAppend(es[..lo], es[lo..hi], dir);
    CountNoneUnder(es[..lo], dir);
    CountNoneUnder(es[hi..], dir);
    CountAllUnder(es[lo..hi], dir);
  }

  // ---------------------------------------------------------------------
  // What one scan covers; none of this needs the entries to be sorted.

  /** A scan takes a maximal run of entries that begin with `dir`. */
  lemma {:induction false} ScanRun(es: seq<Path>, i: nat, dir: Path)
    requires i <= |es|
    ensures forall k | i <= k < Scan(es, i, dir).next :: dir <= es[k]
    ensures Scan(es, i, dir).next == |es| || !(dir <= es[Scan(es, i, dir).next])
    decreases |es| - i, if i < |es| && |dir| <= |es[i]| then |es[i]| - |dir| else 0
  {
    if i == |es| || !(dir <= es[i]) {
    } else {
      match FirstSlash(es[i], |dir|)
      case None =>
        ScanRun(es, i + 1, dir);
      case Some(p) =>
        var sub := es[i][..p + 1];
        var m := Scan(es, i, sub).next;
        ScanOpens(es, i, dir, p);
        ScanRun(es, i, sub);
        ScanRun(es, m, dir);
        PrefixOfTake(dir, es[i], p + 1);
        RunBelow(es, i, m, dir, sub);
    }
  }

  /** Entries below `sub` are below every prefix `dir` of `sub`. */
  lemma RunBelow(es: seq<Path>, i: nat, m: nat, dir: Path, sub: Path)
    requires i <= m <= |es| && dir <= sub
    requires forall k | i <= k < m :: sub <= es[k]
    ensures forall k | i <= k < m :: dir <= es[k]
  {
    forall k | i <= k < m
      ensures dir <= es[k]
    {
      PrefixTransitive(dir, sub, es[k]);
    }
  }

  /** Files of `dir` in entries i..j-1 when entry `i` is one. */
  lemma LeavesFromLeaf(es: seq<Path>, i: nat, j: nat, dir: Path)
    requires i < j <= |es| && IsLeafOf(dir, es[i])
    ensures CountLeaves(es[i..j], dir) == 1 + CountLeaves(es[i + 1..j], dir)
  {
    assert es[i..j][0] == es[i] && es[i..j][1..] == es[i + 1..j];
  }

  /** An entry below the sub-directory that `s` opens is not a file of `dir`. */
  lemma BelowChildNotLeaf(s: Path, t: Path, dir: Path, p: nat)
    requires FirstSlash(s, |dir|) == Some(p) && s[..p + 1] <= t
    ensures !IsLeafOf(dir, t)
  {
    assert |s[..p + 1]| == p + 1;
    assert t[..p + 1] == s[..p + 1];
    FirstSlashAgree(s, t, |dir|, p);
  }

  /** An entry below the sub-directory that `s` opens lies in that same
      sub-directory. */
  lemma SameSubdir(s: Path, t: Path, off: nat, p: nat)
    requires FirstSlash(s, off) == Some(p) && s[..p + 1] <= t
    ensures SubdirOf(t, off) == SubdirOf(s, off)
  {
    assert |s[..p + 1]| == p + 1;
    assert t[..p + 1] == s[..p + 1];
    FirstSlashAgree(s, t, off, p);
  }

  /** Two entries in the same sub-directory agree up to its closing '/'. */
  lemma SharedSubdirPrefix(s: Path, t: Path, off: nat, q: nat, n: nat)
    requires FirstSlash(s, off) == Some(q) && SubdirOf(t, off) == Some(s[..q + 1]) && n <= q + 1
    ensures s[..n] <= t
  {
    var q2 := FirstSlash(t, off).value;
    assert t[..q2 + 1] == s[..q + 1];
    assert q2 == q;
    forall k | 0 <= k < n
      ensures s[k] == t[k]
    {
      assert s[k] == s[..q + 1][k];
      assert t[k] == t[..q2 + 1][k];
    }
  }

  /** If `t` is not below the sub-directory `s` opens at `p`, it is not in
      any sub-directory of `s` one level further down either. */
  lemma DeeperSubdirDiffers(s: Path, t: Path, off: nat, p: nat)
    requires FirstSlash(s, off) == Some(p) && !(s[..p + 1] <= t)
    ensures FirstSlash(s, p + 1).Some? ==> SubdirOf(t, p + 1) != SubdirOf(s, p + 1)
  {
    match FirstSlash(s, p + 1)
    case None =>
    case Some(q) =>
      if SubdirOf(t, p + 1) == Some(s[..q + 1]) {
        SharedSubdirPrefix(s, t, p + 1, q, p + 1);
      }
  }

  /** Files of `dir` in entries i..j-1 when i..m-1 is a child's run: none
      of the run's entries is one. */
  lemma LeavesAfterChildRun(es: seq<Path>, i: nat, m: nat, j: nat, dir: Path, p: nat)
    requires i < m <= j <= |es| && FirstSlash(es[i], |dir|) == Some(p)
    requires forall k | i <= k < m :: es[i][..p + 1] <= es[k]
    ensures CountLeaves(es[i..j], dir) == CountLeaves(es[m..j], dir)
  {
    RunHasNoLeaves(es, i, m, dir, p);
    CountLeavesSplit(es, i, m, j, dir);
  }

  lemma RunHasNoLeaves(es: seq<Path>, i: nat, m: nat, dir: Path, p: nat)
    requires i < m <= |es| && FirstSlash(es[i], |dir|) == Some(p)
    requires forall k | i <= k < m :: es[i][..p + 1] <= es[k]
    ensures CountLeaves(es[i..m], dir) == 0
  {
    var run := es[i..m];
    forall k | 0 <= k < |run|
      ensures es[i][..p + 1] <= run[k]
    {
      assert run[k] == es[i + k];
    }
    CountNoLeaves(run, es[i], dir, p);
  }

  lemma CountLeavesSplit(es: seq<Path>, i: nat, m: nat, j: nat, dir: Path)
    requires i <= m <= j <= |es|
    ensures CountLeaves(es[i..j], dir) == CountLeaves(es[i..m], dir) + CountLeaves(es[m..j], dir)
  {
    assert es[i..j] == es[i..m] + es[m..j];
    CountAppend(es[i..m], es[m..j], dir);
  }

  /** Span additivity: the children's spans and the files found directly in
      `dir` add up to the number of entries the scan took. */
  lemma {:induction false} ScanSpans(es: seq<Path>, i: nat, dir: Path)
    requires i <= |es|
    ensures SumSpans(Scan(es, i, dir).children) + CountLeaves(es[i..Scan(es, i, dir).next], dir)
            == Scan(es, i, dir).next - i
    decreases |es| - i, if i < |es| && |dir| <= |es[i]| then |es[i]| - |dir| else 0
  {
    var r := Scan(es, i, dir);
    if i == |es| || !(dir <= es[i]) {
      assert es[i..r.next] == [];
    } else {
      match FirstSlash(es[i], |dir|)
      case None =>
        ScanSpans(es, i + 1, dir);
        LeavesFromLeaf(es, i, r.next, dir);
      case Some(p) =>
        ScanSpans(es, Scan(es, i, es[i][..p + 1]).next, dir);
        SpansAfterChild(es, i, dir, p);
    }
  }

  /** The step of `ScanSpans` at an entry that opens a child: the child's
      span covers its run, which holds no file of `dir`. */
  lemma SpansAfterChild(es: seq<Path>, i: nat, dir: Path, p: nat)
    requires i < |es| && dir <= es[i] && FirstSlash(es[i], |dir|) == Some(p)
    requires var m := Scan(es, i, es[i][..p + 1]).next;
             SumSpans(Scan(es, m, dir).children) + CountLeaves(es[m..Scan(es, m, dir).next], dir)
             == Scan(es, m, dir).next - m
    ensures SumSpans(Scan(es, i, dir).children) + CountLeaves(es[i..Scan(es, i, dir).next], dir)
            == Scan(es, i, dir).next - i
  {
    var m := Scan(es, i, es[i][..p + 1]).next;
    var rest := Scan(es, m, dir);
    var child := OpenedChild(es, i, dir, p);
    ScanOpens(es, i, dir, p);
    ChildRunLeaves(es, i, dir, p, rest.next);
    SumSpansCons(child, rest.children);
  }

  /** The run of the child opened at entry `i` holds no file of `dir`. */
  lemma ChildRunLeaves(es: seq<Path>, i: nat, dir: Path, p: nat, j: nat)
    requires i < |es| && dir <= es[i] && FirstSlash(es[i], |dir|) == Some(p)
    requires Scan(es, i, es[i][..p + 1]).next <= j <= |es|
    ensures CountLeaves(es[i..j], dir) == CountLeaves(es[Scan(es, i, es[i][..p + 1]).next..j], dir)
  {
    var m := Scan(es, i, es[i][..p + 1]).next;
    ScanRun(es, i, es[i][..p + 1]);
    LeavesAfterChildRun(es, i, m, j, dir, p);
  }

  /** Every entry a scan takes is a file of `dir` or lies below one of the
      children it found. */
  lemma {:induction false} ScanCovers(es: seq<Path>, i: nat, dir: Path)
    requires i <= |es|
    ensures forall k | i <= k < Scan(es, i, dir).next ::
              IsLeafOf(dir, es[k]) || exists c | c in Scan(es, i, dir).children :: c.path <= es[k]
    decreases |es| - i, if i < |es| && |dir| <= |es[i]| then |es[i]| - |dir| else 0
  {
    if i == |es| || !(dir <= es[i]) {
    } else {
      match FirstSlash(es[i], |dir|)
      case None =>
        ScanCovers(es, i + 1, dir);
      case Some(p) =>
        var sub := es[i][..p + 1];
        var m := Scan(es, i, sub).next;
        var rest := Scan(es, m, dir);
        var cs := [OpenedChild(es, i, dir, p)] + rest.children;
        ScanOpens(es, i, dir, p);
        ScanRun(es, i, sub);
        ScanCovers(es, m, dir);
        forall k | i <= k < rest.next
          ensures IsLeafOf(dir, es[k]) || exists c | c in cs :: c.path <= es[k]
        {
          if k < m {
            assert cs[0] in cs && cs[0].path == sub;
          } else if !IsLeafOf(dir, es[k]) {
            var c :| c in rest.children && c.path <= es[k];
            assert c in cs;
          }
        }
    }
  }

  /** Every child a scan finds has an entry the scan took below it. */
  lemma {:induction false} ScanWitnesses(es: seq<Path>, i: nat, dir: Path)
    requires i <= |es|
    ensures forall c | c in Scan(es, i, dir).children ::
              exists k | i <= k < Scan(es, i, dir).next :: c.path <= es[k]
    decreases |es| - i, if i < |es| && |dir| <= |es[i]| then |es[i]| - |dir| else 0
  {
    if i == |es| || !(dir <= es[i]) {
    } else {
      match FirstSlash(es[i], |dir|)
      case None =>
        ScanWitnesses(es, i + 1, dir);
      case Some(p) =>
        var m := Scan(es, i, es[i][..p + 1]).next;
        var rest := Scan(es, m, dir);
        var child := OpenedChild(es, i, dir, p);
        ScanOpens(es, i, dir, p);
        ScanWitnesses(es, m, dir);
        forall c | c in [child] + rest.children
          ensures exists k | i <= k < rest.next :: c.path <= es[k]
        {
          if c == child {
            assert c.path <= es[i];
          } else {
            assert c in rest.children;
          }
        }
    }
  }

  /** The child opened at entry `i` is named by a non-empty component and
      its path is `dir`, that name and '/'. */
  lemma OpenedName(es: seq<Path>, i: nat, dir: Path, p: nat)
    requires i < |es| && dir <= es[i] && DirPath(dir) && AllValid(es)
    requires FirstSlash(es[i], |dir|) == Some(p)
    ensures ValidName(es[i][|dir|..p])
    ensures es[i][..p + 1] == dir + es[i][|dir|..p] + [SLASH]
  {
    AllValidAt(es, i);
    NameAfterDir(es[i], dir, p);
    PathOfOpened(es[i], dir, p);
  }

  /** The component that follows a directory prefix of a valid path, up to
      its next '/', is a name. */
  lemma NameAfterDir(s: Path, dir: Path, p: nat)
    requires ValidPath(s) && dir <= s && DirPath(dir)
    requires FirstSlash(s, |dir|) == Some(p)
    ensures ValidName(s[|dir|..p])
  {
    if |dir| > 0 {
      assert s[|dir| - 1] == dir[|dir| - 1];
    }
    ComponentStart(s, |dir|);
    var name := s[|dir|..p];
    forall k | 0 <= k < |name|
      ensures name[k] != SLASH
    {
      assert name[k] == s[|dir| + k];
    }
  }

  /** The sub-directory path `s[..p + 1]` is `dir`, the name, and '/'. */
  lemma PathOfOpened(s: Path, dir: Path, p: nat)
    requires dir <= s && |dir| <= p < |s| && s[p] == SLASH
    ensures s[..p + 1] == dir + s[|dir|..p] + [SLASH]
  {
    assert dir == s[..|dir|];
    assert s[..p + 1] == s[..|dir|] + s[|dir|..p] + [s[p]];
  }

  /** Every child found is one level below `dir`, named by a non-empty
      component, not yet valid, and covers at least one entry. */
  lemma {:induction false} ScanChildren(es: seq<Path>, i: nat, dir: Path)
    requires i <= |es| && DirPath(dir) && AllValid(es)
    ensures forall c | c in Scan(es, i, dir).children ::
              ValidName(c.name) && c.path == dir + c.name + [SLASH] && c.span > 0 && !c.valid
    decreases |es| - i, if i < |es| && |dir| <= |es[i]| then |es[i]| - |dir| else 0
  {
    if i == |es| || !(dir <= es[i]) {
    } else {
      match FirstSlash(es[i], |dir|)
      case None =>
        ScanChildren(es, i + 1, dir);
      case Some(p) =>
        var m := Scan(es, i, es[i][..p + 1]).next;
        var rest := Scan(es, m, dir);
        var child := OpenedChild(es, i, dir, p);
        ScanOpens(es, i, dir, p);
        ScanChildren(es, m, dir);
        OpenedName(es, i, dir, p);
        forall c | c in [child] + rest.children
          ensures ValidName(c.name) && c.path == dir + c.name + [SLASH] && c.span > 0 && !c.valid
        {
          if c != child {
            assert c in rest.children;
          }
        }
    }
  }

  // ---------------------------------------------------------------------
  // Boundaries of runs

  /** The child a scan opens at entry `i` does not reach back to entry `i - 1`. */
  lemma OpenedChildStarts(es: seq<Path>, i: nat, dir: Path, p: nat)
    requires i < |es| && OpensRun(es, i, |dir|)
    requires FirstSlash(es[i], |dir|) == Some(p)
    ensures i == 0 || !(es[i][..p + 1] <= es[i - 1])
  {
    if i > 0 && es[i][..p + 1] <= es[i - 1] {
      SameSubdir(es[i], es[i - 1], |dir|, p);
    }
  }

  /** ... and so the scan one level down also starts a run at `i`. */
  lemma OpenedChildOpensRun(es: seq<Path>, i: nat, dir: Path, p: nat)
    requires i < |es| && OpensRun(es, i, |dir|)
    requires FirstSlash(es[i], |dir|) == Some(p)
    ensures OpensRun(es, i, p + 1)
  {
    OpenedChildStarts(es, i, dir, p);
    if 0 < i {
      DeeperSubdirDiffers(es[i], es[i - 1], |dir|, p);
    }
  }

  /** After a child's run ends at entry `m`, entry `m` starts afresh. */
  lemma ChildRunEnds(es: seq<Path>, i: nat, m: nat, dir: Path, p: nat)
    requires i < m <= |es|
    requires FirstSlash(es[i], |dir|) == Some(p)
    requires es[i][..p + 1] <= es[m - 1]
    requires m == |es| || !(es[i][..p + 1] <= es[m])
    ensures OpensRun(es, m, |dir|)
  {
    if 0 < m < |es| && FirstSlash(es[m], |dir|).Some? {
      FirstSlashAgree(es[i], es[m - 1], |dir|, p);
      assert SubdirOf(es[m - 1], |dir|) == Some(es[i][..p + 1]);
    }
  }

  /** In a sorted list a maximal run of entries beginning with `dir` holds
      every entry that begins with `dir`. */
  lemma RunIsExact(es: seq<Path>, lo: nat, hi: nat, dir: Path)
    requires StrictlySorted(es)
    requires lo < hi <= |es|
    requires forall k | lo <= k < hi :: dir <= es[k]
    requires lo == 0 || !(dir <= es[lo - 1])
    requires hi == |es| || !(dir <= es[hi])
    ensures forall k | 0 <= k < |es| :: dir <= es[k] <==> lo <= k < hi
  {
    forall k | 0 <= k < |es| && dir <= es[k]
      ensures lo <= k < hi
    {
      if k < lo {
        if k < lo - 1 {
          SortedPair(es, k, lo - 1);
        }
        SortedPair(es, lo - 1, lo);
        if k < lo - 1 {
          PrefixConvex(dir, es[k], es[lo - 1], es[lo]);
        }
      } else if k >= hi {
        SortedPair(es, hi - 1, hi);
        if k > hi {
          SortedPair(es, hi, k);
          PrefixConvex(dir, es[hi - 1], es[hi], es[k]);
        }
      }
    }
  }

  /** Over sorted entries, the child opened at entry `i` holds exactly the
      entries from `i` up to where its scan stopped. */
  lemma OpenedChildRun(es: seq<Path>, i: nat, dir: Path, p: nat)
    requires StrictlySorted(es)
    requires i < |es| && OpensRun(es, i, |dir|)
    requires FirstSlash(es[i], |dir|) == Some(p)
    ensures var m := Scan(es, i, es[i][..p + 1]).next;
            i < m && OpensRun(es, m, |dir|) &&
            forall k | 0 <= k < |es| :: es[i][..p + 1] <= es[k] <==> i <= k < m
  {
    var sub := es[i][..p + 1];
    var m := Scan(es, i, sub).next;
    OpenedChildStarts(es, i, dir, p);
    ScanRun(es, i, sub);
    RunIsExact(es, i, m, sub);
    ChildRunEnds(es, i, m, dir, p);
  }

  // ---------------------------------------------------------------------
  // The whole tree

  /** Sub-directories in git tree order: each name, followed by '/',
      sorts before the next one's. */
  ghost predicate GitOrdered(cs: seq<Tree>)
  {
    forall a, b | 0 <= a < b < |cs| :: LexLess(cs[a].name + [SLASH], cs[b].name + [SLASH])
  }

  lemma GitOrderedCons(t: Tree, cs: seq<Tree>)
    requires GitOrdered(cs)
    requires forall c | c in cs :: LexLess(t.name + [SLASH], c.name + [SLASH])
    ensures GitOrdered([t] + cs)
  {
    var ts := [t] + cs;
    forall a, b | 0 <= a < b < |ts|
      ensures LexLess(ts[a].name + [SLASH], ts[b].name + [SLASH])
    {
      assert ts[b] == cs[b - 1];
      if a > 0 {
        assert ts[a] == cs[a - 1];
      }
    }
  }

  /** The child a scan opens at entry `i`, where `p` is the first '/' of
      entry `i` after `dir`. */
  ghost function OpenedChild(es: seq<Path>, i: nat, dir: Path, p: nat): Tree
    requires i < |es| && |dir| <= p < |es[i]|
  {
    var inner := Scan(es, i, es[i][..p + 1]);
    Tree(es[i][|dir|..p], es[i][..p + 1], inner.children, inner.next - i, false)
  }

  /** One step of a scan that opens a child at entry `i`. */
  lemma ScanOpens(es: seq<Path>, i: nat, dir: Path, p: nat)
    requires i < |es| && dir <= es[i] && FirstSlash(es[i], |dir|) == Some(p)
    ensures var m := Scan(es, i, es[i][..p + 1]).next;
            Scan(es, i, dir) == Scanned([OpenedChild(es, i, dir, p)] + Scan(es, m, dir).children,
                                        Scan(es, m, dir).next)
  {
  }

  /** A scan ends at an entry outside `dir`, or at the end of the list. */
  lemma ScanStops(es: seq<Path>, i: nat, dir: Path)
    requires i <= |es| && (i == |es| || !(dir <= es[i]))
    ensures Scan(es, i, dir) == Scanned([], i)
  {
  }

  /** A scan counts an entry with no further '/' as a file and moves on. */
  lemma ScanSkipsLeaf(es: seq<Path>, i: nat, dir: Path)
    requires i < |es| && dir <= es[i] && FirstSlash(es[i], |dir|).None?
    ensures Scan(es, i, dir) == Scan(es, i + 1, dir)
  {
  }

  /** The loop form of a scan of `dir` from `start` that has reached `i`,
      having found the children `found` so far. */
  ghost predicate ScannedUpTo(es: seq<Path>, start: nat, i: nat, dir: Path, found: seq<Tree>)
    requires start <= i <= |es|
  {
    Scan(es, start, dir) == Scanned(found + Scan(es, i, dir).children, Scan(es, i, dir).next)
  }

  /** Counting a file of `dir` keeps the loop form. */
  lemma ScannedPastLeaf(es: seq<Path>, start: nat, i: nat, dir: Path, found: seq<Tree>)
    requires start <= i < |es| && ScannedUpTo(es, start, i, dir, found)
    requires dir <= es[i] && FirstSlash(es[i], |dir|).None?
    ensures ScannedUpTo(es, start, i + 1, dir, found)
  {
    ScanSkipsLeaf(es, i, dir);
  }

  /** Opening a child at entry `i` keeps the loop form, with the child
      appended and the scan resumed where the child's run ends. */
  lemma ScannedPastChild(es: seq<Path>, start: nat, i: nat, dir: Path, p: nat, found: seq<Tree>)
    requires start <= i < |es| && ScannedUpTo(es, start, i, dir, found)
    requires dir <= es[i] && FirstSlash(es[i], |dir|) == Some(p)
    ensures ScannedUpTo(es, start, Scan(es, i, es[i][..p + 1]).next, dir,
                        found + [OpenedChild(es, i, dir, p)])
  {
    var m := Scan(es, i, es[i][..p + 1]).next;
    ScanOpens(es, i, dir, p);
    FoundOneMore(Scan(es, start, dir), found, OpenedChild(es, i, dir, p), Scan(es, i, dir), Scan(es, m, dir));
  }

  /** Regrouping for `ScannedPastChild`, kept apart from `Scan`. */
  lemma FoundOneMore(whole: Scanned, found: seq<Tree>, child: Tree, here: Scanned, rest: Scanned)
    requires whole == Scanned(found + here.children, here.next)
    requires here == Scanned([child] + rest.children, rest.next)
    ensures whole == Scanned((found + [child]) + rest.children, rest.next)
  {
    assert found + ([child] + rest.children) == (found + [child]) + rest.children;
  }

  /** When the loop stops, the children found are the scan's. */
  lemma ScannedAll(es: seq<Path>, start: nat, i: nat, dir: Path, found: seq<Tree>)
    requires start <= i <= |es| && ScannedUpTo(es, start, i, dir, found)
    requires i == |es| || !(dir <= es[i])
    ensures Scan(es, start, dir) == Scanned(found, i)
  {
    ScanStops(es, i, dir);
    assert found + [] == found;
  }

  /** In sorted entries, a directory `dir + name + "/"` whose entries are
      exactly those before `m` (from some point on) comes before every
      sibling a scan finds from `m` on. */
  lemma ChildPrecedesRest(es: seq<Path>, i: nat, m: nat, dir: Path, name: Path)
    requires StrictlySorted(es) && AllValid(es) && DirPath(dir)
    requires i < m <= |es| && ValidName(name) && dir + name + [SLASH] <= es[i]
    requires forall k | m <= k < |es| :: !(dir + name + [SLASH] <= es[k])
    ensures forall c | c in Scan(es, m, dir).children :: LexLess(name + [SLASH], c.name + [SLASH])
  {
    var rest := Scan(es, m, dir);
    ScanWitnesses(es, m, dir);
    ScanChildren(es, m, dir);
    forall c | c in rest.children
      ensures LexLess(name + [SLASH], c.name + [SLASH])
    {
      var k :| m <= k < rest.next && c.path <= es[k];
      SortedPair(es, i, k);
      DirectoryOrder(dir, name, c.name, es[i], es[k]);
    }
  }

  /** Over sorted, well-formed entries, every child a scan finds is
      `Derived`, and the children come in git tree order. */
  lemma {:induction false} ScanDerived(es: seq<Path>, i: nat, dir: Path)
    requires StrictlySorted(es) && AllValid(es)
    requires i <= |es| && DirPath(dir) && OpensRun(es, i, |dir|)
    ensures forall c | c in Scan(es, i, dir).children :: Derived(es, c)
    ensures GitOrdered(Scan(es, i, dir).children)
    decreases |es| - i, if i < |es| && |dir| <= |es[i]| then |es[i]| - |dir| else 0
  {
    if i == |es| || !(dir <= es[i]) {
    } else {
      match FirstSlash(es[i], |dir|)
      case None =>
        ScanDerived(es, i + 1, dir);
      case Some(p) =>
        var m := Scan(es, i, es[i][..p + 1]).next;
        var rest := Scan(es, m, dir);
        var child := OpenedChild(es, i, dir, p);
        ScanOpens(es, i, dir, p);
        OpenedChildRun(es, i, dir, p);
        OpenedName(es, i, dir, p);
        ScanDerived(es, m, dir);
        ChildDerived(es, i, dir, p);
        ChildPrecedesRest(es, i, m, dir, child.name);
        GitOrderedCons(child, rest.children);
    }
  }

  /** The counts of the child a scan opens at entry `i`, over sorted entries. */
  lemma OpenedChildCounts(es: seq<Path>, i: nat, dir: Path, p: nat)
    requires StrictlySorted(es)
    requires i < |es| && dir <= es[i] && OpensRun(es, i, |dir|)
    requires FirstSlash(es[i], |dir|) == Some(p)
    ensures var sub := es[i][..p + 1];
            var inner := Scan(es, i, sub);
            inner.next - i == CountUnder(es, sub) &&
            inner.next - i == SumSpans(inner.children) + CountLeaves(es, sub)
  {
    var sub := es[i][..p + 1];
    var inner := Scan(es, i, sub);
    OpenedChildRun(es, i, dir, p);
    ScanSpans(es, i, sub);
    CountsFromRun(es, sub, i, inner.next, inner.children);
  }

  /** A directory whose entries are exactly those at indices i..m-1: its
      counts over the whole list, from the spans found over that run. */
  lemma CountsFromRun(es: seq<Path>, sub: Path, i: nat, m: nat, children: seq<Tree>)
    requires i <= m <= |es|
    requires forall k | 0 <= k < |es| :: sub <= es[k] <==> i <= k < m
    requires SumSpans(children) + CountLeaves(es[i..m], sub) == m - i
    ensures m - i == CountUnder(es, sub) && m - i == SumSpans(children) + CountLeaves(es, sub)
  {
    CountRun(es, i, m, sub);
  }

  /** Every entry below the child a scan opens at entry `i` is one of its
      files or lies in one of its children, over sorted entries. */
  lemma OpenedChildCovers(es: seq<Path>, i: nat, dir: Path, p: nat)
    requires StrictlySorted(es)
    requires i < |es| && dir <= es[i] && OpensRun(es, i, |dir|)
    requires FirstSlash(es[i], |dir|) == Some(p)
    ensures var sub := es[i][..p + 1];
            forall k | 0 <= k < |es| && sub <= es[k] ::
              IsLeafOf(sub, es[k]) || exists c | c in Scan(es, i, sub).children :: c.path <= es[k]
  {
    OpenedChildRun(es, i, dir, p);
    ScanCovers(es, i, es[i][..p + 1]);
  }

  /** The child a scan opens at entry `i` is `Derived`. */
  lemma {:induction false} ChildDerived(es: seq<Path>, i: nat, dir: Path, p: nat)
    requires StrictlySorted(es) && AllValid(es)
    requires i < |es| && dir <= es[i] && DirPath(dir) && OpensRun(es, i, |dir|)
    requires FirstSlash(es[i], |dir|) == Some(p)
    ensures Derived(es, OpenedChild(es, i, dir, p))
    decreases |es| - i, |es[i]| - |dir|, 1
  {
    ChildCounts(es, i, dir, p);
    ChildSubtrees(es, i, dir, p);
    DerivedNode(es, OpenedChild(es, i, dir, p));
  }

  /** The counts and coverage `Derived` asks of the child a scan opens at
      entry `i`. */
  lemma ChildCounts(es: seq<Path>, i: nat, dir: Path, p: nat)
    requires StrictlySorted(es)
    requires i < |es| && dir <= es[i] && OpensRun(es, i, |dir|)
    requires FirstSlash(es[i], |dir|) == Some(p)
    ensures var t := OpenedChild(es, i, dir, p);
            !t.valid &&
            t.span == CountUnder(es, t.path) && t.span == SumSpans(t.children) + CountLeaves(es, t.path) &&
            forall k | 0 <= k < |es| && t.path <= es[k] ::
              IsLeafOf(t.path, es[k]) || exists c | c in t.children :: c.path <= es[k]
  {
    OpenedChildCounts(es, i, dir, p);
    OpenedChildCovers(es, i, dir, p);
  }

  /** The sub-directories of the child a scan opens at entry `i`: in git
      tree order, one level down, and themselves `Derived`. */
  lemma {:induction false} ChildSubtrees(es: seq<Path>, i: nat, dir: Path, p: nat)
    requires StrictlySorted(es) && AllValid(es)
    requires i < |es| && dir <= es[i] && DirPath(dir) && OpensRun(es, i, |dir|)
    requires FirstSlash(es[i], |dir|) == Some(p)
    ensures var sub := es[i][..p + 1];
            var cs := Scan(es, i, sub).children;
            GitOrdered(cs) &&
            (forall c | c in cs ::
               ValidName(c.name) && c.path == sub + c.name + [SLASH] && c.span > 0 && !c.valid) &&
            forall c | c in cs :: Derived(es, c)
    decreases |es| - i, |es[i]| - |dir|, 0
  {
    var sub := es[i][..p + 1];
    OpenedChildOpensRun(es, i, dir, p);
    ScanDerived(es, i, sub);
    ScanChildren(es, i, sub);
  }

  /** `Derived` from its parts. */
  lemma DerivedNode(es: seq<Path>, t: Tree)
    requires !t.valid
    requires t.span == CountUnder(es, t.path) && t.span == SumSpans(t.children) + CountLeaves(es, t.path)
    requires forall k | 0 <= k < |es| && t.path <= es[k] ::
               IsLeafOf(t.path, es[k]) || exists c | c in t.children :: c.path <= es[k]
    requires GitOrdered(t.children)
    requires forall c | c in t.children ::
               ValidName(c.name) && c.path == t.path + c.name + [SLASH] && c.span > 0 && !c.valid
    requires forall c | c in t.children :: Derived(es, c)
    ensures Derived(es, t)
  {
  }

  /** The cache tree built over a sorted list of well-formed paths is
      exactly the directory structure of those paths. */
  lemma BuildRootDerived(es: seq<Path>)
    requires StrictlySorted(es) && AllValid(es)
    ensures Derived(es, BuildRoot(es))
  {
    var s := Scan(es, 0, []);
    var t := BuildRoot(es);
    assert t.children == s.children && t.span == s.next == |es|;
    RootCounts(es);
    ScanChildren(es, 0, []);
    ScanDerived(es, 0, []);
    forall c | c in t.children
      ensures c.path == t.path + c.name + [SLASH]
    {
      assert [] + c.name == c.name;
    }
  }

  /** The root's counts: it spans every entry, all of them its files or in
      its children. */
  lemma RootCounts(es: seq<Path>)
    ensures var s := Scan(es, 0, []);
            s.next == |es| == CountUnder(es, []) &&
            s.next == SumSpans(s.children) + CountLeaves(es, []) &&
            forall k | 0 <= k < |es| :: IsLeafOf([], es[k]) || exists c | c in s.children :: c.path <= es[k]
  {
    var s := Scan(es, 0, []);
    ScanRun(es, 0, []);
    assert es[0..s.next] == es;
    CountAllUnder(es, []);
    ScanSpans(es, 0, []);
    ScanCovers(es, 0, []);
  }
}
