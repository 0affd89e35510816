/**
  Index paths as raw bytes, the order the index keeps them in, and the
  facts about that order that the cache tree relies on.
 */
module Paths {
  import opened Wrappers

  newtype byte = x: int | 0 <= x < 256

  /** A path of the index, as the bytes of its UTF-8 encoding. */
  type Path = seq<byte>

  const SLASH: byte := 0x2F

  /** Unsigned byte-by-byte comparison where a proper prefix sorts first:
      the order of entries in the index. */
  predicate LexLess(a: Path, b: Path)
    decreases |a|
  {
    |b| > 0 && (|a| == 0 || a[0] < b[0] || (a[0] == b[0] && LexLess(a[1..], b[1..])))
  }

  /** Each entry sorts strictly before the next one: ordered, no duplicates. */
  predicate StrictlySorted(es: seq<Path>)
    decreases |es|
  {
    |es| <= 1 || (LexLess(es[0], es[1]) && StrictlySorted(es[1..]))
  }

  /** Every path of the list obeys `ValidPath`. */
  predicate AllValid(es: seq<Path>)
    decreases |es|
  {
    es == [] || (ValidPath(es[0]) && AllValid(es[1..]))
  }

  /** The rule an index entry's path obeys: not empty, no NUL byte, and
      every '/'-separated component non-empty (so no leading, trailing or
      doubled '/'). */
  predicate ValidPath(p: Path)
  {
    |p| > 0 && ValidFrom(p, 0, false)
  }

  /** `ValidPath` read from byte `k` on, where `inComponent` says whether
      the current component already has a byte. */
  predicate ValidFrom(p: Path, k: nat, inComponent: bool)
    decreases |p| - k
  {
    if k >= |p| then inComponent
    else if p[k] == 0 then false
    else if p[k] == SLASH then inComponent && ValidFrom(p, k + 1, false)
    else ValidFrom(p, k + 1, true)
  }

  /** No NUL byte at or after index `j`. */
  ghost predicate NoNulFrom(p: Path, j: nat)
  {
    forall k | j <= k < |p| :: p[k] != 0
  }

  /** No two adjacent '/' at or after index `j`. */
  ghost predicate NoDoubleSlashFrom(p: Path, j: nat)
  {
    forall a, b | j <= a < b < |p| && b == a + 1 :: !(p[a] == SLASH && p[b] == SLASH)
  }

  /** The path rule in plain terms: not empty, no NUL, no leading, trailing
      or doubled '/'. */
  lemma ValidPathMeans(p: Path)
    ensures ValidPath(p) <==>
              |p| > 0 && NoNulFrom(p, 0) && p[0] != SLASH && p[|p| - 1] != SLASH &&
              NoDoubleSlashFrom(p, 0)
  {
    if |p| > 0 {
      ValidFromMeans(p, 0, false);
    }
  }

  lemma {:induction false} ValidFromMeans(p: Path, j: nat, inComponent: bool)
    requires j <= |p|
    ensures ValidFrom(p, j, inComponent) <==>
              NoNulFrom(p, j) && NoDoubleSlashFrom(p, j) &&
              (j < |p| && p[j] == SLASH ==> inComponent) &&
              (if j < |p| then p[|p| - 1] != SLASH else inComponent)
    decreases |p| - j
  {
    if j < |p| {
      ValidFromMeans(p, j + 1, p[j] != SLASH);
      assert NoNulFrom(p, j) <==> p[j] != 0 && NoNulFrom(p, j + 1);
      assert NoDoubleSlashFrom(p, j) <==>
               (j + 1 < |p| ==> !(p[j] == SLASH && p[j + 1] == SLASH)) && NoDoubleSlashFrom(p, j + 1);
    }
  }

  /** The byte loop that checks an entry's path: `ok` says whether `p`
      obeys `ValidPath`. */
  method IsValidPath(p: Path) returns (ok: bool)
    ensures ok == ValidPath(p)
  {
    if |p| == 0 {
      return false;
    }
    var inComponent := false;
    var k := 0;
    while k < |p|
      invariant 0 <= k <= |p|
      invariant ValidPath(p) == ValidFrom(p, k, inComponent)
    {
      if p[k] == 0 {
        return false;
      } else if p[k] == SLASH {
        if !inComponent {
          return false;
        }
        inComponent := false;
      } else {
        inComponent := true;
      }
      k := k + 1;
    }
    return inComponent;
  }

  /** A directory name: non-empty and free of '/'. */
  predicate ValidName(n: Path)
  {
    |n| > 0 && forall k | 0 <= k < |n| :: n[k] != SLASH
  }

  /** The position of the first '/' of `s` at or after `from`, if any. */
  function FirstSlash(s: Path, from: nat): (r: Option<nat>)
    ensures r.Some? ==> from <= r.value < |s| && s[r.value] == SLASH &&
                        forall k | from <= k < r.value :: s[k] != SLASH
    ensures r.None? ==> forall k | from <= k < |s| :: s[k] != SLASH
    decreases |s| - from
  {
    if from >= |s| then None
    else if s[from] == SLASH then Some(from)
    else FirstSlash(s, from + 1)
  }

  /** The byte loop behind `FirstSlash`: the index of the first '/' at or
      after `from`, or -1 when there is none. */
  method Slash(s: Path, from: nat) returns (r: int)
    ensures r < 0 <==> FirstSlash(s, from).None?
    ensures r >= 0 ==> FirstSlash(s, from) == Some(r as nat)
  {
    var k := from;
    while k < |s|
      invariant from <= k
      invariant FirstSlash(s, k) == FirstSlash(s, from)
      decreases |s| - k
    {
      if s[k] == SLASH {
        return k;
      }
      k := k + 1;
    }
    return -1;
  }

  /** The directory, one level below offset `off`, that `s` lies in:
      `s` up to and including its first '/' at or after `off`. */
  function SubdirOf(s: Path, off: nat): Option<Path>
  {
    match FirstSlash(s, off)
    case None => None
    case Some(p) => Some(s[..p + 1])
  }

  lemma {:induction false} LexLessIrreflexive(a: Path)
    ensures !LexLess(a, a)
    decreases |a|
  {
    if |a| > 0 {
      LexLessIrreflexive(a[1..]);
    }
  }

  lemma {:induction false} LexLessTransitive(a: Path, b: Path, c: Path)
    requires LexLess(a, b) && LexLess(b, c)
    ensures LexLess(a, c)
    decreases |a|
  {
    if |a| > 0 && a[0] == b[0] == c[0] {
      LexLessTransitive(a[1..], b[1..], c[1..]);
    }
  }

  lemma {:induction false} SortedPair(es: seq<Path>, a: nat, b: nat)
    requires StrictlySorted(es) && a < b < |es|
    ensures LexLess(es[a], es[b])
    decreases b
  {
    if a > 0 {
      SortedPair(es[1..], a - 1, b - 1);
    } else if b > 1 {
      SortedPair(es[1..], 0, b - 1);
      LexLessTransitive(es[0], es[1], es[b]);
    }
  }

  lemma {:induction false} SlashAfterByte(p: Path, j: nat, inComponent: bool, k: nat)
    requires ValidFrom(p, j, inComponent) && j <= k < |p| && p[k] == SLASH
    ensures if k == j then inComponent else p[k - 1] != SLASH
    decreases k - j
  {
    if j < k {
      SlashAfterByte(p, j + 1, p[j] != SLASH, k);
    }
  }

  /** In a valid path, the first byte of a component is not '/'. */
  lemma ComponentStart(p: Path, k: nat)
    requires ValidPath(p) && k < |p| && (k == 0 || p[k - 1] == SLASH)
    ensures p[k] != SLASH
  {
    if p[k] == SLASH {
      SlashAfterByte(p, 0, false, k);
    }
  }

  lemma {:induction false} AllValidAt(es: seq<Path>, k: nat)
    requires AllValid(es) && k < |es|
    ensures ValidPath(es[k])
    decreases k
  {
    if k > 0 {
      AllValidAt(es[1..], k - 1);
    }
  }

  /** The converse of `AllValidAt`: a list whose every path is valid. */
  lemma {:induction false} AllValidFromEach(es: seq<Path>)
    requires forall k | 0 <= k < |es| :: ValidPath(es[k])
    ensures AllValid(es)
    decreases |es|
  {
    if es != [] {
      assert forall k | 0 <= k < |es[1..]| :: es[1..][k] == es[k + 1];
      AllValidFromEach(es[1..]);
    }
  }

  lemma {:induction false} LexLessTotal(a: Path, b: Path)
    requires a != b
    ensures LexLess(a, b) || LexLess(b, a)
    decreases |a|
  {
    if |a| > 0 && |b| > 0 && a[0] == b[0] {
      assert a == [a[0]] + a[1..] && b == [b[0]] + b[1..];
      LexLessTotal(a[1..], b[1..]);
    }
  }

  /** A proper prefix sorts first. */
  lemma {:induction false} LexLessProperPrefix(p: Path, q: Path)
    requires |q| > 0
    ensures LexLess(p, p + q)
    decreases |p|
  {
    if |p| > 0 {
      assert (p + q)[0] == p[0];
      assert (p + q)[1..] == p[1..] + q;
      LexLessProperPrefix(p[1..], q);
    }
  }

  /** A common prefix does not change the order. */
  lemma {:induction false} LexLessExtend(d: Path, u: Path, v: Path)
    requires LexLess(u, v)
    ensures LexLess(d + u, d + v)
    decreases |d|
  {
    if |d| > 0 {
      assert (d + u)[0] == d[0] == (d + v)[0];
      assert (d + u)[1..] == d[1..] + u && (d + v)[1..] == d[1..] + v;
      LexLessExtend(d[1..], u, v);
    } else {
      assert d + u == u && d + v == v;
    }
  }

  /** Under a common leading part, the order is decided by what follows it. */
  lemma {:induction false} LexLessCommonPrefix(d: Path, u: Path, v: Path)
    requires LexLess(d + u, d + v)
    ensures LexLess(u, v)
    decreases |d|
  {
    if |d| > 0 {
      assert (d + u)[0] == d[0] == (d + v)[0];
      assert (d + u)[1..] == d[1..] + u && (d + v)[1..] == d[1..] + v;
      LexLessCommonPrefix(d[1..], u, v);
    } else {
      assert d + u == u && d + v == v;
    }
  }

  /** The paths beginning with a given prefix form one contiguous block of
      the order: anything sorted between two of them begins with it too. */
  lemma {:induction false} PrefixConvex(pre: Path, x: Path, y: Path, z: Path)
    requires LexLess(x, y) && LexLess(y, z)
    requires pre <= x && pre <= z
    ensures pre <= y
    decreases |pre|
  {
    if |pre| > 0 {
      assert x[0] == pre[0] == z[0];
      assert y[0] == pre[0];
      PrefixConvex(pre[1..], x[1..], y[1..], z[1..]);
    }
  }

  /** `a` is a directory name followed by its '/': the only '/' is the last byte. */
  ghost predicate Segment(a: Path)
  {
    |a| > 0 && a[|a| - 1] == SLASH && forall k | 0 <= k < |a| - 1 :: a[k] != SLASH
  }

  lemma {:induction false} SegmentOrder(a: Path, b: Path, x: Path, y: Path)
    requires Segment(a) && Segment(b)
    requires LexLess(a + x, b + y) && !(a <= b + y)
    ensures LexLess(a, b)
    decreases |a|
  {
    assert (a + x)[0] == a[0] && (b + y)[0] == b[0];
    if a[0] == b[0] && a[0] != SLASH {
      assert (a + x)[1..] == a[1..] + x && (b + y)[1..] == b[1..] + y;
      SegmentOrder(a[1..], b[1..], x, y);
    }
  }

  /** Two directories of one parent `d` met in sorted entries `x` before
      `y` (with `y` outside the first one) are in git tree order: the names,
      each followed by '/', compare as bytes. */
  lemma DirectoryOrder(d: Path, m: Path, n: Path, x: Path, y: Path)
    requires ValidName(m) && ValidName(n)
    requires d + m + [SLASH] <= x && d + n + [SLASH] <= y
    requires LexLess(x, y) && !(d + m + [SLASH] <= y)
    ensures LexLess(m + [SLASH], n + [SLASH])
  {
    var a, b := m + [SLASH], n + [SLASH];
    assert x == d + (a + x[|d| + |a|..]) by {
      assert x[..|d| + |a|] == d + a;
    }
    assert y == d + (b + y[|d| + |b|..]) by {
      assert y[..|d| + |b|] == d + b;
    }
    LexLessCommonPrefix(d, a + x[|d| + |a|..], b + y[|d| + |b|..]);
    SegmentOrder(a, b, x[|d| + |a|..], y[|d| + |b|..]);
  }

  /** Being a prefix is transitive. */
  lemma PrefixTransitive(a: Path, b: Path, c: Path)
    requires a <= b && b <= c
    ensures a <= c
  {
    forall k | 0 <= k < |a|
      ensures a[k] == c[k]
    {
      assert a[k] == b[k];
    }
  }

  lemma PrefixOfTake(a: Path, s: Path, n: nat)
    requires a <= s && |a| <= n <= |s|
    ensures a <= s[..n]
  {
    forall k | 0 <= k < |a|
      ensures a[k] == s[..n][k]
    {
      assert a[k] == s[k];
    }
  }

  /** The first '/' from `from` on is at `p` when `s[p]` is one and
      none comes before it. */
  lemma FirstSlashAt(s: Path, from: nat, p: nat)
    requires from <= p < |s| && s[p] == SLASH
    requires forall k | from <= k < p :: s[k] != SLASH
    ensures FirstSlash(s, from) == Some(p)
  {
  }

  /** The first '/' after `from` is found from the bytes up to it alone. */
  lemma {:induction false} FirstSlashAgree(s: Path, t: Path, from: nat, p: nat)
    requires FirstSlash(s, from) == Some(p)
    requires p < |t| && s[..p + 1] == t[..p + 1]
    ensures FirstSlash(t, from) == Some(p)
    decreases p - from
  {
    assert s[p] == t[p];
    if from < p {
      assert s[from] == t[from];
      FirstSlashAgree(s, t, from + 1, p);
    }
  }
}
