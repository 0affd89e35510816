# jgit DirCache cache tree, in Dafny

jgit keeps the git index (`DirCache`) as a flat list of entries sorted by
path bytes, then stage. On top of that list it builds a *cache tree* on
demand: one `DirCacheTree` node per directory. Each node records:

- its name (last component, empty for the root);
- its path (every component followed by `/`, empty for the root);
- its sub-directories, in order;
- its entry span (how many consecutive entries lie at or below it);
- a `valid` flag (whether a tree object id has been recorded).

This project models that structure and the objects that hold it:

- `Paths` (`paths.dfy`): paths as byte strings and their unsigned
  lexicographic order. Also the well-formedness check an index entry's path
  must pass, and the search for the next `/`.
- `CacheTree` (`cache_tree.dfy`): the cache tree as a value. `Scan` walks
  the sorted entries the way a fresh node is filled:
  - an entry with no `/` after the node's path is one of its files;
  - a run of entries sharing the next component becomes one child, built
    the same way one level down;
  - the first entry outside the node's path ends the node.

  `Derived` describes the same tree without reference to the walk:
  - spans count the entries below a node;
  - spans split into the children's spans plus the node's own files;
  - every entry is covered;
  - the children are in git tree order and one level down.

  `BuildRootDerived` proves that the walk yields exactly that tree for every
  sorted list of valid paths.
- `TreeNodes` (`dir_cache_tree.dfy`): the `DirCacheTree` class. Its nodes
  hold an updatable child list. `Validate` fills a node by a loop over the
  entries and is proved to produce the node `Scan` describes. The getters
  read the node's fields.
- `Index` (`dir_cache.dfy`): the `DirCache` class with its sorted entry list
  and lazily built root. Also the `DirCacheBuilder`, which collects entries
  and, on finish, installs them in index order or refuses a duplicate path.
- `TreeTests` (`dir_cache_tree_test.dfy`): the scenarios of
  `DirCacheTreeTest`, each stated twice:
  - as a fact about the tree value;
  - as a method that drives the index objects step by step, the way the
    test does, with its assertions as postconditions.

## Model

| member | source | states |
|---|---|---|
| Paths.IsValidPath | org.eclipse.jgit.test/tst/org/eclipse/jgit/dircache/DirCacheTreeTest.java:183 | the byte loop accepts a path exactly when it is a valid entry path (`ValidPath`) |
| Paths.ValidPathMeans | org.eclipse.jgit.test/tst/org/eclipse/jgit/dircache/DirCacheTreeTest.java:183 | a path is valid iff it is non-empty, has no NUL byte, does not start or end with `/` and has no `//` |
| Paths.Slash | org.eclipse.jgit.test/tst/org/eclipse/jgit/dircache/DirCacheTreeTest.java:89-90 | the search for the next `/` from an offset returns its index, or a negative value exactly when there is none |
| Paths.FirstSlash | org.eclipse.jgit.test/tst/org/eclipse/jgit/dircache/DirCacheTreeTest.java:89-90 | the result is the least index at or after the offset holding `/`, and `None` exactly when there is none |
| Paths.LexLessTotal | org.eclipse.jgit.test/tst/org/eclipse/jgit/dircache/DirCacheTreeTest.java:89-92 | byte order on paths is total: of two distinct paths one sorts first |
| Paths.LexLessTransitive | org.eclipse.jgit.test/tst/org/eclipse/jgit/dircache/DirCacheTreeTest.java:89-92 | byte order on paths is transitive |
| Paths.LexLessIrreflexive | org.eclipse.jgit.test/tst/org/eclipse/jgit/dircache/DirCacheTreeTest.java:89-92 | no path sorts before itself |
| Paths.DirectoryOrder | org.eclipse.jgit.test/tst/org/eclipse/jgit/dircache/DirCacheTreeTest.java:115-118 | entries in two sibling directories sort as the directory names followed by `/` do |
| CacheTree.Scan | org.eclipse.jgit.test/tst/org/eclipse/jgit/dircache/DirCacheTreeTest.java:86-142 | a walk from entry `i` stops within the list, and takes at least one entry when entry `i` is inside the directory |
| CacheTree.BuildRoot | org.eclipse.jgit.test/tst/org/eclipse/jgit/dircache/DirCacheTreeTest.java:101-103 | the root has empty name and path, is not valid, and spans every entry of the index |
| CacheTree.ScanRun | org.eclipse.jgit.test/tst/org/eclipse/jgit/dircache/DirCacheTreeTest.java:91-92 | a node takes a maximal run of consecutive entries that begin with its path |
| CacheTree.ScanSpans | org.eclipse.jgit.test/tst/org/eclipse/jgit/dircache/DirCacheTreeTest.java:131-141 | a node's span is its children's spans plus the number of its own files |
| CacheTree.ScanCovers | org.eclipse.jgit.test/tst/org/eclipse/jgit/dircache/DirCacheTreeTest.java:86-109 | every entry a node takes is one of its files or lies below one of its children |
| CacheTree.ScanWitnesses | org.eclipse.jgit.test/tst/org/eclipse/jgit/dircache/DirCacheTreeTest.java:86-109 | every child has an entry below it |
| CacheTree.ScanChildren | org.eclipse.jgit.test/tst/org/eclipse/jgit/dircache/DirCacheTreeTest.java:105-108 | every child is named by one non-empty component, its path is the parent's path, that name and `/`, it spans at least one entry, and it is not valid |
| CacheTree.ScanDerived | org.eclipse.jgit.test/tst/org/eclipse/jgit/dircache/DirCacheTreeTest.java:111-142 | over sorted valid entries, every child found is `Derived` and the children are in git tree order |
| CacheTree.ChildDerived | org.eclipse.jgit.test/tst/org/eclipse/jgit/dircache/DirCacheTreeTest.java:133-141 | the child opened at an entry is `Derived`: it spans exactly the entries below its path, which split into its children and its files |
| CacheTree.RootCounts | org.eclipse.jgit.test/tst/org/eclipse/jgit/dircache/DirCacheTreeTest.java:103 | the root spans the whole list, which splits into its children's spans and its own files, and covers every entry |
| CacheTree.BuildRootDerived | org.eclipse.jgit.test/tst/org/eclipse/jgit/dircache/DirCacheTreeTest.java:86-142 | the tree built over a sorted list of valid paths is exactly the directory structure `Derived` describes |
| TreeNodes.DirCacheTree.Root | org.eclipse.jgit.test/tst/org/eclipse/jgit/dircache/DirCacheTreeTest.java:69 | the root that `getCacheTree(true)` creates: empty name and path, no children, span 0, not valid, a fresh object owning only itself |
| TreeNodes.DirCacheTree.Child | org.eclipse.jgit.test/tst/org/eclipse/jgit/dircache/DirCacheTreeTest.java:101 | the node made for a newly met directory: the given name and path, no children, span 0, not valid, a fresh object owning only itself |
| TreeNodes.DirCacheTree.InsertChild | org.eclipse.jgit.test/tst/org/eclipse/jgit/dircache/DirCacheTreeTest.java:105-108 | the child list gains the filled node at its end and the node now owns it; span, valid flag and `Shape` are unchanged, and the children stay distinct valid nodes |
| TreeNodes.DirCacheTree.Validate | org.eclipse.jgit.test/tst/org/eclipse/jgit/dircache/DirCacheTreeTest.java:101 | filling a fresh node by the loop over the entries (its body `FillChild`, which opens a child with `OpenChild` and appends it) gives the node `Scan` describes: its children, its span, not valid |
| TreeNodes.DirCacheTree.GetChildCount | org.eclipse.jgit.test/tst/org/eclipse/jgit/dircache/DirCacheTreeTest.java:193 | the number of children of the node's tree |
| TreeNodes.DirCacheTree.GetChild | org.eclipse.jgit.test/tst/org/eclipse/jgit/dircache/DirCacheTreeTest.java:105-107 | the `i`-th child object, which is the one stored in the node (so the same object on every call) and stands for the `i`-th child of the tree |
| TreeNodes.DirCacheTree.GetEntrySpan | org.eclipse.jgit.test/tst/org/eclipse/jgit/dircache/DirCacheTreeTest.java:194 | the node's span |
| TreeNodes.DirCacheTree.GetNameString | org.eclipse.jgit.test/tst/org/eclipse/jgit/dircache/DirCacheTreeTest.java:191 | the node's name |
| TreeNodes.DirCacheTree.GetPathString | org.eclipse.jgit.test/tst/org/eclipse/jgit/dircache/DirCacheTreeTest.java:192 | the node's path |
| TreeNodes.DirCacheTree.IsValid | org.eclipse.jgit.test/tst/org/eclipse/jgit/dircache/DirCacheTreeTest.java:195 | the node's valid flag |
| Index.DirCache.constructor | org.eclipse.jgit.test/tst/org/eclipse/jgit/dircache/DirCacheTreeTest.java:62 | a new index has no entries and no cache tree |
| Index.DirCache.GetCacheTree | org.eclipse.jgit.test/tst/org/eclipse/jgit/dircache/DirCacheTreeTest.java:174-178 | without `build`, the existing root or null; with `build`, a new root over the entries the first time and the same object afterwards |
| Index.DirCache.Clear | org.eclipse.jgit.test/tst/org/eclipse/jgit/dircache/DirCacheTreeTest.java:80 | the index has no entries and no cache tree afterwards |
| Index.DirCache.Replace | org.eclipse.jgit.test/tst/org/eclipse/jgit/dircache/DirCacheTreeTest.java:98 | the step of `finish` that installs the sorted list: the entries become exactly that list and the cache tree is dropped |
| Index.DirCache.GetEntryCount | org.eclipse.jgit.test/tst/org/eclipse/jgit/dircache/DirCacheTreeTest.java:103 | the number of entries |
| Index.DirCacheBuilder.constructor | org.eclipse.jgit.test/tst/org/eclipse/jgit/dircache/DirCacheTreeTest.java:94 | `dc.builder()` gives a builder bound to that index with nothing queued |
| Index.DirCacheBuilder.Add | org.eclipse.jgit.test/tst/org/eclipse/jgit/dircache/DirCacheTreeTest.java:96 | the entry is queued after those added before |
| Index.DirCacheBuilder.Finish | org.eclipse.jgit.test/tst/org/eclipse/jgit/dircache/DirCacheTreeTest.java:98 | succeeds iff no path was added twice; then the index holds exactly the queued paths in index order and has no cache tree; otherwise it names a path that was queued more than once, and the index is unchanged |
| Index.Insert | org.eclipse.jgit.test/tst/org/eclipse/jgit/dircache/DirCacheTreeTest.java:98 | placing a path into a sorted list keeps it sorted and adds exactly that path, or reports that it is already there |
| Index.SortedUnique | org.eclipse.jgit.test/tst/org/eclipse/jgit/dircache/DirCacheTreeTest.java:98 | two sorted lists holding the same paths are equal, so the finished index does not depend on the order of `add` calls |
| Index.SortedNoDuplicates | org.eclipse.jgit.test/tst/org/eclipse/jgit/dircache/DirCacheTreeTest.java:94-98 | entries added in index order contain no duplicate, so finishing them succeeds |
| TreeTests.EmptyTree | org.eclipse.jgit.test/tst/org/eclipse/jgit/dircache/DirCacheTreeTest.java:73 | the tree of an empty index is a root with name "", path "", no children, span 0, not valid |
| TreeTests.SingleSubtreeTree | org.eclipse.jgit.test/tst/org/eclipse/jgit/dircache/DirCacheTreeTest.java:89-108 | for "a-", "a/b", "a/c", "a/d", "a0b" the root spans 5 and has the one child "a" with path "a/", no children and span 3 |
| TreeTests.TwoLevelTree | org.eclipse.jgit.test/tst/org/eclipse/jgit/dircache/DirCacheTreeTest.java:115-141 | for "a-", "a/b", "a/c/e", "a/c/f", "a/d", "a0b" the root spans 6 with child "a" ("a/", one child, span 4), whose child is "c" ("a/c/", no children, span 2) |
| TreeTests.LongNamesTree | org.eclipse.jgit.test/tst/org/eclipse/jgit/dircache/DirCacheTreeTest.java:157-171 | for any components `A`, `B`, the entries `A-`, `A-B`, `A/B`, `A0B` give a root of span 4 with exactly one child `A`, spanning one entry |
| TreeTests.LongNamesWellFormed | org.eclipse.jgit.test/tst/org/eclipse/jgit/dircache/DirCacheTreeTest.java:159-161 | those four paths are valid and already in index order |
| TreeTests.LongNamesAreComponents | org.eclipse.jgit.test/tst/org/eclipse/jgit/dircache/DirCacheTreeTest.java:157-158 | the 2001-byte names the test formats are single path components |
| TreeTests.SingleSubtreeWellFormed | org.eclipse.jgit.test/tst/org/eclipse/jgit/dircache/DirCacheTreeTest.java:89-90 | the five paths are valid and in index order |
| TreeTests.TwoLevelWellFormed | org.eclipse.jgit.test/tst/org/eclipse/jgit/dircache/DirCacheTreeTest.java:115-116 | the six paths are valid and in index order |
| TreeTests.ReadData | org.eclipse.jgit.test/tst/org/eclipse/jgit/dircache/DirCacheTreeTest.java:189-196 | the name, path, child count, span and valid flag read from a node are those of its tree |
| TreeTests.CreateDirCacheEntries | org.eclipse.jgit.test/tst/org/eclipse/jgit/dircache/DirCacheTreeTest.java:180-187 | one entry per path, in order, and failure exactly when some path is not valid |
| TreeTests.AddAll | org.eclipse.jgit.test/tst/org/eclipse/jgit/dircache/DirCacheTreeTest.java:95-97 | the loop queues every entry on the builder, in order |
| TreeTests.IndexOf | org.eclipse.jgit.test/tst/org/eclipse/jgit/dircache/DirCacheTreeTest.java:87-98 | an index filled through a builder from paths in index order holds exactly those paths and no cache tree |
| TreeTests.SingleSubtreeIndex | org.eclipse.jgit.test/tst/org/eclipse/jgit/dircache/DirCacheTreeTest.java:87-98 | the index of the single sub-directory scenario has 5 entries, no tree yet, and the tree `SingleSubtreeTree` states |
| TreeTests.TwoLevelIndex | org.eclipse.jgit.test/tst/org/eclipse/jgit/dircache/DirCacheTreeTest.java:113-126 | the index of the two-level scenario has 6 entries, no tree yet, and the tree `TwoLevelTree` states |
| TreeTests.EmptyCacheNoCacheTree | org.eclipse.jgit.test/tst/org/eclipse/jgit/dircache/DirCacheTreeTest.java:61-64 | a new index returns no cache tree without `build` |
| TreeTests.EmptyCacheCreateEmptyCacheTree | org.eclipse.jgit.test/tst/org/eclipse/jgit/dircache/DirCacheTreeTest.java:67-74 | the forced builds return a root (not null); that root is returned again with and without `build`, and reads "", "", 0, 0, false |
| TreeTests.EmptyCacheClearNoCacheTree | org.eclipse.jgit.test/tst/org/eclipse/jgit/dircache/DirCacheTreeTest.java:77-83 | the forced build returns a root; after `Clear` there is no cache tree without `build`, and building again returns a root that is a different object |
| TreeTests.SingleSubtree | org.eclipse.jgit.test/tst/org/eclipse/jgit/dircache/DirCacheTreeTest.java:86-109 | no tree before the forced build; the same root on a second build; root reads "", "", 1, 5, false; the same child on two calls, reading "a", "a/", 0, 3, false |
| TreeTests.TwoLevelSubtree | org.eclipse.jgit.test/tst/org/eclipse/jgit/dircache/DirCacheTreeTest.java:111-142 | no tree before the forced build; the same root; root reads "", "", 1, 6, false; "a" reads "a/", 1, 4, false; "c" reads "a/c/", 0, 2, false; each child the same object on two calls |
| TreeTests.WriteReadTree | org.eclipse.jgit.test/tst/org/eclipse/jgit/dircache/DirCacheTreeTest.java:154-172 | for any components `A`, `B`, the index of the four long-name entries has 4 entries and its cache tree has one child |
| TreeTests.WriteReadTreeWithTestNames | org.eclipse.jgit.test/tst/org/eclipse/jgit/dircache/DirCacheTreeTest.java:157-171 | the same with the test's 2001-byte names: 4 entries, one child |

## Left out

- DirCache.java, DirCacheTree.java, DirCacheBuilder.java and DirCacheEntry.java
  are not modelled line by line; the model follows the behaviour
  DirCacheTreeTest.java asserts.
- Index.DirCache.GetCacheTree: with `build` on an existing root, jgit
  validates that root again against the current entries, reusing unchanged
  subtrees. Here the existing root is returned untouched. Every operation
  that changes the entries (`Clear`, `Replace`, `Finish`) drops the root,
  so the root always matches the entries, and the identity the test
  asserts is kept. Incremental reuse of subtrees after edits, and removal of
  obsolete subtrees, are left out.
- Computing tree object ids, writing tree objects and setting `valid` to
  true are left out. They hash data and write to the object database.
  Every node built here is not valid.
- TreeTests.WriteReadTree: the test writes the index to disk (`lockDirCache`,
  `commit`) and counts the entries of a freshly read copy. Here the count is
  taken from the same index that was filled. The file format and disk I/O
  are not modelled.
- File modes of entries (`setFileMode`) are left out. The cache tree depends
  only on the sorted path bytes.
- Paths.ValidPath: jgit's entry-path check also refuses components such as
  `.`, `..` and `.git`, and applies platform-specific rules. Only the
  structural rules are modelled: non-empty, no NUL, no empty component.
- Index.DirCacheBuilder.Finish: jgit sorts the added entries and then scans
  for adjacent duplicates, throwing on one. Here entries are placed into
  order one by one and a duplicate is returned as a `Failure`. The
  resulting list is the same, by `Index.SortedUnique`.
- Index.DirCache, Index.DirCacheBuilder.Finish: merge stages are left out.
  Every entry is a stage-0 entry, so a path occurs at most once. jgit
  orders entries by path and then by stage, holds up to three entries
  (stages 1 to 3) for a conflicted path, each counted in its directory's
  span, and refuses only a path repeated at the same stage or stage 0
  mixed with stages 1 to 3.
- Index.DirCacheBuilder.Add: jgit's `add` already throws when a path equals
  the one added just before it while entries arrive in order; only
  unsorted input is left to `finish`. Here every duplicate, adjacent or
  not, is reported by `Finish`.
- CacheTree.Scan and TreeNodes.DirCacheTree.Validate do not check that the
  entries are sorted; an unsorted list would be split into runs as it
  stands. `Index.DirCache.Valid` keeps the entries strictly sorted, so
  the index never hands them an unsorted list.
- Index.DirCacheBuilder.Add: it requires a valid path, because an entry
  with an invalid path cannot be constructed in the first place (see
  `TreeTests.CreateDirCacheEntries`).
- TreeNodes.DirCacheTree.GetChild: Java throws on an index out of range. The
  model requires the index to be in range instead.
- Paths are byte strings. Java strings are encoded to UTF-8 before they
  become entry paths. The test's paths are ASCII, so they are written here
  as their bytes.
- Counters are unbounded integers. Java's `int` cannot overflow here,
  because a span never exceeds the number of entries.
