/**
  The on-disk store as a tree: deleting the data of one collector with upward pruning,
  deleting all collectors of an archive in any order, and deleting a zip
  (pkg/adapter/archive/file/baseFileRepository.go:79-112; pkg/usecase/delete_archive.go:23-52;
  pkg/adapter/archive/file/zipFileArchiveRepository.go:143-178).
 */
module WorkTree {
  import opened Domain

  datatype Node = Dir | File

  type Tree = map<Path, Node>

  function Parent(p: Path): Path
    requires p != []
  {
    p[..|p| - 1]
  }

  /** Everything but the root of the file system lies in a directory. */
  ghost predicate WellFormed(tree: Tree) {
    forall p :: p in tree && p != [] ==> Parent(p) in tree && tree[Parent(p)] == Dir
  }

  /** Some ancestor of the path is a file, so the path cannot even be looked up. */
  predicate Blocked(tree: Tree, p: Path) {
    exists q | q in tree :: q < p && tree[q] == File
  }

  predicate IsEmpty(tree: Tree, d: Path) {
    forall p | p in tree :: !(d < p)
  }

  function Without(tree: Tree, p: Path): Tree {
    map q | q in tree && !(p <= q) :: tree[q]
  }

  // ---------- the file system ----------

  /** Entries that cannot be removed, and directories that cannot be listed. */
  datatype Faults = Faults(removing: set<Path>, listing: set<Path>)

  const NO_FAULTS := Faults({}, {})

  /** RemoveAll succeeds also when there is nothing to remove, but not if an entry of the subtree cannot be removed. */
  predicate Deletable(tree: Tree, p: Path, faults: Faults) {
    !Blocked(tree, p) && forall r | r in faults.removing :: !(r in tree && p <= r)
  }

  /** The entry stays when p is removed with all below it: an entry at or below it cannot be removed. */
  predicate Stays(tree: Tree, p: Path, q: Path, faults: Faults) {
    exists r | r in faults.removing :: r in tree && p <= r && q <= r
  }

  /** What RemoveAll leaves: it removes all it can. */
  function Reduced(tree: Tree, p: Path, faults: Faults): Tree {
    map q | q in tree && (!(p <= q) || Stays(tree, p, q, faults)) :: tree[q]
  }

  predicate Removable(tree: Tree, p: Path, faults: Faults) {
    p !in faults.removing && p in tree && IsEmpty(tree, p)
  }

  class FileSystem {
    var tree: Tree
    var faults: Faults           // what is broken at the moment

    constructor (tree: Tree, faults: Faults)
      ensures this.tree == tree && this.faults == faults
    {
      this.tree, this.faults := tree, faults;
    }

    method RemoveAll(p: Path) returns (ok: bool)
      modifies this`tree
      ensures ok == Deletable(old(tree), p, faults)
      ensures tree == Reduced(old(tree), p, faults)
    {
      ok := Deletable(tree, p, faults);
      tree := Reduced(tree, p, faults);
    }

    method ReadDir(d: Path) returns (entries: set<Path>, ok: bool)
      ensures ok == (d !in faults.listing && d in tree && tree[d] == Dir)
      ensures ok ==> entries == set p | p in tree && d <= p && |p| == |d| + 1
    {
      ok := d !in faults.listing && d in tree && tree[d] == Dir;
      entries := set p | p in tree && d <= p && |p| == |d| + 1;
    }

    method Remove(p: Path) returns (ok: bool)
      modifies this`tree
      ensures ok == Removable(old(tree), p, faults)
      ensures tree == if ok then old(tree) - {p} else old(tree)
    {
      ok := Removable(tree, p, faults);
      if ok {
        tree := tree - {p};
      }
    }
  }

  lemma {:induction false} AncestorExists(tree: Tree, p: Path, q: Path)
    requires WellFormed(tree) && q in tree && p < q
    ensures p in tree && tree[p] == Dir
    decreases |q|
  {
    if Parent(q) != p {
      assert p < Parent(q);
      AncestorExists(tree, p, Parent(q));
    } else {
      assert Parent(q) in tree;
    }
  }

  /** A directory listing is empty exactly when nothing lies below the directory. */
  lemma ListingEmptyIff(tree: Tree, d: Path)
    requires WellFormed(tree)
    ensures (set p | p in tree && d <= p && |p| == |d| + 1) == {} <==> IsEmpty(tree, d)
  {
    var entries := set p | p in tree && d <= p && |p| == |d| + 1;
    if q :| q in tree && d < q {
      var child := q[..|d| + 1];
      assert child in tree by {
        if child != q {
          AncestorExists(tree, child, q);
        }
      }
      assert child in entries;
    }
  }

  // ---------- deleting one collector ----------

  /** Removes empty directories from d upwards, up to the root or the first that cannot be removed. */
  function Prune(tree: Tree, root: Path, d: Path, broken: set<Path>): Tree
    requires root <= d
    decreases |d|
  {
    if d == root || d in broken || d !in tree || tree[d] == File || !IsEmpty(tree, d) then tree
    else Prune(tree - {d}, root, Parent(d), broken)
  }

  function DeleteDir(tree: Tree, root: Path, dir: Path, faults: Faults): Tree
    requires root < dir
  {
    if Deletable(tree, dir, faults) then
      Prune(Without(tree, dir), root, Parent(dir), faults.removing + faults.listing)
    else Reduced(tree, dir, faults)
  }

  /** A RemoveAll that succeeds removes everything. */
  lemma DeletableReduces(tree: Tree, p: Path, faults: Faults)
    requires Deletable(tree, p, faults)
    ensures Reduced(tree, p, faults) == Without(tree, p)
  {
  }

  lemma ReducedWellFormed(tree: Tree, p: Path, faults: Faults)
    requires WellFormed(tree)
    ensures WellFormed(Reduced(tree, p, faults))
  {
  }

  lemma DeleteDirWithoutFaults(tree: Tree, root: Path, dir: Path)
    requires root < dir && !Blocked(tree, dir)
    ensures DeleteDir(tree, root, dir, NO_FAULTS) == Prune(Without(tree, dir), root, Parent(dir), {})
  {
    assert NO_FAULTS.removing + NO_FAULTS.listing == {};
  }

  lemma WithoutWellFormed(tree: Tree, p: Path)
    requires WellFormed(tree)
    ensures WellFormed(Without(tree, p))
  {
  }

  lemma LeafRemovalWellFormed(tree: Tree, d: Path)
    requires WellFormed(tree) && IsEmpty(tree, d)
    ensures WellFormed(tree - {d})
  {
    forall p | p in tree - {d} && p != [] ensures Parent(p) != d {
      assert Parent(p) < p;
    }
  }

  function IdDir(root: Path, id: SupportArchiveID): Path {
    root + [id.namespace, id.name]
  }

  function CollectorDir(root: Path, id: SupportArchiveID, col: CollectorType): Path {
    IdDir(root, id) + Domain.Dir(col)
  }

  /** baseFileRepository.Delete */
  method DeleteCollector(fs: FileSystem, workPath: Path, id: SupportArchiveID, col: CollectorType) returns (ok: bool)
    requires WellFormed(fs.tree)
    modifies fs`tree
    ensures WellFormed(fs.tree)
    ensures ok == Deletable(old(fs.tree), CollectorDir(workPath, id, col), fs.faults)
    ensures fs.tree == DeleteDir(old(fs.tree), workPath, CollectorDir(workPath, id, col), fs.faults)
  {
    var dirPath := CollectorDir(workPath, id, col);
    ok := fs.RemoveAll(dirPath);
    ReducedWellFormed(old(fs.tree), dirPath, fs.faults);
    if !ok {
      return;
    }
    DeletableReduces(old(fs.tree), dirPath, fs.faults);
    var parentDir := Parent(dirPath);
    assert workPath <= parentDir;
    ghost var goal := Prune(fs.tree, workPath, parentDir, fs.faults.removing + fs.faults.listing);
    while parentDir != workPath
      invariant workPath <= parentDir && WellFormed(fs.tree)
      invariant Prune(fs.tree, workPath, parentDir, fs.faults.removing + fs.faults.listing) == goal
      decreases |parentDir|
    {
      ListingEmptyIff(fs.tree, parentDir);
      var entries, readOk := fs.ReadDir(parentDir);
      if !readOk {
        break;
      }
      if entries == {} {
        LeafRemovalWellFormed(fs.tree, parentDir);
        var removed := fs.Remove(parentDir);
        if !removed {
          break;
        }
        parentDir := Parent(parentDir);
      } else {
        break;
      }
    }
  }

  /** Whatever fails, pruning keeps the tree well formed and removes nothing but ancestors it found empty. */
  lemma {:induction false} PruneIsSafe(tree: Tree, root: Path, d: Path, broken: set<Path>)
    requires WellFormed(tree) && root <= d
    ensures var after := Prune(tree, root, d, broken);
            && WellFormed(after)
            && (forall p :: p in after ==> p in tree && after[p] == tree[p])
            && (forall p :: p in tree && p !in after ==> root < p <= d && tree[p] == Dir)
    decreases |d|
  {
    if !(d == root || d in broken || d !in tree || tree[d] == File || !IsEmpty(tree, d)) {
      LeafRemovalWellFormed(tree, d);
      PruneIsSafe(tree - {d}, root, Parent(d), broken);
    }
  }

  /**
    Whatever fails, one Delete removes only entries of its own directory and ancestors of it
    below the work path, and never a directory that keeps an entry.
   */
  lemma DeleteIsSafe(tree: Tree, root: Path, dir: Path, faults: Faults)
    requires WellFormed(tree) && root < dir
    ensures var after := DeleteDir(tree, root, dir, faults);
            && WellFormed(after)
            && (forall p :: p in after ==> p in tree && after[p] == tree[p])
            && (forall p :: p in tree && p !in after ==> dir <= p || (root < p < dir && tree[p] == Dir))
            && (forall p, q :: p in tree && p !in after && p < q ==> q !in after)
  {
    var after := DeleteDir(tree, root, dir, faults);
    if Deletable(tree, dir, faults) {
      WithoutWellFormed(tree, dir);
      PruneIsSafe(Without(tree, dir), root, Parent(dir), faults.removing + faults.listing);
    } else {
      ReducedWellFormed(tree, dir, faults);
    }
    forall p, q | p in tree && p !in after && p < q ensures q !in after {
      if q in after {
        AncestorExists(after, p, q);
      }
    }
  }

  // ---------- what a set of deletions removes ----------

  /** An entry that lies in one of the deleted directories, or above one whose parent exists. */
  ghost predicate Dead(tree: Tree, dirs: set<Path>, q: Path) {
    exists c :: c in dirs && Kills(tree, c, q)
  }

  ghost predicate Kills(tree: Tree, c: Path, q: Path) {
    c <= q || (c != [] && q < c && Parent(c) in tree)
  }

  ghost predicate LiesIn(dirs: set<Path>, p: Path) {
    exists c :: c in dirs && c <= p
  }

  ghost predicate AllBelowDead(tree: Tree, dirs: set<Path>, p: Path) {
    forall q :: q in tree && p < q ==> Dead(tree, dirs, q)
  }

  /** Gone: in a deleted directory, or an ancestor of one below the root that is left with nothing alive. */
  ghost predicate Gone(tree: Tree, root: Path, dirs: set<Path>, p: Path) {
    LiesIn(dirs, p) || (root < p && Dead(tree, dirs, p) && AllBelowDead(tree, dirs, p))
  }

  /** The closed form of deleting all of dirs, whatever the order. */
  ghost function Remainder(tree: Tree, root: Path, dirs: set<Path>): Tree {
    map p | p in tree && !Gone(tree, root, dirs, p) :: tree[p]
  }

  ghost predicate PrefixFree(dirs: set<Path>) {
    forall a, b :: a in dirs && b in dirs && a <= b ==> a == b
  }

  lemma Comparable(a: Path, b: Path, q: Path)
    requires a <= q && b <= q
    ensures a <= b || b < a
  {
    if |a| <= |b| {
      assert a == q[..|a|] == b[..|a|];
    } else {
      assert b == q[..|b|] == a[..|b|];
    }
  }

  lemma LiesInBelow(dirs: set<Path>, m: Path, p: Path)
    requires m <= p
    ensures LiesIn(dirs, m) ==> LiesIn(dirs, p)
  {
    if c :| c in dirs && c <= m {
      assert c <= p;
    }
  }

  lemma PrefixOfParent(q: Path, d: Path)
    requires d != []
    ensures q < d <==> q <= Parent(d)
  {
    if q < d {
      assert q == d[..|q|] == Parent(d)[..|q|];
    }
  }

  lemma RemainderWellFormed(tree: Tree, root: Path, dirs: set<Path>)
    requires WellFormed(tree)
    ensures WellFormed(Remainder(tree, root, dirs))
  {
    forall p | p in Remainder(tree, root, dirs) && p != []
      ensures !Gone(tree, root, dirs, Parent(p))
    {
      var m := Parent(p);
      assert m < p;
      LiesInBelow(dirs, m, p);
    }
  }

  /** Below p there is nothing but ancestors of d and d itself. */
  ghost predicate OnlyChainBelow(tree: Tree, p: Path, d: Path) {
    forall q :: q in tree && p < q ==> q <= d
  }

  lemma ChainShrinks(tree: Tree, p: Path, d: Path)
    requires d != [] && IsEmpty(tree, d) && p < d
    ensures OnlyChainBelow(tree, p, d) <==> OnlyChainBelow(tree - {d}, p, Parent(d))
  {
    forall q | q in tree ensures q <= d <==> q == d || q <= Parent(d) {
      PrefixOfParent(q, d);
    }
    if OnlyChainBelow(tree - {d}, p, Parent(d)) {
      forall q | q in tree && p < q ensures q <= d {
        assert q == d || q in tree - {d};
      }
    }
  }

  /** No entry between p and d is broken. */
  ghost predicate Sound(broken: set<Path>, p: Path, d: Path) {
    forall b :: b in broken ==> !(p <= b && b <= d)
  }

  lemma PrefixOrEqual(b: Path, d: Path)
    ensures b <= d ==> b == d || b < d
  {
    if b <= d && |b| == |d| {
      assert b == d;
    }
  }

  lemma SoundBelow(broken: set<Path>, p: Path, d: Path)
    requires d != [] && p < d && d !in broken
    ensures Sound(broken, p, d) <==> Sound(broken, p, Parent(d))
  {
    forall b | b in broken ensures b <= d <==> b <= Parent(d) {
      PrefixOrEqual(b, d);
      PrefixOfParent(b, d);
    }
  }

  lemma OnlyItself(broken: set<Path>, d: Path)
    requires d !in broken
    ensures Sound(broken, d, d)
  {
    forall b | b in broken ensures !(d <= b && b <= d) {
      assert d <= b && b <= d ==> b == d;
    }
  }

  /** Pruning, exactly: what goes are the ancestors with nothing below them but the chain, and nothing broken on it. */
  lemma {:induction false} PruneExactly(tree: Tree, root: Path, d: Path, broken: set<Path>, p: Path)
    requires WellFormed(tree) && root <= d && (d in tree ==> tree[d] == Dir)
    ensures p in Prune(tree, root, d, broken) <==>
            p in tree && !(root < p <= d && d in tree && OnlyChainBelow(tree, p, d) && Sound(broken, p, d))
    decreases |d|
  {
    if d == root || d !in tree || d in broken {
    } else if !IsEmpty(tree, d) {
      if p <= d {
        var q :| q in tree && d < q;
        assert p < q && !(q <= d);
      }
    } else {
      LeafRemovalWellFormed(tree, d);
      PruneExactly(tree - {d}, root, Parent(d), broken, p);
      PrefixOfParent(p, d);
      assert Parent(d) in tree - {d};
      if p < d {
        ChainShrinks(tree, p, d);
        SoundBelow(broken, p, d);
      } else if p == d {
        assert OnlyChainBelow(tree, p, d);
        assert root < d;
        OnlyItself(broken, d);
      } else {
        assert !(p <= d);
      }
    }
  }

  // ---------- one more deletion, on closed forms ----------

  /** Deletions of pairwise separate directories below the root, none of them blocked by a file. */
  ghost predicate Separate(tree: Tree, root: Path, dirs: set<Path>) {
    PrefixFree(dirs) && forall c :: c in dirs ==> root < c && !Blocked(tree, c)
  }

  lemma GoneIsDead(tree: Tree, root: Path, dirs: set<Path>, q: Path)
    requires Gone(tree, root, dirs, q)
    ensures Dead(tree, dirs, q)
  {
    if c :| c in dirs && c <= q {
      assert Kills(tree, c, q);
    }
  }

  lemma DeadGrows(tree: Tree, dirs: set<Path>, c: Path, q: Path)
    ensures Dead(tree, dirs + {c}, q) <==> Dead(tree, dirs, q) || Kills(tree, c, q)
  {
    if Dead(tree, dirs, q) {
      var c' :| c' in dirs && Kills(tree, c', q);
      assert c' in dirs + {c};
    }
    if Kills(tree, c, q) {
      assert c in dirs + {c};
    }
  }

  lemma LiesInGrows(dirs: set<Path>, c: Path, p: Path)
    ensures LiesIn(dirs + {c}, p) <==> LiesIn(dirs, p) || c <= p
  {
    if LiesIn(dirs, p) {
      var c' :| c' in dirs && c' <= p;
      assert c' in dirs + {c};
    }
    if c <= p {
      assert c in dirs + {c};
    }
  }

  lemma GoneGrows(tree: Tree, root: Path, dirs: set<Path>, c: Path, p: Path)
    requires Gone(tree, root, dirs, p)
    ensures Gone(tree, root, dirs + {c}, p)
  {
    LiesInGrows(dirs, c, p);
    DeadGrows(tree, dirs, c, p);
    forall q | q in tree && p < q ensures !LiesIn(dirs, p) ==> Dead(tree, dirs + {c}, q) {
      DeadGrows(tree, dirs, c, q);
    }
  }

  /** An entry that is neither in c nor above its existing parent owes nothing to the deletion of c. */
  lemma NotBecauseOf(tree: Tree, root: Path, dirs: set<Path>, c: Path, p: Path)
    requires WellFormed(tree) && p in tree && c != []
    requires !(c <= p) && !(p < c && Parent(c) in tree)
    requires root < p && Dead(tree, dirs + {c}, p) && AllBelowDead(tree, dirs + {c}, p)
    ensures Gone(tree, root, dirs, p)
  {
    forall q | q in tree && p <= q ensures Dead(tree, dirs, q) {
      DeadGrows(tree, dirs, c, q);
      assert q == p || p < q;
      if Kills(tree, c, q) {
        if c <= q {
          Comparable(p, c, q);
          assert Parent(c) < q;
          AncestorExists(tree, Parent(c), q);
        }
      }
    }
  }

  /** A parent that is gone already takes everything with it that the deletion of c could still remove. */
  lemma ParentGoneAlready(tree: Tree, root: Path, dirs: set<Path>, c: Path, p: Path)
    requires c != [] && p in tree && root < p && p < c && Parent(c) in tree
    requires Dead(tree, dirs + {c}, p) && AllBelowDead(tree, dirs + {c}, p)
    requires Gone(tree, root, dirs, Parent(c)) && !LiesIn(dirs, Parent(c))
    ensures Gone(tree, root, dirs, p)
  {
    var m := Parent(c);
    var c'' :| c'' in dirs && Kills(tree, c'', m);
    assert m < c'';
    forall q | q in tree && p <= q ensures Dead(tree, dirs, q) {
      DeadGrows(tree, dirs, c, q);
      assert q == p || p < q;
      if Kills(tree, c, q) {
        PrefixOfParent(q, c);
        if c <= q {
          assert m < q;
        } else {
          assert q <= m && Kills(tree, c'', q);
        }
      }
    }
  }

  /** Removed by Delete of c from what the deletion of dirs has left. */
  ghost predicate RemovedByOneMore(tree: Tree, root: Path, dirs: set<Path>, c: Path, p: Path)
    requires c != []
  {
    var rest := Without(Remainder(tree, root, dirs), c);
    c <= p || (root < p <= Parent(c) && Parent(c) in rest && OnlyChainBelow(rest, p, Parent(c)))
  }

  lemma OneMoreRemovesOnlyGone(tree: Tree, root: Path, dirs: set<Path>, c: Path, p: Path)
    requires WellFormed(tree) && c != [] && p in tree
    requires RemovedByOneMore(tree, root, dirs, c, p)
    ensures Gone(tree, root, dirs + {c}, p)
  {
    LiesInGrows(dirs, c, p);
    if !(c <= p) {
      var rest := Without(Remainder(tree, root, dirs), c);
      PrefixOfParent(p, c);
      DeadGrows(tree, dirs, c, p);
      assert Kills(tree, c, p);
      forall q | q in tree && p < q ensures Dead(tree, dirs + {c}, q) {
        DeadGrows(tree, dirs, c, q);
        if q in rest {
          assert q <= Parent(c);
          PrefixOfParent(q, c);
        } else if Gone(tree, root, dirs, q) {
          GoneIsDead(tree, root, dirs, q);
        }
      }
    }
  }

  lemma OneMoreRemovesAllGone(tree: Tree, root: Path, dirs: set<Path>, c: Path, p: Path)
    requires WellFormed(tree) && c != [] && p in tree
    requires c !in dirs && PrefixFree(dirs + {c})
    requires Gone(tree, root, dirs + {c}, p) && !Gone(tree, root, dirs, p)
    ensures RemovedByOneMore(tree, root, dirs, c, p)
  {
    LiesInGrows(dirs, c, p);
    if !(c <= p) {
      var m := Parent(c);
      assert p < c && m in tree by {
        if !(p < c && m in tree) {
          NotBecauseOf(tree, root, dirs, c, p);
        }
      }
      PrefixOfParent(p, c);
      assert !LiesIn(dirs, m) by {
        forall c' | c' in dirs ensures !(c' <= m) {
          assert c' in dirs + {c} && c in dirs + {c};
          assert c' <= m ==> c' <= c;
        }
      }
      if Gone(tree, root, dirs, m) {
        ParentGoneAlready(tree, root, dirs, c, p);
      }
      var rest := Without(Remainder(tree, root, dirs), c);
      forall q | q in rest && p < q ensures q <= m {
        PrefixOfParent(q, c);
        assert AllBelowDead(tree, dirs + {c}, q);
        if !(q < c) {
          NotBecauseOf(tree, root, dirs, c, q);
        }
      }
    }
  }

  lemma GoneAfterOneMore(tree: Tree, root: Path, dirs: set<Path>, c: Path, p: Path)
    requires WellFormed(tree) && c != [] && c !in dirs && PrefixFree(dirs + {c}) && p in tree
    ensures Gone(tree, root, dirs + {c}, p) <==> Gone(tree, root, dirs, p) || RemovedByOneMore(tree, root, dirs, c, p)
  {
    if Gone(tree, root, dirs, p) {
      GoneGrows(tree, root, dirs, c, p);
    } else if Gone(tree, root, dirs + {c}, p) {
      OneMoreRemovesAllGone(tree, root, dirs, c, p);
    } else if RemovedByOneMore(tree, root, dirs, c, p) {
      OneMoreRemovesOnlyGone(tree, root, dirs, c, p);
    }
  }

  lemma LeftAfterOneMore(tree: Tree, root: Path, dirs: set<Path>, c: Path, p: Path)
    requires WellFormed(tree) && root < c && !Blocked(tree, c)
    ensures var after := DeleteDir(Remainder(tree, root, dirs), root, c, NO_FAULTS);
            && (p in after <==> p in tree && !Gone(tree, root, dirs, p) && !RemovedByOneMore(tree, root, dirs, c, p))
            && (p in after ==> after[p] == tree[p])
  {
    var before := Remainder(tree, root, dirs);
    var rest := Without(before, c);
    RemainderWellFormed(tree, root, dirs);
    WithoutWellFormed(before, c);
    assert Parent(c) in rest ==> rest[Parent(c)] == Dir by {
      assert Parent(c) < c;
    }
    DeleteDirWithoutFaults(before, root, c);
    PruneIsSafe(rest, root, Parent(c), {});
    PruneExactly(rest, root, Parent(c), {}, p);
  }

  /** Delete of one more directory turns the closed form for dirs into the closed form for dirs and it. */
  lemma DeleteOneMore(tree: Tree, root: Path, dirs: set<Path>, c: Path)
    requires WellFormed(tree) && c !in dirs && Separate(tree, root, dirs + {c})
    ensures Remainder(tree, root, dirs + {c}) == DeleteDir(Remainder(tree, root, dirs), root, c, NO_FAULTS)
  {
    assert c in dirs + {c};
    var after := DeleteDir(Remainder(tree, root, dirs), root, c, NO_FAULTS);
    forall p ensures p in after <==> p in tree && !Gone(tree, root, dirs + {c}, p)
             ensures p in after ==> after[p] == tree[p] {
      LeftAfterOneMore(tree, root, dirs, c, p);
      if p in tree {
        GoneAfterOneMore(tree, root, dirs, c, p);
      }
    }
  }

  /** Below p there is nothing but ancestors of dir and what lies in dir. */
  ghost predicate OnlyDirBelow(tree: Tree, p: Path, dir: Path) {
    forall q :: q in tree && p < q ==> dir <= q || q < dir
  }

  lemma ChainIffOnlyDir(tree: Tree, p: Path, dir: Path)
    requires dir != []
    ensures OnlyChainBelow(Without(tree, dir), p, Parent(dir)) <==> OnlyDirBelow(tree, p, dir)
  {
    forall q | q in tree ensures q < dir <==> q <= Parent(dir) {
      PrefixOfParent(q, dir);
    }
    if OnlyChainBelow(Without(tree, dir), p, Parent(dir)) {
      forall q | q in tree && p < q ensures dir <= q || q < dir {
        assert dir <= q || q in Without(tree, dir);
      }
    }
  }

  /**
    Delete of one collector, exactly, whatever is broken.  In its subtree just that stays which cannot be
    removed or has something below it that cannot.  If nothing stays, every ancestor below the root goes that
    has nothing under it but the subtree and the ancestors between, provided the parent exists and nothing
    on the way down to it is broken.
   */
  lemma DeleteExactly(tree: Tree, root: Path, dir: Path, faults: Faults, p: Path)
    requires WellFormed(tree) && root < dir && p in tree
    ensures dir <= p ==> (p in DeleteDir(tree, root, dir, faults) <==> Stays(tree, dir, p, faults))
    ensures !(dir <= p) ==>
              (p !in DeleteDir(tree, root, dir, faults) <==>
                 Deletable(tree, dir, faults) && root < p < dir && Parent(dir) in tree && OnlyDirBelow(tree, p, dir)
                 && Sound(faults.removing + faults.listing, p, Parent(dir)))
  {
    if Deletable(tree, dir, faults) {
      var rest, broken := Without(tree, dir), faults.removing + faults.listing;
      WithoutWellFormed(tree, dir);
      assert Parent(dir) in rest ==> rest[Parent(dir)] == Dir by {
        assert Parent(dir) < dir;
      }
      PruneExactly(rest, root, Parent(dir), broken, p);
      PrefixOfParent(p, dir);
      ChainIffOnlyDir(tree, p, dir);
    }
  }

  // ---------- deleting an archive ----------

  ghost function CollectorDirs(root: Path, id: SupportArchiveID, cols: set<CollectorType>): set<Path> {
    set col | col in cols :: CollectorDir(root, id, col)
  }

  lemma CollectorDirsApart(root: Path, id: SupportArchiveID, a: CollectorType, b: CollectorType)
    requires CollectorDir(root, id, a) <= CollectorDir(root, id, b)
    ensures a == b
  {
    var n := |IdDir(root, id)|;
    assert Domain.Dir(a) == CollectorDir(root, id, a)[n..] && Domain.Dir(b) == CollectorDir(root, id, b)[n..];
    assert Domain.Dir(a) == Domain.Dir(b)[..|Domain.Dir(a)|];
    DirsApart(a, b);
  }

  /** No file stands where a directory above a collector directory would be. */
  ghost predicate Unblocked(tree: Tree, root: Path, id: SupportArchiveID) {
    forall col :: !Blocked(tree, CollectorDir(root, id, col))
  }

  lemma CollectorDirsSeparate(tree: Tree, root: Path, id: SupportArchiveID, cols: set<CollectorType>)
    requires Unblocked(tree, root, id)
    ensures Separate(tree, root, CollectorDirs(root, id, cols))
  {
    forall a, b | a in cols && b in cols && CollectorDir(root, id, a) <= CollectorDir(root, id, b) ensures a == b {
      CollectorDirsApart(root, id, a, b);
    }
  }

  lemma CollectorDirsAdd(root: Path, id: SupportArchiveID, cols: set<CollectorType>, col: CollectorType)
    requires col !in cols
    ensures CollectorDirs(root, id, cols + {col}) == CollectorDirs(root, id, cols) + {CollectorDir(root, id, col)}
    ensures CollectorDir(root, id, col) !in CollectorDirs(root, id, cols)
  {
    if c :| c in cols && CollectorDir(root, id, c) == CollectorDir(root, id, col) {
      CollectorDirsApart(root, id, c, col);
    }
  }

  /** Nothing is changed, and nothing is lost but entries of the archive and its namespace directory. */
  ghost predicate OnlyLosesOf(before: Tree, after: Tree, root: Path, id: SupportArchiveID) {
    && (forall p :: p in after ==> p in before && after[p] == before[p])
    && (forall p :: p in before && p !in after ==> IdDir(root, id) <= p || p == root + [id.namespace])
  }

  lemma OnPathOfArchive(root: Path, id: SupportArchiveID, dir: Path, p: Path)
    requires IdDir(root, id) <= dir && (dir <= p || root < p < dir)
    ensures IdDir(root, id) <= p || p == root + [id.namespace]
  {
    var idDir := IdDir(root, id);
    if root < p < dir {
      Comparable(p, idDir, dir);
      if p < idDir {
        assert |p| == |root| + 1 && p == idDir[..|p|];
      }
    }
  }

  lemma CollectorLosesOnly(tree: Tree, root: Path, id: SupportArchiveID, col: CollectorType, faults: Faults)
    requires WellFormed(tree)
    ensures OnlyLosesOf(tree, DeleteDir(tree, root, CollectorDir(root, id, col), faults), root, id)
  {
    var dir := CollectorDir(root, id, col);
    DeleteIsSafe(tree, root, dir, faults);
    forall p | p in tree && (dir <= p || root < p < dir) ensures IdDir(root, id) <= p || p == root + [id.namespace] {
      OnPathOfArchive(root, id, dir, p);
    }
  }

  lemma RemainderOfNone(tree: Tree, root: Path)
    ensures Remainder(tree, root, {}) == tree
  {
  }

  /** What cannot be removed stays, whatever is deleted. */
  lemma UnremovableStays(tree: Tree, root: Path, dir: Path, faults: Faults, r: Path)
    requires root < dir && r in tree && r in faults.removing
    ensures r in DeleteDir(tree, root, dir, faults)
  {
    if Deletable(tree, dir, faults) {
      UnremovableIsNotPruned(Without(tree, dir), root, Parent(dir), faults.removing + faults.listing, r);
    }
  }

  lemma {:induction false} UnremovableIsNotPruned(tree: Tree, root: Path, d: Path, broken: set<Path>, r: Path)
    requires root <= d && r in tree && r in broken
    ensures r in Prune(tree, root, d, broken)
    decreases |d|
  {
    if !(d == root || d in broken || d !in tree || tree[d] == File || !IsEmpty(tree, d)) {
      UnremovableIsNotPruned(tree - {d}, root, Parent(d), broken, r);
    }
  }

  /** The entry can at no time be removed while the data of these collectors is deleted. */
  ghost predicate Stuck(r: Path, mapping: set<CollectorType>, faults: CollectorType -> Faults) {
    forall col :: col in mapping ==> r in faults(col).removing
  }

  ghost predicate Faultless(mapping: set<CollectorType>, faults: CollectorType -> Faults) {
    forall col :: col in mapping ==> faults(col) == NO_FAULTS
  }

  /** In this directory just that is left which could not be removed. */
  ghost predicate Handled(before: Tree, after: Tree, dir: Path, faults: Faults) {
    forall p :: dir <= p ==> (p in after <==> p in before && Stays(before, dir, p, faults))
  }

  /** Nothing in this directory is gone, and no file above it. */
  ghost predicate Untouched(before: Tree, after: Tree, dir: Path) {
    && (forall p :: p in after ==> p in before && after[p] == before[p])
    && (forall p :: p in before && (dir <= p || (p < dir && before[p] == File)) ==> p in after)
  }

  lemma SameFate(before: Tree, tree: Tree, dir: Path, faults: Faults)
    requires Untouched(before, tree, dir)
    ensures Deletable(tree, dir, faults) <==> Deletable(before, dir, faults)
    ensures forall p :: Stays(tree, dir, p, faults) <==> Stays(before, dir, p, faults)
  {
    assert Blocked(tree, dir) <==> Blocked(before, dir) by {
      if q :| q in before && q < dir && before[q] == File {
        assert q in tree && tree[q] == File;
      }
    }
    assert forall r :: r in faults.removing && dir <= r ==> (r in tree <==> r in before);
  }

  lemma DeletedIsHandled(before: Tree, tree: Tree, root: Path, dir: Path, faults: Faults)
    requires WellFormed(tree) && root < dir && Untouched(before, tree, dir)
    ensures Handled(before, DeleteDir(tree, root, dir, faults), dir, faults)
  {
    SameFate(before, tree, dir, faults);
    DeleteIsSafe(tree, root, dir, faults);
    forall p | dir <= p ensures p in DeleteDir(tree, root, dir, faults) <==> p in before && Stays(before, dir, p, faults) {
      if p in tree {
        DeleteExactly(tree, root, dir, faults, p);
      }
    }
  }

  /** Deleting one collector touches nothing in the directory of another, and no file above that. */
  lemma OthersUnaffected(tree: Tree, root: Path, id: SupportArchiveID, col: CollectorType, other: CollectorType, faults: Faults)
    requires WellFormed(tree) && col != other
    ensures Untouched(tree, DeleteDir(tree, root, CollectorDir(root, id, col), faults), CollectorDir(root, id, other))
  {
    var dir, dir' := CollectorDir(root, id, col), CollectorDir(root, id, other);
    var after := DeleteDir(tree, root, dir, faults);
    DeleteIsSafe(tree, root, dir, faults);
    forall p | p in tree && (dir' <= p || (p < dir' && tree[p] == File)) ensures p in after {
      if p !in after {
        if dir <= p && dir' <= p {
          Comparable(dir, dir', p);
        }
        assert dir <= dir' || dir' <= dir;
        if dir <= dir' {
          CollectorDirsApart(root, id, col, other);
        } else {
          CollectorDirsApart(root, id, other, col);
        }
      }
    }
  }

  /** The collectors whose data cannot be deleted completely. */
  ghost function Undeletable(tree: Tree, root: Path, id: SupportArchiveID, cols: set<CollectorType>,
                             faults: CollectorType -> Faults): set<CollectorType> {
    set col | col in cols && !Deletable(tree, CollectorDir(root, id, col), faults(col))
  }

  /** Some collectors are done with, the others have not been touched. */
  ghost predicate Between(before: Tree, tree: Tree, root: Path, id: SupportArchiveID, mapping: set<CollectorType>,
                          todo: set<CollectorType>, faults: CollectorType -> Faults) {
    && (forall col :: col in todo ==> Untouched(before, tree, CollectorDir(root, id, col)))
    && (forall col :: col in mapping - todo ==> Handled(before, tree, CollectorDir(root, id, col), faults(col)))
  }

  lemma OneMoreHandled(before: Tree, tree: Tree, root: Path, id: SupportArchiveID, mapping: set<CollectorType>,
                       todo: set<CollectorType>, faults: CollectorType -> Faults, col: CollectorType)
    requires WellFormed(tree) && col in todo && todo <= mapping && Between(before, tree, root, id, mapping, todo, faults)
    ensures Between(before, DeleteDir(tree, root, CollectorDir(root, id, col), faults(col)), root, id,
                    mapping, todo - {col}, faults)
  {
    var after := DeleteDir(tree, root, CollectorDir(root, id, col), faults(col));
    DeletedIsHandled(before, tree, root, CollectorDir(root, id, col), faults(col));
    forall other | other in todo - {col} ensures Untouched(before, after, CollectorDir(root, id, other)) {
      OthersUnaffected(tree, root, id, col, other, faults(col));
    }
    forall other | other in mapping - todo
      ensures Handled(before, after, CollectorDir(root, id, other), faults(other))
    {
      OthersUnaffected(tree, root, id, col, other, faults(col));
      StaysHandled(before, tree, after, CollectorDir(root, id, other), faults(other));
    }
  }

  lemma StaysHandled(before: Tree, tree: Tree, after: Tree, dir: Path, faults: Faults)
    requires Handled(before, tree, dir, faults) && Untouched(tree, after, dir)
    ensures Handled(before, after, dir, faults)
  {
  }

  lemma OneMoreCounted(before: Tree, tree: Tree, root: Path, id: SupportArchiveID, gone: set<CollectorType>,
                       faults: CollectorType -> Faults, col: CollectorType)
    requires col !in gone && Untouched(before, tree, CollectorDir(root, id, col))
    ensures |Undeletable(before, root, id, gone + {col}, faults)|
         == |Undeletable(before, root, id, gone, faults)|
          + if Deletable(tree, CollectorDir(root, id, col), faults(col)) then 0 else 1
  {
    var dir := CollectorDir(root, id, col);
    SameFate(before, tree, dir, faults(col));
    var fewer := Undeletable(before, root, id, gone, faults);
    assert Undeletable(before, root, id, gone + {col}, faults)
        == if Deletable(before, dir, faults(col)) then fewer else fewer + {col};
  }

  ghost predicate StuckKept(before: Tree, tree: Tree, mapping: set<CollectorType>, faults: CollectorType -> Faults) {
    forall r :: r in before && Stuck(r, mapping, faults) ==> r in tree
  }

  lemma StuckStays(before: Tree, tree: Tree, root: Path, dir: Path, mapping: set<CollectorType>,
                   faults: CollectorType -> Faults, col: CollectorType)
    requires root < dir && col in mapping && StuckKept(before, tree, mapping, faults)
    ensures StuckKept(before, DeleteDir(tree, root, dir, faults(col)), mapping, faults)
  {
    forall r | r in before && Stuck(r, mapping, faults) ensures r in DeleteDir(tree, root, dir, faults(col)) {
      UnremovableStays(tree, root, dir, faults(col), r);
    }
  }

  lemma OneMoreWithoutFaults(before: Tree, root: Path, id: SupportArchiveID, gone: set<CollectorType>, col: CollectorType)
    requires WellFormed(before) && Unblocked(before, root, id) && col !in gone
    ensures var tree, dir := Remainder(before, root, CollectorDirs(root, id, gone)), CollectorDir(root, id, col);
            && DeleteDir(tree, root, dir, NO_FAULTS) == Remainder(before, root, CollectorDirs(root, id, gone + {col}))
            && Deletable(tree, dir, NO_FAULTS)
  {
    CollectorDirsAdd(root, id, gone, col);
    CollectorDirsSeparate(before, root, id, gone + {col});
    DeleteOneMore(before, root, CollectorDirs(root, id, gone), CollectorDir(root, id, col));
  }

  /** Without faults, the closed form for the collectors that are done with. */
  ghost predicate ClosedForm(before: Tree, tree: Tree, root: Path, id: SupportArchiveID, mapping: set<CollectorType>,
                             gone: set<CollectorType>, faults: CollectorType -> Faults, errors: nat) {
    Faultless(mapping, faults) && Unblocked(before, root, id) ==>
      errors == 0 && tree == Remainder(before, root, CollectorDirs(root, id, gone))
  }

  /** How far deleting the collectors one by one has come: those in `todo` are still to come. */
  ghost predicate Progress(before: Tree, tree: Tree, root: Path, id: SupportArchiveID, mapping: set<CollectorType>,
                           todo: set<CollectorType>, faults: CollectorType -> Faults, errors: nat) {
    && todo <= mapping && WellFormed(before) && WellFormed(tree)
    && OnlyLosesOf(before, tree, root, id)
    && StuckKept(before, tree, mapping, faults)
    && Between(before, tree, root, id, mapping, todo, faults)
    && errors == |Undeletable(before, root, id, mapping - todo, faults)|
    && ClosedForm(before, tree, root, id, mapping, mapping - todo, faults, errors)
  }

  lemma ProgressStarts(before: Tree, root: Path, id: SupportArchiveID, mapping: set<CollectorType>,
                       faults: CollectorType -> Faults)
    requires WellFormed(before)
    ensures Progress(before, before, root, id, mapping, mapping, faults, 0)
  {
    RemainderOfNone(before, root);
    assert mapping - mapping == {} && CollectorDirs(root, id, {}) == {};
    assert Undeletable(before, root, id, {}, faults) == {};
  }

  lemma ProgressMade(before: Tree, tree: Tree, root: Path, id: SupportArchiveID, mapping: set<CollectorType>,
                     todo: set<CollectorType>, faults: CollectorType -> Faults, errors: nat, col: CollectorType)
    requires Progress(before, tree, root, id, mapping, todo, faults, errors) && col in todo
    ensures var dir := CollectorDir(root, id, col);
            Progress(before, DeleteDir(tree, root, dir, faults(col)), root, id, mapping, todo - {col}, faults,
                     errors + if Deletable(tree, dir, faults(col)) then 0 else 1)
  {
    var dir, gone := CollectorDir(root, id, col), mapping - todo;
    assert mapping - (todo - {col}) == gone + {col};
    DeleteIsSafe(tree, root, dir, faults(col));
    OneMoreHandled(before, tree, root, id, mapping, todo, faults, col);
    OneMoreCounted(before, tree, root, id, gone, faults, col);
    StuckStays(before, tree, root, dir, mapping, faults, col);
    CollectorLosesOnly(tree, root, id, col, faults(col));
    LosesInSteps(before, tree, DeleteDir(tree, root, dir, faults(col)), root, id);
    ClosedFormKept(before, tree, root, id, mapping, gone, faults, errors, col);
  }

  lemma LosesInSteps(before: Tree, tree: Tree, after: Tree, root: Path, id: SupportArchiveID)
    requires OnlyLosesOf(before, tree, root, id) && OnlyLosesOf(tree, after, root, id)
    ensures OnlyLosesOf(before, after, root, id)
  {
  }

  lemma ClosedFormKept(before: Tree, tree: Tree, root: Path, id: SupportArchiveID, mapping: set<CollectorType>,
                       gone: set<CollectorType>, faults: CollectorType -> Faults, errors: nat, col: CollectorType)
    requires WellFormed(before) && col in mapping && col !in gone
    requires ClosedForm(before, tree, root, id, mapping, gone, faults, errors)
    ensures var dir := CollectorDir(root, id, col);
            ClosedForm(before, DeleteDir(tree, root, dir, faults(col)), root, id, mapping, gone + {col}, faults,
                       errors + if Deletable(tree, dir, faults(col)) then 0 else 1)
  {
    if Faultless(mapping, faults) && Unblocked(before, root, id) {
      OneMoreWithoutFaults(before, root, id, gone, col);
    }
  }

  /**
    DeleteArchiveUseCase.Delete for the collector data, in whatever order the map is ranged over;
    `faults`: what is broken while the data of one collector is deleted.  There is an error for every
    collector some of whose data stays.
   */
  method DeleteCollectorData(fs: FileSystem, workPath: Path, id: SupportArchiveID, mapping: set<CollectorType>,
                             faults: CollectorType -> Faults)
    returns (errors: nat)
    requires WellFormed(fs.tree)
    modifies fs
    ensures WellFormed(fs.tree)
    ensures OnlyLosesOf(old(fs.tree), fs.tree, workPath, id)
    ensures StuckKept(old(fs.tree), fs.tree, mapping, faults)
    ensures forall col :: col in mapping ==> Handled(old(fs.tree), fs.tree, CollectorDir(workPath, id, col), faults(col))
    ensures errors == |Undeletable(old(fs.tree), workPath, id, mapping, faults)|
    ensures errors == 0 ==> forall p, col :: p in fs.tree && col in mapping ==> !(CollectorDir(workPath, id, col) <= p)
    ensures Faultless(mapping, faults) && Unblocked(old(fs.tree), workPath, id) ==>
              errors == 0 && fs.tree == Remainder(old(fs.tree), workPath, CollectorDirs(workPath, id, mapping))
  {
    errors := 0;
    ghost var before := fs.tree;
    var todo := mapping;
    ProgressStarts(before, workPath, id, mapping, faults);
    while todo != {}
      invariant Progress(before, fs.tree, workPath, id, mapping, todo, faults, errors)
      decreases todo
    {
      var col :| col in todo;
      ProgressMade(before, fs.tree, workPath, id, mapping, todo, faults, errors, col);
      todo := todo - {col};
      fs.faults := faults(col);
      var ok := DeleteCollector(fs, workPath, id, col);
      if !ok {
        errors := errors + 1;
      }
    }
    assert mapping - todo == mapping;
    NothingStaysIfDeletable(before, fs.tree, workPath, id, mapping, faults);
  }

  lemma NothingStaysIfDeletable(before: Tree, after: Tree, root: Path, id: SupportArchiveID, mapping: set<CollectorType>,
                                faults: CollectorType -> Faults)
    requires forall col :: col in mapping ==> Handled(before, after, CollectorDir(root, id, col), faults(col))
    ensures Undeletable(before, root, id, mapping, faults) == {} ==>
              forall p, col :: p in after && col in mapping ==> !(CollectorDir(root, id, col) <= p)
  {
    if Undeletable(before, root, id, mapping, faults) == {} {
      forall p, col | p in after && col in mapping ensures !(CollectorDir(root, id, col) <= p) {
        assert col !in Undeletable(before, root, id, mapping, faults);
      }
    }
  }

  /** The archive's entries are collector directories, what is in them, and what is above them. */
  ghost predicate OnlyCollectorContent(tree: Tree, root: Path, id: SupportArchiveID) {
    forall q :: q in tree && IdDir(root, id) < q ==>
      exists col :: CollectorDir(root, id, col) <= q || q < CollectorDir(root, id, col)
  }

  ghost function AllDirs(root: Path, id: SupportArchiveID): set<Path> {
    CollectorDirs(root, id, ALL_COLLECTORS)
  }

  /** Collector directories are at most two levels deep, so an ancestor below the archive is the parent. */
  lemma AboveIsParent(root: Path, id: SupportArchiveID, col: CollectorType, q: Path)
    requires IdDir(root, id) < q < CollectorDir(root, id, col)
    ensures q == Parent(CollectorDir(root, id, col))
  {
    PrefixOfParent(q, CollectorDir(root, id, col));
  }

  lemma ContentIsDead(tree: Tree, root: Path, id: SupportArchiveID, q: Path)
    requires OnlyCollectorContent(tree, root, id) && q in tree && IdDir(root, id) <= q
    ensures Dead(tree, AllDirs(root, id), q)
  {
    if q == IdDir(root, id) {
      var c := CollectorDir(root, id, Logs);
      assert c in AllDirs(root, id) && Parent(c) == q;
      assert Kills(tree, c, q);
    } else {
      assert IdDir(root, id) < q;
      var col :| CollectorDir(root, id, col) <= q || q < CollectorDir(root, id, col);
      var c := CollectorDir(root, id, col);
      assert c in AllDirs(root, id);
      if q < c {
        AboveIsParent(root, id, col, q);
      }
      assert Kills(tree, c, q);
    }
  }

  lemma DeadLiesUnderId(tree: Tree, root: Path, id: SupportArchiveID, q: Path)
    requires WellFormed(tree) && Dead(tree, AllDirs(root, id), q) && root + [id.namespace] <= q
    ensures IdDir(root, id) <= q || (q == root + [id.namespace] && IdDir(root, id) in tree)
  {
    var idDir := IdDir(root, id);
    var c :| c in AllDirs(root, id) && Kills(tree, c, q);
    CollectorDirLiesInArchive(root, id, c);
    if q < c {
      Comparable(idDir, q, c);
    }
    if q < c && q < idDir {
      assert |q| == |root| + 1 && q == root + [id.namespace];
      PrefixOfParent(idDir, c);
      if Parent(c) != idDir {
        AncestorExists(tree, idDir, Parent(c));
      }
    }
  }

  /**
    What deleting all collectors of an archive leaves, in any order: nothing of that archive,
    everything else untouched, and its namespace directory unless this archive was all it held.
   */
  lemma NothingOfTheArchiveRemains(tree: Tree, root: Path, id: SupportArchiveID, p: Path)
    requires WellFormed(tree) && OnlyCollectorContent(tree, root, id) && p in tree
    ensures var nsDir, idDir := root + [id.namespace], IdDir(root, id);
            p !in Remainder(tree, root, AllDirs(root, id)) <==>
              idDir <= p || (p == nsDir && idDir in tree && forall q :: q in tree && nsDir < q ==> idDir <= q)
  {
    var nsDir, idDir, dirs := root + [id.namespace], IdDir(root, id), AllDirs(root, id);
    if idDir <= p {
      forall q | q in tree && p <= q ensures Dead(tree, dirs, q) {
        ContentIsDead(tree, root, id, q);
      }
    } else if p == nsDir {
      NamespaceGoneIff(tree, root, id);
    } else if Gone(tree, root, dirs, p) {
      GoneIsDead(tree, root, dirs, p);
      GoneLiesInNamespace(tree, root, id, p);
      DeadLiesUnderId(tree, root, id, p);
    }
  }

  lemma CollectorDirLiesInArchive(root: Path, id: SupportArchiveID, c: Path)
    requires c in AllDirs(root, id)
    ensures root + [id.namespace] < IdDir(root, id) < c
  {
    var col :| col in ALL_COLLECTORS && c == CollectorDir(root, id, col);
  }

  lemma GoneLiesInNamespace(tree: Tree, root: Path, id: SupportArchiveID, p: Path)
    requires Gone(tree, root, AllDirs(root, id), p)
    ensures root + [id.namespace] <= p
  {
    var nsDir := root + [id.namespace];
    GoneIsDead(tree, root, AllDirs(root, id), p);
    if c :| c in AllDirs(root, id) && c <= p {
      CollectorDirLiesInArchive(root, id, c);
    } else {
      var c :| c in AllDirs(root, id) && Kills(tree, c, p);
      CollectorDirLiesInArchive(root, id, c);
      Comparable(nsDir, p, c);
      assert |p| >= |nsDir|;
    }
  }

  lemma NamespaceGoneIff(tree: Tree, root: Path, id: SupportArchiveID)
    requires WellFormed(tree) && OnlyCollectorContent(tree, root, id) && root + [id.namespace] in tree
    ensures var nsDir, idDir := root + [id.namespace], IdDir(root, id);
            Gone(tree, root, AllDirs(root, id), nsDir) <==>
              idDir in tree && forall q :: q in tree && nsDir < q ==> idDir <= q
  {
    var nsDir, idDir, dirs := root + [id.namespace], IdDir(root, id), AllDirs(root, id);
    if Gone(tree, root, dirs, nsDir) {
      GoneIsDead(tree, root, dirs, nsDir);
      DeadLiesUnderId(tree, root, id, nsDir);
      assert !LiesIn(dirs, nsDir);
      forall q | q in tree && nsDir < q ensures idDir <= q {
        DeadLiesUnderId(tree, root, id, q);
      }
    }
    if idDir in tree && forall q :: q in tree && nsDir < q ==> idDir <= q {
      var c := CollectorDir(root, id, Logs);
      assert c in dirs && Parent(c) == idDir && Kills(tree, c, nsDir);
      forall q | q in tree && nsDir < q ensures Dead(tree, dirs, q) {
        ContentIsDead(tree, root, id, q);
      }
    }
  }

  // ---------- deleting the zip ----------

  function ZipPath(archivesPath: Path, id: SupportArchiveID): Path {
    archivesPath + [id.namespace, id.name + ".zip"]
  }

  function WithoutLeaf(tree: Tree, p: Path, faults: Faults): Tree {
    if Removable(tree, p, faults) then tree - {p} else tree
  }

  function DeleteZipFile(tree: Tree, archivesPath: Path, id: SupportArchiveID, faults: Faults): Tree {
    var between := WithoutLeaf(tree, ZipPath(archivesPath, id), faults);
    var nsDir := archivesPath + [id.namespace];
    if nsDir in between && between[nsDir] == Dir && nsDir !in faults.listing then WithoutLeaf(between, nsDir, faults)
    else between
  }

  /** The zip can be removed, its namespace directory can be listed, and be removed if that leaves it empty. */
  ghost predicate ZipDeletable(tree: Tree, archivesPath: Path, id: SupportArchiveID, faults: Faults) {
    var zip, zipNs := ZipPath(archivesPath, id), archivesPath + [id.namespace];
    && Removable(tree, zip, faults) && zipNs !in faults.listing
    && ((forall q :: q in tree && zipNs < q ==> q == zip) ==> zipNs !in faults.removing)
  }

  /** removeDirIfEmpty */
  method RemoveDirIfEmpty(fs: FileSystem, dir: Path) returns (ok: bool)
    requires WellFormed(fs.tree)
    modifies fs`tree
    ensures WellFormed(fs.tree)
    ensures var listable := dir in old(fs.tree) && old(fs.tree)[dir] == Dir && dir !in fs.faults.listing;
            && fs.tree == (if listable then WithoutLeaf(old(fs.tree), dir, fs.faults) else old(fs.tree))
            && (ok <==> listable && (IsEmpty(old(fs.tree), dir) ==> dir !in fs.faults.removing))
  {
    ListingEmptyIff(fs.tree, dir);
    var dirEntries;
    dirEntries, ok := fs.ReadDir(dir);
    if ok && dirEntries == {} {
      LeafRemovalWellFormed(fs.tree, dir);
      ok := fs.Remove(dir);
    }
  }

  lemma EmptyWithoutZip(tree: Tree, dir: Path, file: Path)
    requires dir < file
    ensures IsEmpty(tree - {file}, dir) <==> forall q :: q in tree && dir < q ==> q == file
  {
    if IsEmpty(tree - {file}, dir) {
      forall q | q in tree && dir < q ensures q == file {
        assert q != file ==> q in tree - {file};
      }
    }
  }

  /** ZipFileArchiveRepository.Delete */
  method DeleteZip(fs: FileSystem, archivesPath: Path, id: SupportArchiveID) returns (errors: nat)
    requires WellFormed(fs.tree)
    modifies fs`tree
    ensures WellFormed(fs.tree)
    ensures fs.tree == DeleteZipFile(old(fs.tree), archivesPath, id, fs.faults)
    ensures errors == 0 <==> ZipDeletable(old(fs.tree), archivesPath, id, fs.faults)
    ensures errors == 0 ==> ZipPath(archivesPath, id) !in fs.tree
  {
    errors := 0;
    var archiveNamespaceDir := archivesPath + [id.namespace];
    var archiveFile := ZipPath(archivesPath, id);
    assert archiveNamespaceDir == Parent(archiveFile);
    EmptyWithoutZip(fs.tree, archiveNamespaceDir, archiveFile);
    if Removable(fs.tree, archiveFile, fs.faults) {
      LeafRemovalWellFormed(fs.tree, archiveFile);
      assert archiveNamespaceDir in fs.tree && fs.tree[archiveNamespaceDir] == Dir;
    }
    var removed := fs.Remove(archiveFile);
    if !removed {
      errors := errors + 1;
    }
    var dirOk := RemoveDirIfEmpty(fs, archiveNamespaceDir);
    if !dirOk {
      errors := errors + 1;
    }
  }

  /** Without faults exactly the zip goes, and its namespace directory if it held nothing else. */
  lemma DeleteZipExactly(tree: Tree, archivesPath: Path, id: SupportArchiveID, p: Path)
    requires WellFormed(tree) && p in tree
    ensures var file, nsDir := ZipPath(archivesPath, id), archivesPath + [id.namespace];
            p !in DeleteZipFile(tree, archivesPath, id, NO_FAULTS) <==>
              || (p == file && IsEmpty(tree, file))
              || (p == nsDir && tree[p] == Dir
                  && forall q :: q in tree && nsDir < q ==> q == file && IsEmpty(tree, file))
  {
    var file, nsDir := ZipPath(archivesPath, id), archivesPath + [id.namespace];
    assert nsDir < file;
    var between := WithoutLeaf(tree, file, NO_FAULTS);
    if IsEmpty(between, nsDir) {
      forall q | q in tree && nsDir < q ensures q == file && IsEmpty(tree, file) {
        assert q !in between;
      }
    }
  }

  /** Whatever fails, deleting a zip removes nothing but that and its namespace directory. */
  lemma ZipLosesOnly(tree: Tree, archivesPath: Path, id: SupportArchiveID, faults: Faults)
    ensures var after := DeleteZipFile(tree, archivesPath, id, faults);
            && (forall p :: p in after ==> p in tree && after[p] == tree[p])
            && (forall p :: p in tree && p !in after ==> p == ZipPath(archivesPath, id) || p == archivesPath + [id.namespace])
  {
  }

  /** Nothing is changed, and nothing is lost but entries of the archive, its zip and its two namespace directories. */
  ghost predicate OnlyLosesArchive(before: Tree, after: Tree, workPath: Path, archivesPath: Path, id: SupportArchiveID) {
    && (forall p :: p in after ==> p in before && after[p] == before[p])
    && (forall p :: p in before && p !in after ==>
          || IdDir(workPath, id) <= p || p == workPath + [id.namespace]
          || p == ZipPath(archivesPath, id) || p == archivesPath + [id.namespace])
  }

  lemma BothLoseOnly(before: Tree, between: Tree, workPath: Path, archivesPath: Path, id: SupportArchiveID, faults: Faults)
    requires OnlyLosesOf(before, between, workPath, id)
    ensures OnlyLosesArchive(before, DeleteZipFile(between, archivesPath, id, faults), workPath, archivesPath, id)
  {
    ZipLosesOnly(between, archivesPath, id, faults);
  }

  /**
    DeleteArchiveUseCase.Delete.  Whatever fails, only the archive loses anything; the zip goes if it can
    be removed, however much of the data stays.
   */
  method DeleteArchive(fs: FileSystem, workPath: Path, archivesPath: Path, id: SupportArchiveID,
                       mapping: set<CollectorType>, faults: CollectorType -> Faults, zipFaults: Faults)
    returns (errors: nat)
    requires WellFormed(fs.tree)
    modifies fs
    ensures WellFormed(fs.tree)
    ensures OnlyLosesArchive(old(fs.tree), fs.tree, workPath, archivesPath, id)
    ensures var zip := ZipPath(archivesPath, id);
            IsEmpty(old(fs.tree), zip) && zip !in zipFaults.removing ==> zip !in fs.tree
    ensures forall r :: r in old(fs.tree) && Stuck(r, mapping, faults) ==>
              r in fs.tree || r == ZipPath(archivesPath, id) || r == archivesPath + [id.namespace]
    ensures errors >= |Undeletable(old(fs.tree), workPath, id, mapping, faults)|
    ensures errors == 0 ==> ZipPath(archivesPath, id) in old(fs.tree) && ZipPath(archivesPath, id) !in zipFaults.removing
    ensures errors == 0 ==>
              && (forall p, col :: p in fs.tree && col in mapping ==> !(CollectorDir(workPath, id, col) <= p))
              && ZipPath(archivesPath, id) !in fs.tree
    ensures Faultless(mapping, faults) && zipFaults == NO_FAULTS && Unblocked(old(fs.tree), workPath, id) ==>
              var between := Remainder(old(fs.tree), workPath, CollectorDirs(workPath, id, mapping));
              && fs.tree == DeleteZipFile(between, archivesPath, id, NO_FAULTS)
              && (errors == 0 <==> Removable(between, ZipPath(archivesPath, id), NO_FAULTS))
  {
    errors := DeleteCollectorData(fs, workPath, id, mapping, faults);
    fs.faults := zipFaults;
    ZipLosesOnly(fs.tree, archivesPath, id, zipFaults);
    BothLoseOnly(old(fs.tree), fs.tree, workPath, archivesPath, id, zipFaults);
    var zipErrors := DeleteZip(fs, archivesPath, id);
    errors := errors + zipErrors;
  }

  ghost predicate Apart(a: Path, b: Path) {
    !(a <= b) && !(b <= a)
  }

  /**
    The whole use case without faults, for a work directory and an archives directory neither of which
    lies in the other: exactly the archive's data, its zip, and those of its two namespace directories that
    held nothing else.
   */
  lemma DeleteArchiveExactly(tree: Tree, workPath: Path, archivesPath: Path, id: SupportArchiveID, p: Path)
    requires WellFormed(tree) && OnlyCollectorContent(tree, workPath, id) && Apart(workPath, archivesPath) && p in tree
    ensures var workNs, idDir := workPath + [id.namespace], IdDir(workPath, id);
            var zipNs, zip := archivesPath + [id.namespace], ZipPath(archivesPath, id);
            p !in DeleteZipFile(Remainder(tree, workPath, AllDirs(workPath, id)), archivesPath, id, NO_FAULTS) <==>
              || idDir <= p
              || (p == workNs && idDir in tree && forall q :: q in tree && workNs < q ==> idDir <= q)
              || (p == zip && IsEmpty(tree, zip))
              || (p == zipNs && tree[p] == Dir && forall q :: q in tree && zipNs < q ==> q == zip && IsEmpty(tree, zip))
  {
    var between := Remainder(tree, workPath, AllDirs(workPath, id));
    NothingOfTheArchiveRemains(tree, workPath, id, p);
    RemainderWellFormed(tree, workPath, AllDirs(workPath, id));
    forall q | q in tree && archivesPath <= q ensures q in between {
      ArchivesUntouched(tree, workPath, archivesPath, id, q);
    }
    if p in between {
      ZipPartExactly(tree, between, archivesPath, id, p);
    } else {
      ZipLosesOnly(between, archivesPath, id, NO_FAULTS);
    }
  }

  lemma ArchivesUntouched(tree: Tree, workPath: Path, archivesPath: Path, id: SupportArchiveID, q: Path)
    requires Apart(workPath, archivesPath) && archivesPath <= q && q in tree
    ensures q in Remainder(tree, workPath, AllDirs(workPath, id))
  {
    if Gone(tree, workPath, AllDirs(workPath, id), q) {
      GoneLiesInNamespace(tree, workPath, id, q);
      Comparable(workPath, archivesPath, q);
    }
  }

  /** What deleting the zip does to a tree is decided by a tree that agrees with it on the archives. */
  lemma ZipPartExactly(tree: Tree, between: Tree, archivesPath: Path, id: SupportArchiveID, p: Path)
    requires WellFormed(between) && p in between && p in tree && tree[p] == between[p]
    requires forall q :: archivesPath <= q ==> (q in tree <==> q in between)
    ensures var zip, zipNs := ZipPath(archivesPath, id), archivesPath + [id.namespace];
            p !in DeleteZipFile(between, archivesPath, id, NO_FAULTS) <==>
              || (p == zip && IsEmpty(tree, zip))
              || (p == zipNs && tree[p] == Dir && forall q :: q in tree && zipNs < q ==> q == zip && IsEmpty(tree, zip))
  {
    var zip, zipNs := ZipPath(archivesPath, id), archivesPath + [id.namespace];
    DeleteZipExactly(between, archivesPath, id, p);
    assert IsEmpty(tree, zip) <==> IsEmpty(between, zip) by {
      SameBelow(tree, between, archivesPath, zip);
    }
    forall q | zipNs < q ensures q in tree <==> q in between {
      assert archivesPath <= q;
    }
  }

  /** Trees that agree on a directory agree on what else it holds. */
  lemma SameBelow(tree: Tree, between: Tree, dir: Path, file: Path)
    requires dir < file && forall q :: dir <= q ==> (q in tree <==> q in between)
    ensures IsEmpty(tree, file) <==> IsEmpty(between, file)
  {
    if q :| q in tree && file < q {
      assert q in between;
    }
    if q :| q in between && file < q {
      assert q in tree;
    }
  }

  lemma ZipNamesDiffer(a: string, b: string)
    requires a != b
    ensures a + ".zip" != b + ".zip"
  {
    if |a| == |b| {
      var i :| 0 <= i < |a| && a[i] != b[i];
      assert (a + ".zip")[i] != (b + ".zip")[i];
    }
  }

  lemma InOneRoot(a: Path, b: Path, p: Path)
    requires Apart(a, b)
    ensures !(a <= p && b <= p)
  {
    if a <= p && b <= p {
      Comparable(a, b, p);
    }
  }

  lemma OneArchivePerDirectory(root: Path, id: SupportArchiveID, other: SupportArchiveID, p: Path)
    requires root + [other.namespace, other.name] <= p
    ensures IdDir(root, id) <= p ==> id == other
    ensures p != root + [id.namespace]
  {
    var n := |root|;
    assert p[n] == other.namespace && p[n + 1] == other.name;
    assert IdDir(root, id) <= p ==> p[n] == id.namespace && p[n + 1] == id.name;
  }

  lemma OneArchivePerZip(root: Path, id: SupportArchiveID, other: SupportArchiveID)
    ensures ZipPath(root, id) == ZipPath(root, other) ==> id == other
    ensures ZipPath(root, other) != root + [id.namespace]
  {
    var n := |root|;
    assert ZipPath(root, id)[n] == id.namespace && ZipPath(root, other)[n] == other.namespace;
    assert ZipPath(root, id)[n + 1] == id.name + ".zip" && ZipPath(root, other)[n + 1] == other.name + ".zip";
    if id.name != other.name {
      ZipNamesDiffer(id.name, other.name);
    }
  }

  /** Two archives share neither data nor zip, so deleting one leaves the other alone, whatever fails. */
  lemma OtherArchivesKeepAll(before: Tree, after: Tree, workPath: Path, archivesPath: Path,
                             id: SupportArchiveID, other: SupportArchiveID, p: Path)
    requires OnlyLosesArchive(before, after, workPath, archivesPath, id) && Apart(workPath, archivesPath)
    requires other != id && p in before
    requires workPath + [other.namespace, other.name] <= p || p == archivesPath + [other.namespace, other.name + ".zip"]
    ensures p in after
  {
    InOneRoot(workPath, archivesPath, p);
    if workPath + [other.namespace, other.name] <= p {
      OneArchivePerDirectory(workPath, id, other, p);
      assert workPath <= p;
    } else {
      OneArchivePerZip(archivesPath, id, other);
      assert archivesPath <= p;
    }
  }

  /** If a deletion was not complete, a later one without faults still leaves nothing of the archive. */
  lemma RetryCleansUp(tree: Tree, after: Tree, root: Path, id: SupportArchiveID, p: Path)
    requires WellFormed(tree) && OnlyCollectorContent(tree, root, id)
    requires WellFormed(after) && OnlyLosesOf(tree, after, root, id)
    ensures IdDir(root, id) <= p ==> p !in Remainder(after, root, AllDirs(root, id))
  {
    if p in after {
      NothingOfTheArchiveRemains(after, root, id, p);
    }
  }
}
