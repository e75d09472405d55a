/**
  Which archives garbage collection selects and what one round removes
  (pkg/usecase/garbage_collection.go:71-149).
 */
module GarbageCollection {
  import opened Collections
  import opened Domain

  /** A custom resource with its creation time. */
  datatype Archive = Archive(id: SupportArchiveID, created: int)

  // ---------- selection ----------

  /** The archives whose zip exists and could be looked up, in list order. */
  function Completed(archives: seq<Archive>, found: set<SupportArchiveID>): seq<Archive> {
    if archives == [] then []
    else
      var n := |archives| - 1;
      Completed(archives[..n], found) + if archives[n].id in found then [archives[n]] else []
  }

  /** A failed Exists check counts as missing. */
  method GetCompletedArchives(archives: seq<Archive>, zips: set<SupportArchiveID>, unreadable: set<SupportArchiveID>)
    returns (completed: seq<Archive>, errors: nat)
    ensures completed == Completed(archives, zips - unreadable)
    ensures errors == |Completed(archives, unreadable)|
  {
    completed, errors := [], 0;
    for i := 0 to |archives|
      invariant completed == Completed(archives[..i], zips - unreadable)
      invariant errors == |Completed(archives[..i], unreadable)|
    {
      assert archives[..i + 1][..i] == archives[..i];
      var found := archives[i].id in zips && archives[i].id !in unreadable;
      if archives[i].id in unreadable {
        errors := errors + 1;
      }
      if found {
        completed := completed + [archives[i]];
      }
    }
    assert archives[..|archives|] == archives;
  }

  ghost predicate OldestFirst(s: seq<Archive>) {
    forall i, j :: 0 <= i < j < |s| ==> s[i].created <= s[j].created
  }

  /** Some order that sorting by creation time may produce; equal times come in any order. */
  ghost predicate SortedFrom(sorted: seq<Archive>, archives: seq<Archive>) {
    |sorted| == |archives| && OldestFirst(sorted) && multiset(sorted) == multiset(archives)
  }

  function InsertByAge(sorted: seq<Archive>, x: Archive): seq<Archive> {
    if sorted == [] then [x]
    else
      var n := |sorted| - 1;
      if sorted[n].created <= x.created then sorted + [x] else InsertByAge(sorted[..n], x) + [sorted[n]]
  }

  lemma {:induction false} InsertAddsOne(sorted: seq<Archive>, x: Archive)
    ensures multiset(InsertByAge(sorted, x)) == multiset(sorted) + multiset{x}
    ensures |InsertByAge(sorted, x)| == |sorted| + 1
  {
    if sorted != [] {
      var n := |sorted| - 1;
      assert sorted == sorted[..n] + [sorted[n]];
      InsertAddsOne(sorted[..n], x);
    }
  }

  lemma {:induction false} InsertKeepsOrder(sorted: seq<Archive>, x: Archive)
    requires OldestFirst(sorted)
    ensures OldestFirst(InsertByAge(sorted, x))
    ensures forall y :: y in InsertByAge(sorted, x) ==> y == x || y in sorted
  {
    if sorted != [] {
      var n := |sorted| - 1;
      if sorted[n].created > x.created {
        InsertKeepsOrder(sorted[..n], x);
        assert forall y :: y in InsertByAge(sorted[..n], x) ==> y.created <= sorted[n].created;
      }
    }
  }

  /** Sorts as the library's SortFunc promises to. */
  method SortByCreation(archives: seq<Archive>) returns (sorted: seq<Archive>)
    ensures SortedFrom(sorted, archives)
  {
    sorted := [];
    for i := 0 to |archives|
      invariant SortedFrom(sorted, archives[..i])
    {
      assert archives[..i + 1] == archives[..i] + [archives[i]];
      InsertAddsOne(sorted, archives[i]);
      InsertKeepsOrder(sorted, archives[i]);
      sorted := InsertByAge(sorted, archives[i]);
    }
    assert archives[..|archives|] == archives;
  }

  /** What may be selected for deletion: all but the newest `keep` of some order by age. */
  ghost predicate Selects(completed: seq<Archive>, keep: nat, selected: seq<Archive>) {
    if |completed| <= keep then selected == []
    else exists sorted :: SortedFrom(sorted, completed) && selected == sorted[..|completed| - keep]
  }

  method GetOldestArchivesExcludingTheOnesToKeep(completed: seq<Archive>, keep: nat) returns (selected: seq<Archive>)
    ensures Selects(completed, keep, selected)
  {
    if |completed| <= keep {
      return [];
    }
    var sorted := SortByCreation(completed);
    selected := sorted[..|sorted| - keep];
  }

  lemma SortedSize(sorted: seq<Archive>, archives: seq<Archive>)
    requires SortedFrom(sorted, archives)
    ensures Elements(sorted) == Elements(archives)
    ensures Distinct(archives) ==> Distinct(sorted)
  {
    forall x ensures x in sorted <==> x in archives {
      assert x in sorted <==> x in multiset(sorted);
      assert x in archives <==> x in multiset(archives);
    }
    if Distinct(archives) {
      forall i, j | 0 <= i < j < |sorted| ensures sorted[i] != sorted[j] {
        DistinctCount(archives, sorted[i]);
        assert sorted == sorted[..j] + [sorted[j]] + sorted[j + 1..];
        assert sorted[i] in sorted[..j];
        assert multiset(sorted)[sorted[i]] == 1;
      }
    }
  }

  /** The completed archives that are kept although x is selected and that are at least as new as x. */
  ghost function KeptAsNewAs(completed: seq<Archive>, selected: seq<Archive>, x: Archive): set<Archive> {
    set y | y in completed && y !in selected && y.created >= x.created
  }

  /**
    Garbage collection never over-deletes: it selects exactly the surplus, and for every archive
    it selects at least `keep` others that are at least as new stay.
   */
  lemma KeepsTheNewest(completed: seq<Archive>, keep: nat, selected: seq<Archive>)
    requires Distinct(completed) && Selects(completed, keep, selected)
    ensures |selected| == if |completed| <= keep then 0 else |completed| - keep
    ensures Distinct(selected) && Elements(selected) <= Elements(completed)
    ensures forall x :: x in selected ==> |KeptAsNewAs(completed, selected, x)| >= keep
  {
    if |completed| > keep {
      var sorted :| SortedFrom(sorted, completed) && selected == sorted[..|completed| - keep];
      SortedSize(sorted, completed);
      var n := |sorted| - keep;
      assert Elements(selected) <= Elements(completed) by {
        forall x | x in selected ensures x in Elements(sorted) {
        }
      }
      DistinctSize(sorted[n..]);
      forall x | x in selected ensures |KeptAsNewAs(completed, selected, x)| >= keep {
        var i :| 0 <= i < n && selected[i] == x;
        forall y | y in sorted[n..] ensures y in KeptAsNewAs(completed, selected, x) {
          var j :| 0 <= j < keep && sorted[n..][j] == y;
          assert y == sorted[n + j] && y in Elements(sorted);
        }
        SubsetIsNoLarger(Elements(sorted[n..]), KeptAsNewAs(completed, selected, x));
      }
    }
  }

  // ---------- what is selected in every order, and what in none ----------

  ghost function Newer(completed: seq<Archive>, x: Archive): set<Archive> {
    set y | y in completed && y.created > x.created
  }

  ghost function NotOlder(completed: seq<Archive>, x: Archive): set<Archive> {
    set y | y in completed && y.created >= x.created
  }

  /** An archive's position in an order by age lies between those that its newer and its not older ones allow. */
  lemma PositionBounds(completed: seq<Archive>, sorted: seq<Archive>, i: nat)
    requires Distinct(completed) && SortedFrom(sorted, completed) && i < |sorted|
    ensures |Newer(completed, sorted[i])| <= |sorted| - 1 - i
    ensures |NotOlder(completed, sorted[i])| >= |sorted| - i
  {
    var x := sorted[i];
    SortedSize(sorted, completed);
    DistinctSize(sorted[i + 1..]);
    DistinctSize(sorted[i..]);
    forall y | y in Newer(completed, x) ensures y in sorted[i + 1..] {
      assert y in Elements(sorted);
      var j :| 0 <= j < |sorted| && sorted[j] == y;
      assert y == sorted[i + 1..][j - i - 1];
    }
    forall y | y in sorted[i..] ensures y in NotOlder(completed, x) {
      var j :| 0 <= j < |sorted| - i && sorted[i..][j] == y;
      assert y == sorted[i + j] && y in Elements(sorted);
    }
    SubsetIsNoLarger(Newer(completed, x), Elements(sorted[i + 1..]));
    SubsetIsNoLarger(Elements(sorted[i..]), NotOlder(completed, x));
  }

  lemma {:induction false} SortedExists(archives: seq<Archive>) returns (sorted: seq<Archive>)
    ensures SortedFrom(sorted, archives)
  {
    if archives == [] {
      sorted := [];
    } else {
      var n := |archives| - 1;
      var rest := SortedExists(archives[..n]);
      assert archives == archives[..n] + [archives[n]];
      InsertAddsOne(rest, archives[n]);
      InsertKeepsOrder(rest, archives[n]);
      sorted := InsertByAge(rest, archives[n]);
    }
  }

  function Swap(s: seq<Archive>, i: nat, j: nat): seq<Archive>
    requires i < |s| && j < |s|
  {
    s[i := s[j]][j := s[i]]
  }

  /** Two archives of the same age may change places. */
  lemma SwapStaysSorted(sorted: seq<Archive>, archives: seq<Archive>, i: nat, j: nat)
    requires SortedFrom(sorted, archives) && i < |sorted| && j < |sorted| && sorted[i].created == sorted[j].created
    ensures SortedFrom(Swap(sorted, i, j), archives)
  {
    assert multiset(Swap(sorted, i, j)) == multiset(sorted);
  }

  /** Below `keep` newer ones, some order by age leaves x unselected. */
  lemma SpareableIfFewNewer(completed: seq<Archive>, keep: nat, x: Archive) returns (selected: seq<Archive>)
    requires Distinct(completed) && x in completed && |Newer(completed, x)| < keep
    ensures Selects(completed, keep, selected) && x !in selected
  {
    if |completed| <= keep {
      return [];
    }
    var n := |completed| - keep;
    var sorted := SortedExists(completed);
    SortedSize(sorted, completed);
    assert x in Elements(sorted);
    var i :| 0 <= i < |sorted| && sorted[i] == x;
    if i < n {
      var j := TieBehind(completed, sorted, n, i);
      SwapStaysSorted(sorted, completed, i, j);
      sorted, i := Swap(sorted, i, j), j;
      SortedSize(sorted, completed);
    }
    selected := sorted[..n];
  }

  lemma TieBehind(completed: seq<Archive>, sorted: seq<Archive>, n: nat, i: nat) returns (j: nat)
    requires Distinct(completed) && SortedFrom(sorted, completed) && i < n <= |sorted|
    requires |Newer(completed, sorted[i])| < |sorted| - n
    ensures n <= j < |sorted| && sorted[j].created == sorted[i].created
  {
    SortedSize(sorted, completed);
    DistinctSize(sorted[n..]);
    if forall y :: y in sorted[n..] ==> y in Newer(completed, sorted[i]) {
      SubsetIsNoLarger(Elements(sorted[n..]), Newer(completed, sorted[i]));
      assert false;
    }
    var y :| y in sorted[n..] && y !in Newer(completed, sorted[i]);
    var k :| 0 <= k < |sorted| - n && sorted[n..][k] == y;
    j := n + k;
    assert y == sorted[j] && y in Elements(sorted);
  }

  /** With more than `keep` that are not older, itself among them, some order by age selects x. */
  lemma SelectableIfManyNotOlder(completed: seq<Archive>, keep: nat, x: Archive) returns (selected: seq<Archive>)
    requires Distinct(completed) && x in completed && |NotOlder(completed, x)| > keep
    ensures Selects(completed, keep, selected) && x in selected
  {
    DistinctSize(completed);
    SubsetIsNoLarger(NotOlder(completed, x), Elements(completed));
    var n := |completed| - keep;
    var sorted := SortedExists(completed);
    SortedSize(sorted, completed);
    assert x in Elements(sorted);
    var i :| 0 <= i < |sorted| && sorted[i] == x;
    if i >= n {
      var j := TieBefore(completed, sorted, n, i);
      SwapStaysSorted(sorted, completed, i, j);
      sorted, i := Swap(sorted, i, j), j;
    }
    selected := sorted[..n];
    assert selected[i] == x;
  }

  lemma TieBefore(completed: seq<Archive>, sorted: seq<Archive>, n: nat, i: nat) returns (j: nat)
    requires Distinct(completed) && SortedFrom(sorted, completed) && n <= i < |sorted|
    requires |NotOlder(completed, sorted[i])| > |sorted| - n
    ensures j < n && sorted[j].created == sorted[i].created
  {
    SortedSize(sorted, completed);
    DistinctSize(sorted[n..]);
    if forall y :: y in NotOlder(completed, sorted[i]) ==> y in sorted[n..] {
      SubsetIsNoLarger(NotOlder(completed, sorted[i]), Elements(sorted[n..]));
      assert false;
    }
    var y :| y in NotOlder(completed, sorted[i]) && y !in sorted[n..];
    assert y in Elements(sorted) && sorted == sorted[..n] + sorted[n..];
    j :| 0 <= j < n && sorted[..n][j] == y;
  }

  /** What a selection decides about an archive, if the archive's newer and not older ones decide it. */
  lemma SelectionBounds(completed: seq<Archive>, keep: nat, selected: seq<Archive>, x: Archive)
    requires Distinct(completed) && Selects(completed, keep, selected) && x in completed
    ensures |Newer(completed, x)| >= keep ==> x in selected
    ensures |NotOlder(completed, x)| <= keep ==> x !in selected
  {
    if |completed| <= keep {
      DistinctSize(completed);
      assert Newer(completed, x) <= Elements(completed) - {x};
      SubsetIsNoLarger(Newer(completed, x), Elements(completed) - {x});
    } else {
      var sorted :| SortedFrom(sorted, completed) && selected == sorted[..|completed| - keep];
      SortedSize(sorted, completed);
      assert x in Elements(sorted);
      var i :| 0 <= i < |sorted| && sorted[i] == x;
      PositionBounds(completed, sorted, i);
      assert i < |completed| - keep ==> selected[i] == x;
    }
  }

  /**
    Exactly when an archive is selected in every order by age, and when in none: if `keep` completed
    ones are newer, and if no more than `keep`, itself included, are not older.  In between it depends
    on how the sort orders archives of the same age.
   */
  lemma SelectedIff(completed: seq<Archive>, keep: nat, x: Archive)
    requires Distinct(completed) && x in completed
    ensures (forall selected :: Selects(completed, keep, selected) ==> x in selected) <==> |Newer(completed, x)| >= keep
    ensures (forall selected :: Selects(completed, keep, selected) ==> x !in selected) <==> |NotOlder(completed, x)| <= keep
  {
    forall selected | Selects(completed, keep, selected)
      ensures |Newer(completed, x)| >= keep ==> x in selected
      ensures |NotOlder(completed, x)| <= keep ==> x !in selected
    {
      SelectionBounds(completed, keep, selected, x);
    }
    if |Newer(completed, x)| < keep {
      var selected := SpareableIfFewNewer(completed, keep, x);
    }
    if |NotOlder(completed, x)| > keep {
      var selected := SelectableIfManyNotOlder(completed, keep, x);
    }
  }

  ghost predicate OnlyShrinks(some: seq<Archive>, all: seq<Archive>, keep: nat) {
    forall fewer, selected ::
      Selects(some, keep, fewer) && Selects(all, keep, selected) ==> Elements(fewer) <= Elements(selected)
  }

  /** Nothing can be selected among some that need not be selected among all. */
  ghost predicate Decided(some: seq<Archive>, all: seq<Archive>, keep: nat) {
    forall x :: x in some ==> |NotOlder(some, x)| <= keep || |Newer(all, x)| >= keep
  }

  /** Exactly when a selection among fewer archives is sure to be contained in one among all of them. */
  lemma ShrinksIff(some: seq<Archive>, all: seq<Archive>, keep: nat)
    requires Distinct(some) && Distinct(all) && Elements(some) <= Elements(all)
    ensures OnlyShrinks(some, all, keep) <==> Decided(some, all, keep)
  {
    if Decided(some, all, keep) {
      forall fewer, selected, x | Selects(some, keep, fewer) && Selects(all, keep, selected) && x in fewer
        ensures x in selected
      {
        KeepsTheNewest(some, keep, fewer);
        assert x in Elements(fewer) && x in Elements(some) && x in Elements(all);
        SelectionBounds(some, keep, fewer, x);
        SelectionBounds(all, keep, selected, x);
      }
    } else {
      var x :| x in some && |NotOlder(some, x)| > keep && |Newer(all, x)| < keep;
      assert x in Elements(some) && x in Elements(all);
      var fewer := SelectableIfManyNotOlder(some, keep, x);
      var selected := SpareableIfFewNewer(all, keep, x);
      assert x in Elements(fewer) && x !in Elements(selected);
    }
  }

  /** In particular the selection is the same in every order exactly if no tie lies across the cut. */
  lemma DeterminedIff(completed: seq<Archive>, keep: nat)
    requires Distinct(completed)
    ensures OnlyShrinks(completed, completed, keep) <==> Decided(completed, completed, keep)
  {
    ShrinksIff(completed, completed, keep);
  }

  ghost predicate DistinctTimes(archives: seq<Archive>) {
    forall x, y :: x in archives && y in archives && x.created == y.created ==> x == y
  }

  /** With distinct creation times the selection is exactly those with `keep` newer ones. */
  lemma SelectedWithDistinctTimes(completed: seq<Archive>, keep: nat, selected: seq<Archive>, x: Archive)
    requires Distinct(completed) && DistinctTimes(completed) && Selects(completed, keep, selected)
    requires x in completed
    ensures x in selected <==> |Newer(completed, x)| >= keep
  {
    SelectionBounds(completed, keep, selected, x);
    SubsetIsNoLarger(NotOlder(completed, x), Newer(completed, x) + {x});
  }

  /** With distinct creation times everything is decided, also if fewer archives are seen. */
  lemma DistinctTimesDecide(some: seq<Archive>, all: seq<Archive>, keep: nat)
    requires Distinct(some) && Distinct(all) && Elements(some) <= Elements(all) && DistinctTimes(all)
    ensures Decided(some, all, keep)
  {
    forall x | x in some ensures |NotOlder(some, x)| <= keep || |Newer(all, x)| >= keep {
      forall y | y in NotOlder(some, x) ensures y == x || y in Newer(all, x) {
        assert y in Elements(some) && y in Elements(all) && x in Elements(some) && x in Elements(all);
      }
      SubsetIsNoLarger(NotOlder(some, x), Newer(all, x) + {x});
    }
  }

  lemma {:induction false} CompletedIff(archives: seq<Archive>, found: set<SupportArchiveID>)
    ensures forall x :: x in Completed(archives, found) <==> x in archives && x.id in found
    ensures Distinct(archives) ==> Distinct(Completed(archives, found))
  {
    if archives != [] {
      var n := |archives| - 1;
      CompletedIff(archives[..n], found);
      assert archives == archives[..n] + [archives[n]];
    }
  }

  /**
    Exactly when Exists checks that fail can only shrink the selection; distinct creation times are
    enough, but creation times count whole seconds only.
   */
  lemma FailedChecksOnlyShrink(archives: seq<Archive>, zips: set<SupportArchiveID>, unreadable: set<SupportArchiveID>,
                               keep: nat)
    requires Distinct(archives)
    ensures var all, some := Completed(archives, zips), Completed(archives, zips - unreadable);
            && (OnlyShrinks(some, all, keep) <==> Decided(some, all, keep))
            && (DistinctTimes(all) ==> OnlyShrinks(some, all, keep))
  {
    var all, some := Completed(archives, zips), Completed(archives, zips - unreadable);
    CompletedIff(archives, zips - unreadable);
    CompletedIff(archives, zips);
    assert Elements(some) <= Elements(all);
    ShrinksIff(some, all, keep);
    if DistinctTimes(all) {
      DistinctTimesDecide(some, all, keep);
    }
  }

  /** An archive with ties on both sides of the cut is selected in one order and spared in another. */
  lemma TiesMayFlip(completed: seq<Archive>, keep: nat, x: Archive) returns (taken: seq<Archive>, spared: seq<Archive>)
    requires Distinct(completed) && x in completed
    requires |Newer(completed, x)| < keep < |NotOlder(completed, x)|
    ensures Selects(completed, keep, taken) && x in taken
    ensures Selects(completed, keep, spared) && x !in spared
  {
    taken := SelectableIfManyNotOlder(completed, keep, x);
    spared := SpareableIfFewNewer(completed, keep, x);
  }

  // ---------- one round on the cluster ----------

  /** At least `keep` completed archives, or all if there are fewer, are not selected. */
  lemma EnoughAreKept(completed: seq<Archive>, keep: nat, selected: seq<Archive>)
    requires Distinct(completed) && Selects(completed, keep, selected)
    ensures |Elements(completed) - Elements(selected)| >= if |completed| <= keep then |completed| else keep
  {
    KeepsTheNewest(completed, keep, selected);
    DistinctSize(completed);
    DistinctSize(selected);
  }

  ghost predicate UniqueIds(archives: set<Archive>) {
    forall x, y :: x in archives && y in archives && x.id == y.id ==> x == y
  }

  /** A deletion that was confined to the selected archives spares the others, resource and zip. */
  ghost predicate Spares(crs: set<Archive>, zips: set<SupportArchiveID>, selected: seq<Archive>,
                         crs': set<Archive>, zips': set<SupportArchiveID>) {
    && crs' <= crs && zips' <= zips
    && forall x :: x in crs && x !in selected ==> x in crs' && (x.id in zips ==> x.id in zips')
  }

  lemma OthersAreSpared(crs: set<Archive>, zips: set<SupportArchiveID>, selected: seq<Archive>,
                        crFails: set<Archive>, dataFails: set<Archive>)
    requires UniqueIds(crs) && Elements(selected) <= crs
    ensures Spares(crs, zips, selected, crs - (Elements(selected) - crFails),
                   zips - (set x | x in selected && x !in crFails && x !in dataFails :: x.id))
  {
    forall x, y | x in crs && x !in selected && y in selected ensures x.id != y.id {
      assert y in Elements(selected);
    }
  }

  /** What is spared is at least min(keep, completed) archives with resource and zip. */
  lemma EnoughAreSpared(crs: set<Archive>, zips: set<SupportArchiveID>, found: set<SupportArchiveID>,
                        listed: seq<Archive>, keep: nat, selected: seq<Archive>,
                        crs': set<Archive>, zips': set<SupportArchiveID>)
    requires Distinct(listed) && Elements(listed) == crs && found <= zips
    requires Selects(Completed(listed, found), keep, selected) && Spares(crs, zips, selected, crs', zips')
    ensures var completed := |Completed(listed, found)|;
            |set x | x in crs' && x.id in zips'| >= if completed <= keep then completed else keep
  {
    var completed := Completed(listed, found);
    CompletedIff(listed, found);
    EnoughAreKept(completed, keep, selected);
    var kept := Elements(completed) - Elements(selected);
    forall x | x in kept ensures x in crs' && x.id in zips' {
      assert x in completed && x in listed && x in Elements(listed);
    }
    SubsetIsNoLarger(kept, set x | x in crs' && x.id in zips');
  }

  /** The custom resources of the operator's namespace and the stored zips. */
  class Cluster {
    var crs: set<Archive>
    var zips: set<SupportArchiveID>

    constructor (crs: set<Archive>, zips: set<SupportArchiveID>)
      ensures this.crs == crs && this.zips == zips
    {
      this.crs, this.zips := crs, zips;
    }

    /** Deletes resource after resource; the data only of those whose resource could be deleted. */
    method DeleteArchives(toDelete: seq<Archive>, crFails: set<Archive>, dataFails: set<Archive>) returns (errors: nat)
      requires Distinct(toDelete)
      modifies this
      ensures crs == old(crs) - (Elements(toDelete) - crFails)
      ensures zips == old(zips) - (set x | x in toDelete && x !in crFails && x !in dataFails :: x.id)
      ensures errors == 0 <==> Elements(toDelete) !! (crFails + dataFails)
    {
      errors := 0;
      for i := 0 to |toDelete|
        invariant crs == old(crs) - (Elements(toDelete[..i]) - crFails)
        invariant zips == old(zips) - (set x | x in toDelete[..i] && x !in crFails && x !in dataFails :: x.id)
        invariant errors == 0 <==> Elements(toDelete[..i]) !! (crFails + dataFails)
      {
        var archive := toDelete[i];
        assert toDelete[..i + 1] == toDelete[..i] + [archive];
        ElementsSnoc(toDelete[..i], archive);
        if archive in crFails {
          errors := errors + 1;
          continue;
        }
        crs := crs - {archive};
        if archive in dataFails {
          errors := errors + 1;
        } else {
          zips := zips - {archive.id};
        }
      }
      assert toDelete[..|toDelete|] == toDelete;
    }

    /**
      One round.  Whatever fails, every completed archive that was not selected keeps resource
      and zip, and there are at least min(keep, completed) of them.
     */
    method CollectGarbage(listed: seq<Archive>, unreadable: set<SupportArchiveID>, keep: nat,
                          crFails: set<Archive>, dataFails: set<Archive>)
      returns (errors: nat, ghost selected: seq<Archive>)
      requires Distinct(listed) && Elements(listed) == crs
      requires UniqueIds(crs)
      modifies this
      ensures Selects(Completed(listed, old(zips) - unreadable), keep, selected)
      ensures Spares(old(crs), old(zips), selected, crs, zips)
      ensures var completed := |Completed(listed, old(zips) - unreadable)|;
              |set x | x in crs && x.id in zips| >= if completed <= keep then completed else keep
      ensures crs == old(crs) - (Elements(selected) - crFails)
      ensures zips == old(zips) - (set x | x in selected && x !in crFails && x !in dataFails :: x.id)
      ensures errors == 0 <==> (forall x :: x in listed ==> x.id !in unreadable) && Elements(selected) !! (crFails + dataFails)
    {
      var completed, checkErrors := GetCompletedArchives(listed, zips, unreadable);
      CompletedIff(listed, zips - unreadable);
      CompletedIff(listed, unreadable);
      assert forall x :: x in listed <==> x in Elements(listed);
      assert checkErrors == 0 <==> forall x :: x in listed ==> x.id !in unreadable by {
        var failed := Completed(listed, unreadable);
        assert failed != [] ==> failed[0] in failed;
      }
      var toDelete := GetOldestArchivesExcludingTheOnesToKeep(completed, keep);
      KeepsTheNewest(completed, keep, toDelete);
      selected := toDelete;
      var deleteErrors := DeleteArchives(toDelete, crFails, dataFails);
      errors := checkErrors + deleteErrors;
      assert Elements(selected) <= old(crs) by {
        assert Elements(completed) <= Elements(listed);
      }
      OthersAreSpared(old(crs), old(zips), selected, crFails, dataFails);
      EnoughAreSpared(old(crs), old(zips), old(zips) - unreadable, listed, keep, selected, crs, zips);
    }
  }
}
