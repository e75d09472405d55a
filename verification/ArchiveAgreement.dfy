/**
  Agreement of custom resources and stored zips over whole runs of the operator:
  sync rounds, garbage collection and reconciliation interleave with each other and
  with users who create and delete resources (pkg/usecase/sync_archives.go:73-121;
  pkg/usecase/garbage_collection.go:130-149;
  pkg/adapter/kubernetes/supportArchiveController.go:37-60).
 */
module ArchiveAgreement {
  import opened Collections
  import opened Domain
  import ArchivePaths

  type Id = SupportArchiveID

  // ---------- one sync round, undisturbed ----------

  /** The stored archives without a descriptor. */
  method Diff(stored: seq<Id>, descriptors: seq<Id>) returns (toDelete: set<Id>)
    ensures toDelete == Elements(stored) - Elements(descriptors)
  {
    toDelete := {};
    for i := 0 to |stored|
      invariant toDelete == Elements(stored[..i])
    {
      assert stored[..i + 1] == stored[..i] + [stored[i]];
      ElementsSnoc(stored[..i], stored[i]);
      toDelete := toDelete + {stored[i]};
    }
    assert stored[..|stored|] == stored;
    for i := 0 to |stored|
      invariant toDelete == Elements(stored) - (Elements(stored[..i]) * Elements(descriptors))
    {
      assert stored[..i + 1] == stored[..i] + [stored[i]];
      ElementsSnoc(stored[..i], stored[i]);
      var j := 0;
      while j < |descriptors|
        invariant j <= |descriptors|
        invariant stored[i] !in descriptors[..j]
        invariant toDelete == Elements(stored) - (Elements(stored[..i]) * Elements(descriptors))
      {
        if stored[i].name == descriptors[j].name && stored[i].namespace == descriptors[j].namespace {
          toDelete := toDelete - {stored[i]};
          break;
        }
        j := j + 1;
      }
      assert j == |descriptors| ==> descriptors[..j] == descriptors;
    }
  }

  /** Why a round may go wrong: the zip list (in full or in part), the resource list, or single deletions. */
  datatype Trouble = Trouble(listing: bool, resources: bool, undeletable: set<Id>)

  class Operator {
    var crs: set<Id>
    var zips: set<Id>
    const namespace: string

    constructor (crs: set<Id>, zips: set<Id>, namespace: string)
      ensures this.crs == crs && this.zips == zips && this.namespace == namespace
    {
      this.crs, this.zips, this.namespace := crs, zips, namespace;
    }

    ghost function Listable(): set<Id>
      reads this
    {
      set id | id in crs && id.namespace == namespace
    }

    /**
      `stored`: what List returned, which may name archives that are not stored; deleting those is an
      error.  `events`: the reconciliations triggered.
     */
    method SyncArchives(stored: seq<Id>, descriptors: seq<Id>, trouble: Trouble) returns (events: seq<Id>, ok: bool)
      requires Elements(descriptors) == Listable()
      modifies this`zips
      ensures (trouble.listing && stored == []) || trouble.resources ==> zips == old(zips) && events == [] && !ok
      ensures !((trouble.listing && stored == []) || trouble.resources) ==>
                var toDelete := Elements(stored) - Listable();
                && zips == old(zips) - (toDelete - trouble.undeletable)
                && events == descriptors
                && (ok <==> toDelete <= old(zips) && toDelete !! trouble.undeletable)
      // a resource in the operator's namespace protects its zip, and without trouble nothing else does
      ensures forall id :: id in Listable() && id in old(zips) ==> id in zips
      ensures ok ==> (zips == old(zips) * Listable() <==> old(zips) - Listable() <= Elements(stored))
    {
      events, ok := [], false;
      if |stored| != 0 && trouble.listing {
        // partial failure: only logged
      } else if trouble.listing {
        return;
      }
      if trouble.resources {
        return;
      }
      var toDelete := Diff(stored, descriptors);
      var errors := 0;
      var todo := toDelete;
      while todo != {}
        invariant todo <= toDelete
        invariant zips == old(zips) - ((toDelete - todo) - trouble.undeletable)
        invariant errors >= 0
        invariant errors == 0 <==> toDelete - todo <= old(zips) && (toDelete - todo) !! trouble.undeletable
        decreases todo
      {
        var id :| id in todo;
        todo := todo - {id};
        if id in trouble.undeletable || id !in zips {
          errors := errors + 1;
        } else {
          zips := zips - {id};
        }
      }
      assert toDelete - todo == toDelete;
      for i := 0 to |descriptors|
        invariant events == descriptors[..i]
      {
        events := events + [descriptors[i]];
      }
      ok := errors == 0;
      if ok {
        assert toDelete - trouble.undeletable == toDelete;
        AgreesIff(old(zips), Elements(stored), Listable());
      }
    }

    /**
      A round on the store itself: the list is what a walk finds up to the first file that List does not
      recognize or that cannot be visited; such an error is only logged.  Without error the round leaves
      zips and resources in agreement if and only if the walk found all zips without a resource, and it
      does so if the archives of a store that is walked without a failure are all listable.
     */
    method SyncStore(root: seq<string>, visits: seq<ArchivePaths.Visit>, descriptors: seq<Id>,
                     resources: bool, undeletable: set<Id>)
      returns (events: seq<Id>, ok: bool)
      requires ArchivePaths.ArchivesRoot(root) && Elements(descriptors) == Listable()
      modifies this`zips
      ensures forall id :: id in Listable() && id in old(zips) ==> id in zips
      ensures var found := ArchivePaths.Listed(ArchivePaths.Slashed(root), visits);
              ok ==> (zips == old(zips) * Listable() <==> old(zips) - Listable() <= Elements(found))
      ensures ok && ArchivePaths.WalkOf(root, visits, old(zips)) && ArchivePaths.AllListable(old(zips)) ==>
                zips == old(zips) * Listable()
    {
      var found, outcome := ArchivePaths.List(ArchivePaths.Slashed(root), false, visits);
      if ArchivePaths.WalkOf(root, visits, zips) && ArchivePaths.AllListable(zips) {
        ArchivePaths.ListableStore(root, visits, zips);
      }
      events, ok := SyncArchives(found, descriptors, Trouble(outcome != ArchivePaths.Completed, resources, undeletable));
    }
  }

  lemma AgreesIff(zips: set<Id>, stored: set<Id>, living: set<Id>)
    ensures zips - (stored - living) == zips * living <==> zips - living <= stored
  {
    var rest := zips - (stored - living);
    if rest == zips * living {
      forall id | id in zips - living ensures id in stored {
        assert id !in rest;
      }
    }
  }

  // ---------- interleavings ----------

  datatype Sync = SyncIdle | Compared(stored: set<Id>) | Deleting(todo: set<Id>)

  /** `todo`: selected resources still to be deleted; `Purging`: the resource is gone, its data comes next. */
  datatype Gc = GcIdle | Collecting(todo: set<Id>) | Purging(id: Id, todo: set<Id>)

  /** The reconciler found no resource and is about to delete the data. */
  datatype Reconciler = Waiting | Removing(id: Id)

  datatype State = State(crs: set<Id>, zips: set<Id>, sync: Sync, gc: Gc, rec: Reconciler)

  datatype Step =
    | CreateResource(id: Id)
    | DeleteResource(id: Id)
    | BuildZip(id: Id)
    | SeeMissing(id: Id)
    | RemoveData(removed: bool)
    | ListZips(stored: set<Id>)
    | ListResources
    | SyncFails
    | SyncDelete(id: Id, removed: bool)
    | SyncEnds
    | Select(selected: set<Id>)
    | GcDeleteResource(id: Id, deleted: bool)
    | GcPurge(removed: bool)
    | GcEnds

  predicate Can(s: State, step: Step) {
    match step
    case CreateResource(_) => true
    case DeleteResource(_) => true
    case BuildZip(_) => true
    case SeeMissing(id) => s.rec == Waiting && id !in s.crs
    case RemoveData(_) => s.rec.Removing?
    case ListZips(_) => s.sync == SyncIdle
    case ListResources => s.sync.Compared?
    case SyncFails => s.sync.Compared?
    case SyncDelete(id, _) => s.sync.Deleting? && id in s.sync.todo
    case SyncEnds => s.sync == Deleting({})
    case Select(selected) => s.gc == GcIdle && selected <= s.crs
    case GcDeleteResource(id, _) => s.gc.Collecting? && id in s.gc.todo
    case GcPurge(_) => s.gc.Purging?
    case GcEnds => s.gc == Collecting({})
  }

  function Drop(zips: set<Id>, id: Id, removed: bool): set<Id> {
    if removed then zips - {id} else zips
  }

  function Do(ns: string, s: State, step: Step): State
    requires Can(s, step)
  {
    match step
    case CreateResource(id) => s.(crs := s.crs + {id})
    case DeleteResource(id) => s.(crs := s.crs - {id})
    case BuildZip(id) => s.(zips := s.zips + {id})
    case SeeMissing(id) => s.(rec := Removing(id))
    case RemoveData(removed) => s.(zips := Drop(s.zips, s.rec.id, removed), rec := Waiting)
    case ListZips(stored) => s.(sync := Compared(stored))
    case ListResources => s.(sync := Deleting(set id | id in s.sync.stored && !(id in s.crs && id.namespace == ns)))
    case SyncFails => s.(sync := SyncIdle)
    case SyncDelete(id, removed) => s.(zips := Drop(s.zips, id, removed), sync := Deleting(s.sync.todo - {id}))
    case SyncEnds => s.(sync := SyncIdle)
    case Select(selected) => s.(gc := Collecting(selected))
    case GcDeleteResource(id, deleted) =>
      if deleted then s.(crs := s.crs - {id}, gc := Purging(id, s.gc.todo - {id}))
      else s.(gc := Collecting(s.gc.todo - {id}))
    case GcPurge(removed) => s.(zips := Drop(s.zips, s.gc.id, removed), gc := Collecting(s.gc.todo))
    case GcEnds => s.(gc := GcIdle)
  }

  ghost predicate CanRun(ns: string, s: State, steps: seq<Step>)
    decreases |steps|
  {
    steps == [] || (Can(s, steps[0]) && CanRun(ns, Do(ns, s, steps[0]), steps[1..]))
  }

  ghost function RunOf(ns: string, s: State, steps: seq<Step>): State
    requires CanRun(ns, s, steps)
    decreases |steps|
  {
    if steps == [] then s else RunOf(ns, Do(ns, s, steps[0]), steps[1..])
  }

  /** The resource exists in every state of the run. */
  ghost predicate LivesThrough(ns: string, s: State, steps: seq<Step>, id: Id)
    requires CanRun(ns, s, steps)
    decreases |steps|
  {
    id in s.crs && (steps != [] ==> LivesThrough(ns, Do(ns, s, steps[0]), steps[1..], id))
  }

  predicate SyncDooms(s: State, id: Id) {
    s.sync.Deleting? && id in s.sync.todo
  }

  /** Some actor has already decided to delete the data of the archive. */
  predicate Doomed(s: State, id: Id) {
    || SyncDooms(s, id)
    || (s.gc.Purging? && s.gc.id == id)
    || s.rec == Removing(id)
  }

  /**
    The zip of an archive whose resource, in the operator's namespace, lives through a run is
    never deleted in it: not by sync, not by garbage collection and not by the reconciler.
   */
  lemma {:induction false} LivingArchiveKeepsZip(ns: string, s: State, steps: seq<Step>, id: Id)
    requires CanRun(ns, s, steps) && LivesThrough(ns, s, steps, id)
    requires id.namespace == ns && !Doomed(s, id)
    ensures !Doomed(RunOf(ns, s, steps), id)
    ensures id in s.zips ==> id in RunOf(ns, s, steps).zips
    decreases |steps|
  {
    if steps != [] {
      var t := Do(ns, s, steps[0]);
      assert id in t.crs;
      LivingStep(ns, s, steps[0], id);
      LivingArchiveKeepsZip(ns, t, steps[1..], id);
    }
  }

  lemma LivingStep(ns: string, s: State, step: Step, id: Id)
    requires Can(s, step) && id in s.crs && id in Do(ns, s, step).crs
    requires id.namespace == ns && !Doomed(s, id)
    ensures !Doomed(Do(ns, s, step), id)
    ensures id in s.zips ==> id in Do(ns, s, step).zips
  {
  }

  /** Every deletion that is left in a sync round fails, and the round ends. */
  lemma {:induction false} RoundEnds(ns: string, s: State) returns (steps: seq<Step>)
    ensures CanRun(ns, s, steps) && RunOf(ns, s, steps) == s.(sync := SyncIdle)
    ensures forall id :: id in s.crs ==> LivesThrough(ns, s, steps, id)
    decreases if s.sync.Deleting? then s.sync.todo else {}
  {
    match s.sync
    case SyncIdle =>
      steps := [];
    case Compared(_) =>
      steps := [SyncFails];
    case Deleting(todo) =>
      if todo == {} {
        steps := [SyncEnds];
      } else {
        var id :| id in todo;
        var rest := RoundEnds(ns, Do(ns, s, SyncDelete(id, false)));
        steps := [SyncDelete(id, false)] + rest;
        assert steps[1..] == rest;
      }
  }

  /**
    One sync round that lists all zips deletes that of a living archive outside the operator's namespace,
    since it lists only resources inside it.
   */
  lemma RoundDeletesForeignZip(ns: string, s: State, id: Id) returns (steps: seq<Step>)
    requires s.sync == SyncIdle && id in s.crs && id in s.zips && id.namespace != ns
    ensures CanRun(ns, s, steps) && LivesThrough(ns, s, steps, id) && id !in RunOf(ns, s, steps).zips
  {
    var s1 := Do(ns, s, ListZips(s.zips));
    var s2 := Do(ns, s1, ListResources);
    LivesCons(ns, s2, SyncDelete(id, true), [], id);
    steps := [SyncDelete(id, true)] + [];
    LivesCons(ns, s1, ListResources, steps, id);
    steps := [ListResources] + steps;
    LivesCons(ns, s, ListZips(s.zips), steps, id);
    steps := [ListZips(s.zips)] + steps;
  }

  lemma LivesCons(ns: string, s: State, step: Step, rest: seq<Step>, id: Id)
    requires Can(s, step) && id in s.crs
    requires CanRun(ns, Do(ns, s, step), rest) && LivesThrough(ns, Do(ns, s, step), rest, id)
    ensures CanRun(ns, s, [step] + rest) && RunOf(ns, s, [step] + rest) == RunOf(ns, Do(ns, s, step), rest)
    ensures LivesThrough(ns, s, [step] + rest, id)
  {
    assert ([step] + rest)[1..] == rest;
  }

  lemma {:induction false} LivesOn(ns: string, s: State, a: seq<Step>, b: seq<Step>, id: Id)
    requires CanRun(ns, s, a) && LivesThrough(ns, s, a, id)
    requires CanRun(ns, RunOf(ns, s, a), b) && LivesThrough(ns, RunOf(ns, s, a), b, id)
    ensures CanRun(ns, s, a + b) && RunOf(ns, s, a + b) == RunOf(ns, RunOf(ns, s, a), b)
    ensures LivesThrough(ns, s, a + b, id)
    decreases |a|
  {
    if a == [] {
      assert a + b == b;
    } else {
      assert (a + b)[1..] == a[1..] + b;
      LivesOn(ns, Do(ns, s, a[0]), a[1..], b, id);
    }
  }

  ghost predicate LosesZip(ns: string, s: State, steps: seq<Step>, id: Id) {
    CanRun(ns, s, steps) && LivesThrough(ns, s, steps, id) && id !in RunOf(ns, s, steps).zips
  }

  /** An actor that has decided to delete the data does it, also if the resource lives by then. */
  lemma DoomedLosesZip(ns: string, s: State, id: Id) returns (step: Step)
    requires id in s.crs && Doomed(s, id)
    ensures LosesZip(ns, s, [step] + [], id)
  {
    step := if SyncDooms(s, id) then SyncDelete(id, true)
            else if s.gc.Purging? && s.gc.id == id then GcPurge(true)
            else RemoveData(true);
    LivesCons(ns, s, step, [], id);
  }

  /**
    Exactly when the zip of a living archive is safe, that is when no run through which its resource
    lives can delete it: if the archive is in the operator's namespace and nobody has already decided
    against it.
   */
  lemma SafeIff(ns: string, s: State, id: Id)
    requires id in s.crs && id in s.zips
    ensures (forall steps :: !LosesZip(ns, s, steps, id)) <==> id.namespace == ns && !Doomed(s, id)
  {
    if Doomed(s, id) {
      var step := DoomedLosesZip(ns, s, id);
    } else if id.namespace == ns {
      forall steps ensures !LosesZip(ns, s, steps, id) {
        if CanRun(ns, s, steps) && LivesThrough(ns, s, steps, id) {
          LivingArchiveKeepsZip(ns, s, steps, id);
        }
      }
    } else {
      var first := RoundEnds(ns, s);
      var second := RoundDeletesForeignZip(ns, RunOf(ns, s, first), id);
      LivesOn(ns, s, first, second, id);
      assert LosesZip(ns, s, first + second, id);
    }
  }

  /**
    The race that dooms a living archive: garbage collection (`collected`) or the reconciler decides
    while the resource is gone, and a resource of the same name is created before the data is deleted.
   */
  lemma RecreatedIsDoomed(ns: string, s: State, id: Id, collected: bool) returns (steps: seq<Step>)
    requires id in s.crs && if collected then s.gc == GcIdle else s.rec == Waiting
    ensures CanRun(ns, s, steps)
    ensures var t := RunOf(ns, s, steps);
            Doomed(t, id) && t.crs == s.crs && t.zips == s.zips && t.sync == s.sync
  {
    var decide := if collected then [Select({id}), GcDeleteResource(id, true)] else [DeleteResource(id), SeeMissing(id)];
    var s1 := Do(ns, s, decide[0]);
    var s2 := Do(ns, s1, decide[1]);
    RunCons(ns, s2, CreateResource(id), []);
    steps := [CreateResource(id)] + [];
    RunCons(ns, s1, decide[1], steps);
    steps := [decide[1]] + steps;
    RunCons(ns, s, decide[0], steps);
    steps := [decide[0]] + steps;
    assert s.crs - {id} + {id} == s.crs;
  }

  lemma RunCons(ns: string, s: State, step: Step, rest: seq<Step>)
    requires Can(s, step) && CanRun(ns, Do(ns, s, step), rest)
    ensures CanRun(ns, s, [step] + rest) && RunOf(ns, s, [step] + rest) == RunOf(ns, Do(ns, s, step), rest)
  {
    assert ([step] + rest)[1..] == rest;
  }

  /** Sync itself never touches a living archive of its namespace, whatever the others have decided. */
  lemma {:induction false} SyncSparesLiving(ns: string, s: State, steps: seq<Step>, id: Id, removed: bool)
    requires CanRun(ns, s, steps) && LivesThrough(ns, s, steps, id)
    requires id.namespace == ns && !SyncDooms(s, id)
    ensures SyncDelete(id, removed) !in steps && !SyncDooms(RunOf(ns, s, steps), id)
    decreases |steps|
  {
    if steps != [] {
      var t := Do(ns, s, steps[0]);
      assert id in t.crs;
      SyncSparesLiving(ns, t, steps[1..], id, removed);
      assert steps == [steps[0]] + steps[1..];
    }
  }

  // ---------- what a state says about the steps that led to it ----------

  /** The step may delete the zip of the archive, as the state is in which it is taken. */
  predicate Deletes(s: State, step: Step, id: Id) {
    || step == SyncDelete(id, true)
    || (step == GcPurge(true) && s.gc.Purging? && s.gc.id == id)
    || (step == RemoveData(true) && s.rec == Removing(id))
  }

  ghost predicate SomeDeletes(ns: string, s: State, steps: seq<Step>, id: Id)
    requires CanRun(ns, s, steps)
    decreases |steps|
  {
    steps != [] && (Deletes(s, steps[0], id) || SomeDeletes(ns, Do(ns, s, steps[0]), steps[1..], id))
  }

  lemma FirstOrLater(steps: seq<Step>)
    requires steps != []
    ensures forall step :: step in steps <==> step == steps[0] || step in steps[1..]
  {
    assert steps == [steps[0]] + steps[1..];
  }

  /** A zip comes only from being built, and goes only by one of the three deletions that worked. */
  lemma {:induction false} ZipHistory(ns: string, s: State, steps: seq<Step>, id: Id)
    requires CanRun(ns, s, steps)
    ensures var t := RunOf(ns, s, steps);
            && (id in t.zips ==> id in s.zips || BuildZip(id) in steps)
            && (id !in t.zips ==> (id !in s.zips && BuildZip(id) !in steps) || SomeDeletes(ns, s, steps, id))
    decreases |steps|
  {
    if steps != [] {
      FirstOrLater(steps);
      ZipStep(ns, s, steps[0], id);
      ZipHistory(ns, Do(ns, s, steps[0]), steps[1..], id);
    }
  }

  lemma ZipStep(ns: string, s: State, step: Step, id: Id)
    requires Can(s, step)
    ensures id in Do(ns, s, step).zips <==> (id in s.zips || step == BuildZip(id)) && !Deletes(s, step, id)
  {
  }

  /** A resource comes only from being created, and goes only by a deletion of a user or of garbage collection. */
  lemma {:induction false} ResourceHistory(ns: string, s: State, steps: seq<Step>, id: Id)
    requires CanRun(ns, s, steps)
    ensures var t, deleted := RunOf(ns, s, steps), DeleteResource(id) in steps || GcDeleteResource(id, true) in steps;
            && (id in t.crs ==> id in s.crs || CreateResource(id) in steps)
            && (id !in t.crs ==> (id !in s.crs && CreateResource(id) !in steps) || deleted)
            && (CreateResource(id) !in steps && deleted ==> id !in t.crs)
            && (!deleted && CreateResource(id) in steps ==> id in t.crs)
    decreases |steps|
  {
    if steps != [] {
      FirstOrLater(steps);
      ResourceStep(ns, s, steps[0], id);
      ResourceHistory(ns, Do(ns, s, steps[0]), steps[1..], id);
    }
  }

  lemma ResourceStep(ns: string, s: State, step: Step, id: Id)
    requires Can(s, step)
    ensures id in Do(ns, s, step).crs <==>
              step == CreateResource(id)
              || (id in s.crs && step != DeleteResource(id) && step != GcDeleteResource(id, true))
  {
  }

  /** The step with which an actor decides to delete the data of the archive, as the state is in which it is taken. */
  predicate Decides(ns: string, s: State, step: Step, id: Id) {
    || step == SeeMissing(id)
    || step == GcDeleteResource(id, true)
    || (step == ListResources && s.sync.Compared? && id in s.sync.stored && !(id in s.crs && id.namespace == ns))
  }

  ghost predicate SomeDecides(ns: string, s: State, steps: seq<Step>, id: Id)
    requires CanRun(ns, s, steps)
    decreases |steps|
  {
    steps != [] && (Decides(ns, s, steps[0], id) || SomeDecides(ns, Do(ns, s, steps[0]), steps[1..], id))
  }

  /** Nothing is doomed but by a decision. */
  lemma {:induction false} DoomHistory(ns: string, s: State, steps: seq<Step>, id: Id)
    requires CanRun(ns, s, steps)
    ensures Doomed(RunOf(ns, s, steps), id) ==> Doomed(s, id) || SomeDecides(ns, s, steps, id)
    decreases |steps|
  {
    if steps != [] {
      DoomStep(ns, s, steps[0], id);
      DoomHistory(ns, Do(ns, s, steps[0]), steps[1..], id);
    }
  }

  /** A decision dooms at once; and trying to carry it out ends it, whether the deletion works or not. */
  lemma DoomStep(ns: string, s: State, step: Step, id: Id)
    requires Can(s, step)
    ensures var t := Do(ns, s, step);
            && (Decides(ns, s, step, id) ==> Doomed(t, id))
            && (Doomed(t, id) ==> Doomed(s, id) || Decides(ns, s, step, id))
            && (step.SyncDelete? && step.id == id ==> !SyncDooms(t, id))
            && (step.GcPurge? ==> !t.gc.Purging?)
            && (step.RemoveData? ==> t.rec == Waiting)
  {
  }

  /** A run that only carries on the collection garbage collection is in, with every deletion working. */
  ghost predicate OnlyCollects(steps: seq<Step>) {
    forall step :: step in steps ==> step == GcPurge(true) || (step.GcDeleteResource? && step.deleted)
  }

  /** Whose data garbage collection is still going to delete. */
  function Pending(gc: Gc): set<Id> {
    match gc
    case GcIdle => {}
    case Collecting(todo) => todo
    case Purging(id, todo) => todo + {id}
  }

  /** An undisturbed collection takes exactly what was selected, first the resource and then the data of each. */
  lemma {:induction false} CollectionTakesSelected(ns: string, s: State, steps: seq<Step>)
    requires CanRun(ns, s, steps) && OnlyCollects(steps)
    requires s.gc.Collecting? || (s.gc.Purging? && s.gc.id !in s.gc.todo)
    ensures var t := RunOf(ns, s, steps);
            t.gc == Collecting({}) ==> t.crs == s.crs - s.gc.todo && t.zips == s.zips - Pending(s.gc)
    decreases |steps|
  {
    if steps != [] {
      var t := Do(ns, s, steps[0]);
      FirstOrLater(steps);
      assert steps[0] in steps;
      CollectionTakesSelected(ns, t, steps[1..]);
      assert t.crs - t.gc.todo == s.crs - s.gc.todo;
      assert t.zips - Pending(t.gc) == s.zips - Pending(s.gc);
    } else if s.gc == Collecting({}) {
      assert s.crs - s.gc.todo == s.crs && s.zips - Pending(s.gc) == s.zips;
    }
  }

  /**
    Whoever else is at work and whatever fails, a collection goes through all that was selected: before
    it ends, the deletion of each resource has been tried.
   */
  lemma {:induction false} EachSelectedIsTried(ns: string, s: State, steps: seq<Step>, id: Id)
    requires CanRun(ns, s, steps) && !s.gc.GcIdle? && GcEnds !in steps
    requires id in s.gc.todo
    ensures var t := RunOf(ns, s, steps);
            && !t.gc.GcIdle?
            && (id in t.gc.todo || GcDeleteResource(id, true) in steps || GcDeleteResource(id, false) in steps)
    decreases |steps|
  {
    if steps != [] {
      var t := Do(ns, s, steps[0]);
      FirstOrLater(steps);
      assert steps[0] in steps;
      StillTodo(ns, s, steps[0], id);
      if id in t.gc.todo {
        EachSelectedIsTried(ns, t, steps[1..], id);
      } else {
        StaysCollecting(ns, t, steps[1..]);
      }
    }
  }

  lemma StillTodo(ns: string, s: State, step: Step, id: Id)
    requires Can(s, step) && !s.gc.GcIdle? && !step.GcEnds? && id in s.gc.todo
    ensures var t := Do(ns, s, step); !t.gc.GcIdle? && (id in t.gc.todo || (step.GcDeleteResource? && step.id == id))
  {
  }

  lemma {:induction false} StaysCollecting(ns: string, s: State, steps: seq<Step>)
    requires CanRun(ns, s, steps) && !s.gc.GcIdle? && GcEnds !in steps
    ensures !RunOf(ns, s, steps).gc.GcIdle?
    decreases |steps|
  {
    if steps != [] {
      FirstOrLater(steps);
      assert steps[0] in steps;
      StaysCollecting(ns, Do(ns, s, steps[0]), steps[1..]);
    }
  }

  /** A run that only finishes the round sync is in: nothing else happens and every deletion works. */
  ghost predicate OnlySyncWorks(steps: seq<Step>) {
    forall i :: 0 <= i < |steps| ==> steps[i].SyncDelete? && steps[i].removed
  }

  /**
    An error-free sync round that lists all zips and is not disturbed ends, whatever order it
    deletes in, with exactly the zips that have a resource in the operator's namespace.
   */
  lemma QuietRoundAgrees(ns: string, s: State, deletes: seq<Step>)
    requires s.sync == SyncIdle && OnlySyncWorks(deletes)
    requires CanRun(ns, s, [ListZips(s.zips), ListResources] + deletes)
    requires RunOf(ns, s, [ListZips(s.zips), ListResources] + deletes).sync == Deleting({})
    ensures RunOf(ns, s, [ListZips(s.zips), ListResources] + deletes).zips
         == set id | id in s.zips && id in s.crs && id.namespace == ns
  {
    var steps := [ListZips(s.zips), ListResources] + deletes;
    var t := Do(ns, s, ListZips(s.zips));
    assert steps[1..] == [ListResources] + deletes;
    var u := Do(ns, t, ListResources);
    assert steps[1..][1..] == deletes;
    assert RunOf(ns, s, steps) == RunOf(ns, t, steps[1..]) == RunOf(ns, u, deletes);
    DeletesWhatItDropsFromTodo(ns, u, deletes);
  }

  lemma {:induction false} DeletesWhatItDropsFromTodo(ns: string, s: State, deletes: seq<Step>)
    requires s.sync.Deleting? && OnlySyncWorks(deletes) && CanRun(ns, s, deletes)
    ensures var t := RunOf(ns, s, deletes);
            && t.sync.Deleting? && t.sync.todo <= s.sync.todo
            && t.zips == s.zips - (s.sync.todo - t.sync.todo)
    decreases |deletes|
  {
    if deletes != [] {
      assert deletes[0].SyncDelete?;
      DeletesWhatItDropsFromTodo(ns, Do(ns, s, deletes[0]), deletes[1..]);
    }
  }
}
