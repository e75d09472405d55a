/**
  The reconcile step that drives an archive to completion, one collector per call
  (pkg/usecase/create_archive.go:35-57, 77-127, 143-155, 357-399).
 */
module Reconcile {
  import opened Collections
  import opened Domain

  /** The contents a custom resource excludes. */
  datatype Excluded = Excluded(
    logs: bool, volumeInfo: bool, systemInfo: bool, sensitiveData: bool, events: bool, systemState: bool)

  /** getRequiredCollectorMapping */
  function Required(spec: Excluded): set<CollectorType> {
    (if spec.logs then {} else {Logs}) +
    (if spec.volumeInfo then {} else {VolumeInfo}) +
    (if spec.systemInfo then {} else {NodeInfo}) +
    (if spec.sensitiveData then {} else {Secrets}) +
    (if spec.events then {} else {Events}) +
    (if spec.systemState then {} else {SystemState})
  }

  /** A collector is required exactly if its own flag does not exclude it; system info is that of the nodes. */
  lemma RequiredIff(spec: Excluded)
    ensures Logs in Required(spec) <==> !spec.logs
    ensures VolumeInfo in Required(spec) <==> !spec.volumeInfo
    ensures NodeInfo in Required(spec) <==> !spec.systemInfo
    ensures Secrets in Required(spec) <==> !spec.sensitiveData
    ensures Events in Required(spec) <==> !spec.events
    ensures SystemState in Required(spec) <==> !spec.systemState
  {
  }

  /**
    What one call finds broken; `marked`: a failing collector is marked done all the same;
    `zipLeft`: the zip of a failing build cannot be removed.
   */
  datatype Env = Env(
    unreadable: set<CollectorType>, undeletable: set<CollectorType>, existsFails: bool,
    collectorFails: bool, marked: bool, createFails: bool, zipLeft: bool, statusFails: bool)

  predicate Calm(env: Env) {
    env.unreadable == {} && !env.existsFails && !env.collectorFails && !env.createFails && !env.statusFails
  }

  /**
    The state of one archive: markers, zip and published download path, with the collectors
    executed so far and the number of zips built.
   */
  datatype Store = Store(done: set<CollectorType>, zip: bool, url: bool, runs: seq<CollectorType>, builds: nat)

  datatype Outcome = Requeue | Settled | Error

  function Todo(required: set<CollectorType>, s: Store): set<CollectorType> {
    required - s.done
  }

  /** One call: what it finds, and the collector the map order puts first if one is missing. */
  datatype Call = Call(env: Env, next: CollectorType)

  predicate Possible(required: set<CollectorType>, s: Store, call: Call) {
    Todo(required, s) == {} || call.next in Todo(required, s)
  }

  function Execute(s: Store, call: Call): (Store, Outcome) {
    var kept := call.env.collectorFails && !call.env.marked;
    (s.(runs := s.runs + [call.next], done := if kept then s.done else s.done + {call.next}),
     if call.env.collectorFails then Error else Requeue)
  }

  /** Builds the zip that is missing. */
  function Build(s: Store, env: Env): (Store, Outcome) {
    if env.createFails then (s.(zip := env.zipLeft), Error)
    else
      (s.(zip := true, builds := s.builds + 1, url := s.url || !env.statusFails),
       if env.statusFails then Error else Settled)
  }

  /** HandleArchiveRequest on the stored state. */
  function Handle(required: set<CollectorType>, s: Store, call: Call): (Store, Outcome) {
    if call.env.unreadable * required != {} || call.env.existsFails then (s, Error)
    else if Todo(required, s) != {} then Execute(s, call)
    else if s.zip then (s, Settled)
    else Build(s, call.env)
  }

  ghost function AnyOf(cols: set<CollectorType>): (col: CollectorType)
    ensures cols != {} ==> col in cols
  {
    if cols == {} then Logs else var next :| next in cols; next
  }

  class CreateArchiveUseCase {
    var store: Store

    constructor (store: Store)
      ensures this.store == store
    {
      this.store := store;
    }

    method GetAlreadyExecutedCollectors(required: set<CollectorType>, env: Env)
      returns (completed: seq<CollectorType>, ok: bool)
      ensures ok <==> env.unreadable * required == {}
      ensures ok ==> Elements(completed) == required * store.done
    {
      completed := [];
      var rest := required;
      while rest != {}
        invariant rest <= required
        invariant env.unreadable * (required - rest) == {}
        invariant Elements(completed) == (required - rest) * store.done
        decreases rest
      {
        var colType :| colType in rest;
        rest := rest - {colType};
        if colType in env.unreadable {
          assert colType in env.unreadable * required;
          return [], false;
        }
        if colType !in store.done {
          continue;
        }
        ElementsSnoc(completed, colType);
        completed := completed + [colType];
      }
      assert required - rest == required;
      ok := true;
    }

    /** Deletes the data of executed collectors that are not required; a failure is only logged. */
    method DeleteUnusedRepositoryData(required: set<CollectorType>, executed: seq<CollectorType>,
                                      undeletable: set<CollectorType>)
      modifies this
      ensures store == old(store).(done := old(store).done - (Elements(executed) - required - undeletable))
    {
      for i := 0 to |executed|
        invariant store == old(store).(done := old(store).done - (Elements(executed[..i]) - required - undeletable))
      {
        assert executed[..i + 1] == executed[..i] + [executed[i]];
        ElementsSnoc(executed[..i], executed[i]);
        if executed[i] in required {
          continue;
        }
        if executed[i] !in undeletable {
          store := store.(done := store.done - {executed[i]});
        }
      }
      assert executed[..|executed|] == executed;
    }

    method GetCollectorTypesToExecute(required: set<CollectorType>, completed: seq<CollectorType>)
      returns (result: seq<CollectorType>)
      ensures Elements(result) == required - Elements(completed)
    {
      result := [];
      var rest := required;
      while rest != {}
        invariant rest <= required
        invariant Elements(result) == (required - rest) - Elements(completed)
        decreases rest
      {
        var i :| i in rest;
        rest := rest - {i};
        var found := false;
        for j := 0 to |completed|
          invariant !found && i !in completed[..j]
        {
          if i == completed[j] {
            found := true;
            break;
          }
        }
        if !found {
          assert completed[..|completed|] == completed;
          ElementsSnoc(result, i);
          result := result + [i];
        }
      }
    }

    method HandleArchiveRequest(spec: Excluded, env: Env) returns (outcome: Outcome, ghost call: Call)
      modifies this
      ensures call.env == env && Possible(Required(spec), old(store), call)
      ensures (store, outcome) == Handle(Required(spec), old(store), call)
    {
      var required := Required(spec);
      call := Call(env, AnyOf(Todo(required, store)));
      var completed, readable := GetAlreadyExecutedCollectors(required, env);
      if !readable {
        return Error, call;
      }
      DeleteUnusedRepositoryData(required, completed, env.undeletable);
      assert Elements(completed) - required == {};
      assert store == old(store);
      var toExecute := GetCollectorTypesToExecute(required, completed);
      assert Elements(toExecute) == Todo(required, store);
      if env.existsFails {
        return Error, call;
      }
      assert toExecute == [] <==> Todo(required, store) == {} by {
        assert toExecute != [] ==> toExecute[0] in Elements(toExecute);
      }
      if |toExecute| == 0 && !store.zip {
        if env.createFails {
          store := store.(zip := env.zipLeft);
          return Error, call;
        }
        store := store.(zip := true, builds := store.builds + 1);
        if env.statusFails {
          return Error, call;
        }
        store := store.(url := true);
        return Settled, call;
      } else if |toExecute| == 0 {
        return Settled, call;
      }
      var next := toExecute[0];
      assert next in Elements(toExecute);
      call := Call(env, next);
      store := store.(runs := store.runs + [next]);
      if !env.collectorFails || env.marked {
        store := store.(done := store.done + {next});
      }
      outcome := if env.collectorFails then Error else Requeue;
    }
  }

  // ---------- what one call means ----------

  /** The call cannot find out how far the archive is. */
  predicate Blind(required: set<CollectorType>, env: Env) {
    env.existsFails || exists col | col in env.unreadable :: col in required
  }

  /** A required collector is not done. */
  ghost predicate Misses(required: set<CollectorType>, s: Store) {
    exists col :: col in required && col !in s.done
  }

  lemma EmptyOrNot(required: set<CollectorType>, s: Store, env: Env)
    ensures Misses(required, s) <==> Todo(required, s) != {}
    ensures (exists col :: col in env.unreadable && col in required) <==> env.unreadable * required != {}
  {
    if Misses(required, s) {
      var col :| col in required && col !in s.done;
      assert col in Todo(required, s);
    }
    if col :| col in env.unreadable && col in required {
      assert col in env.unreadable * required;
    }
  }

  /** A call fails exactly if it is blind, or the collector, the build or the publication it attempts fails. */
  lemma ErrorIff(required: set<CollectorType>, s: Store, call: Call)
    ensures var missing := Misses(required, s);
            Handle(required, s, call).1 == Error <==>
              || Blind(required, call.env)
              || (missing && call.env.collectorFails)
              || (!missing && !s.zip && (call.env.createFails || call.env.statusFails))
  {
    EmptyOrNot(required, s, call.env);
  }

  /** It asks for a requeue exactly if it ran a missing collector without an error. */
  lemma RequeueIff(required: set<CollectorType>, s: Store, call: Call)
    ensures var missing := Misses(required, s);
            Handle(required, s, call).1 == Requeue <==>
              missing && !Blind(required, call.env) && !call.env.collectorFails
  {
    EmptyOrNot(required, s, call.env);
  }

  /** What a call changes: a marker only by running the collector, zip and path only by building. */
  lemma CallChanges(required: set<CollectorType>, s: Store, call: Call)
    ensures var t, env := Handle(required, s, call).0, call.env;
            var missing := Misses(required, s);
            var builds := !Blind(required, env) && !missing && !s.zip;
            && (!Blind(required, env) && missing <==> t.runs == s.runs + [call.next])
            && (t.runs == s.runs || t.runs == s.runs + [call.next])
            && (t.done == s.done + if t.runs != s.runs && (!env.collectorFails || env.marked) then {call.next} else {})
            && (t.zip <==> s.zip || (builds && (!env.createFails || env.zipLeft)))
            && (t.builds == s.builds + if builds && !env.createFails then 1 else 0)
            && (t.url <==> s.url || (builds && !env.createFails && !env.statusFails))
  {
    EmptyOrNot(required, s, call.env);
    assert |s.runs + [call.next]| == |s.runs| + 1;
  }

  // ---------- runs of calls ----------

  ghost predicate CanRun(required: set<CollectorType>, s: Store, calls: seq<Call>)
    decreases |calls|
  {
    calls == [] || (Possible(required, s, calls[0]) && CanRun(required, Handle(required, s, calls[0]).0, calls[1..]))
  }

  ghost function StateAfter(required: set<CollectorType>, s: Store, calls: seq<Call>): Store
    decreases |calls|
  {
    if calls == [] then s else StateAfter(required, Handle(required, s, calls[0]).0, calls[1..])
  }

  ghost function OutcomesOf(required: set<CollectorType>, s: Store, calls: seq<Call>): (r: seq<Outcome>)
    ensures |r| == |calls|
    decreases |calls|
  {
    if calls == [] then []
    else [Handle(required, s, calls[0]).1] + OutcomesOf(required, Handle(required, s, calls[0]).0, calls[1..])
  }

  /**
    Whatever fails, no run takes a marker or a zip away, not even the data of collectors that are
    no longer required, and it builds at most the one zip that was missing.
   */
  lemma {:induction false} NothingIsCleanedUp(required: set<CollectorType>, s: Store, calls: seq<Call>)
    ensures var t := StateAfter(required, s, calls);
            && s.done <= t.done && (s.zip ==> t.zip)
            && s.builds <= t.builds <= s.builds + (if t.zip && !s.zip then 1 else 0)
    decreases |calls|
  {
    if calls != [] {
      NothingIsCleanedUp(required, Handle(required, s, calls[0]).0, calls[1..]);
    }
  }

  /** Whatever fails, a run executes only required collectors that were not done when it started. */
  lemma {:induction false} NeverReruns(required: set<CollectorType>, s: Store, calls: seq<Call>) returns (ran: seq<CollectorType>)
    requires CanRun(required, s, calls)
    ensures StateAfter(required, s, calls).runs == s.runs + ran
    ensures Elements(ran) <= Todo(required, s)
    decreases |calls|
  {
    ran := [];
    if calls != [] {
      var t := Handle(required, s, calls[0]).0;
      ran := NeverReruns(required, t, calls[1..]);
      if t.runs != s.runs {
        ElementsCons(calls[0].next, ran);
        assert s.runs + [calls[0].next] + ran == s.runs + ([calls[0].next] + ran);
        ran := [calls[0].next] + ran;
      }
    }
  }

  ghost function Requeues(outcomes: seq<Outcome>): nat {
    if outcomes == [] then 0 else (if outcomes[0] == Requeue then 1 else 0) + Requeues(outcomes[1..])
  }

  /** Whatever fails in between, a run asks for no more requeues than collectors were missing at its start. */
  lemma {:induction false} RequeuesAreBounded(required: set<CollectorType>, s: Store, calls: seq<Call>)
    requires CanRun(required, s, calls)
    ensures Requeues(OutcomesOf(required, s, calls)) <= |Todo(required, s)|
    decreases |calls|
  {
    if calls != [] {
      var (t, outcome) := Handle(required, s, calls[0]);
      RequeuesAreBounded(required, t, calls[1..]);
      SubsetIsNoLarger(Todo(required, t), Todo(required, s));
      if outcome == Requeue {
        assert Todo(required, t) == Todo(required, s) - {calls[0].next};
      }
    }
  }

  ghost predicate AllCalm(calls: seq<Call>) {
    forall i :: 0 <= i < |calls| ==> Calm(calls[i].env)
  }

  /** Executed in this order, each once, are exactly these collectors. */
  ghost predicate RanExactly(ran: seq<CollectorType>, cols: set<CollectorType>) {
    Distinct(ran) && Elements(ran) == cols
  }

  /** Everything required is done, and the zip was built if there was none. */
  function Finished(required: set<CollectorType>, s: Store, ran: seq<CollectorType>): Store {
    Store(s.done + required, true, s.url || !s.zip, s.runs + ran, s.builds + if s.zip then 0 else 1)
  }

  lemma CalmExecution(required: set<CollectorType>, s: Store, call: Call)
    requires Calm(call.env) && Todo(required, s) != {} && Possible(required, s, call)
    ensures Handle(required, s, call) == (s.(runs := s.runs + [call.next], done := s.done + {call.next}), Requeue)
    ensures Todo(required, Handle(required, s, call).0) == Todo(required, s) - {call.next}
  {
  }

  lemma OneRanFirst(required: set<CollectorType>, s: Store, next: CollectorType, later: seq<CollectorType>)
    requires next in Todo(required, s) && RanExactly(later, Todo(required, s) - {next})
    ensures RanExactly([next] + later, Todo(required, s))
    ensures Finished(required, s.(runs := s.runs + [next], done := s.done + {next}), later)
         == Finished(required, s, [next] + later)
  {
    ElementsCons(next, later);
    assert next !in later by {
      assert next !in Elements(later);
    }
    assert s.runs + [next] + later == s.runs + ([next] + later);
    assert s.done + {next} + required == s.done + required;
  }

  /**
    Convergence: from any state, for a fixed spec and error-free calls, exactly the missing
    collectors are executed, each once, with one requeue each; then the zip is built, once and
    only if there was none; and however many calls follow, they change nothing.
   */
  lemma {:induction false} Convergence(required: set<CollectorType>, s: Store, calls: seq<Call>)
    returns (ran: seq<CollectorType>)
    requires CanRun(required, s, calls) && AllCalm(calls)
    requires |calls| > |Todo(required, s)|
    ensures RanExactly(ran, Todo(required, s))
    ensures StateAfter(required, s, calls) == Finished(required, s, ran)
    ensures forall i :: 0 <= i < |calls| ==>
              OutcomesOf(required, s, calls)[i] == if i < |Todo(required, s)| then Requeue else Settled
    decreases |calls|
  {
    var call := calls[0];
    assert Calm(call.env);
    if Todo(required, s) == {} {
      ran := [];
      StaysSettled(required, Handle(required, s, call).0, calls[1..]);
      assert s.done + required == s.done && s.runs + ran == s.runs;
    } else {
      CalmExecution(required, s, call);
      var later := Convergence(required, Handle(required, s, call).0, calls[1..]);
      OneRanFirst(required, s, call.next, later);
      ran := [call.next] + later;
    }
  }

  lemma {:induction false} StaysSettled(required: set<CollectorType>, s: Store, calls: seq<Call>)
    requires AllCalm(calls) && Todo(required, s) == {} && s.zip
    ensures StateAfter(required, s, calls) == s
    ensures forall i :: 0 <= i < |calls| ==> OutcomesOf(required, s, calls)[i] == Settled
    decreases |calls|
  {
    if calls != [] {
      assert Calm(calls[0].env);
      StaysSettled(required, s, calls[1..]);
    }
  }

  /** A zip whose download path could not be published is never published by a later call. */
  lemma {:induction false} LostUrlStaysLost(required: set<CollectorType>, s: Store, calls: seq<Call>)
    requires s.zip && !s.url
    ensures !StateAfter(required, s, calls).url
    decreases |calls|
  {
    if calls != [] {
      LostUrlStaysLost(required, Handle(required, s, calls[0]).0, calls[1..]);
    }
  }

  /** A broken zip that a failed build could not remove is taken for the archive from then on: it is never rebuilt. */
  lemma LeftoverIsTakenForTheArchive(required: set<CollectorType>, s: Store, call: Call, calls: seq<Call>)
    requires Todo(required, s) == {} && !s.zip && AllCalm(calls)
    requires call.env.unreadable == {} && !call.env.existsFails && call.env.createFails && call.env.zipLeft
    ensures Handle(required, s, call) == (s.(zip := true), Error)
    ensures StateAfter(required, Handle(required, s, call).0, calls) == s.(zip := true)
    ensures forall i :: 0 <= i < |calls| ==> OutcomesOf(required, Handle(required, s, call).0, calls)[i] == Settled
  {
    StaysSettled(required, s.(zip := true), calls);
  }

  /**
    A collector that fails and is marked done all the same is lost for the archive: its call ends in an
    error, no later call runs it again, and calls that meet no further error build the zip without its data.
   */
  lemma MarkedFailureIsFinal(required: set<CollectorType>, s: Store, call: Call, calls: seq<Call>)
    returns (ran: seq<CollectorType>)
    requires Todo(required, s) != {} && Possible(required, s, call)
    requires call.env.unreadable * required == {} && !call.env.existsFails
    requires call.env.collectorFails && call.env.marked
    requires CanRun(required, Handle(required, s, call).0, calls)
    ensures Handle(required, s, call).1 == Error
    ensures StateAfter(required, Handle(required, s, call).0, calls).runs == s.runs + [call.next] + ran
    ensures call.next !in ran
    ensures AllCalm(calls) && |calls| >= |Todo(required, s)| ==> StateAfter(required, Handle(required, s, call).0, calls).zip
  {
    var t := Handle(required, s, call).0;
    ran := NeverReruns(required, t, calls);
    assert call.next in ran ==> call.next in Elements(ran);
    assert Todo(required, t) == Todo(required, s) - {call.next};
    if AllCalm(calls) && |calls| >= |Todo(required, s)| {
      var later := Convergence(required, t, calls);
    }
  }
}
