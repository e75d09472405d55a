/**
  Running one collector as a concurrent protocol: the collector goroutine sends items
  over an unbuffered channel, the repository goroutine stores them, and an errgroup
  cancels both when one returns an error (pkg/usecase/create_archive.go:334-355;
  pkg/adapter/archive/file/baseFileRepository.go:40-65, 114-169;
  pkg/adapter/collector/logs.go:23-43).
 */
module CollectProtocol {
  /** `prior`: what an earlier, unfinished run left; `selects`: the collector gives up a send when the context is done. */
  datatype Config = Config(items: seq<string>, prior: seq<string>, selects: bool)

  /** A collector closes its channel in a defer, so before its error reaches the errgroup. */
  datatype Collector = Working | Sending | Closed(ok: bool) | Returned(ok: bool)

  datatype Repository = Receiving | Storing(item: string) | Cleaning | Finishing | Closing | Ended(ok: bool)

  datatype State = State(
    collector: Collector,
    next: nat,              // items sent or given up
    given: nat,             // items given up because the context was done
    repo: Repository,
    handed: seq<string>,    // items received, in order
    content: seq<string>,   // the collector directory without its marker
    done: bool,             // the `.done` marker exists
    failed: bool,           // storing an item failed
    leftover: bool,         // deleting the directory after that failed too
    cancelled: bool,
    external: bool)

  datatype Step =
    | Offer
    | CollectorFails
    | CollectorEnds
    | CollectorReturns
    | GiveUp
    | Hand
    | Stored
    | StoreFails(partial: seq<string>)
    | Deleted(ok: bool)
    | SawClosed
    | Finish(ok: bool, marked: bool)
    | CloseHandles(ok: bool)
    | ContextDone
    | ExternalCancel

  function Init(cfg: Config): State {
    State(Working, 0, 0, Receiving, [], cfg.prior, false, false, false, false, false)
  }

  predicate ChannelClosed(s: State) {
    s.collector.Closed? || s.collector.Returned?
  }

  predicate Can(cfg: Config, s: State, step: Step) {
    match step
    case Offer => s.collector == Working && s.next < |cfg.items|
    case CollectorFails => s.collector == Working
    case CollectorEnds => s.collector == Working && s.next >= |cfg.items|
    case CollectorReturns => s.collector.Closed?
    case GiveUp => s.collector == Sending && s.cancelled && cfg.selects
    case Hand => s.collector == Sending && s.repo == Receiving && s.next < |cfg.items|
    case Stored => s.repo.Storing?
    case StoreFails(_) => s.repo.Storing?
    case Deleted(_) => s.repo == Cleaning
    case SawClosed => s.repo == Receiving && ChannelClosed(s)
    case Finish(ok, marked) => s.repo == Finishing && (ok ==> marked)
    case CloseHandles(_) => s.repo == Closing
    case ContextDone => s.repo == Receiving && s.cancelled
    case ExternalCancel => !s.external
  }

  function End(s: State, ok: bool): State {
    s.(repo := Ended(ok), cancelled := s.cancelled || !ok)
  }

  function Do(cfg: Config, s: State, step: Step): State
    requires Can(cfg, s, step)
  {
    match step
    case Offer => s.(collector := Sending)
    case CollectorFails => s.(collector := Closed(false))
    case CollectorEnds => s.(collector := Closed(true))
    case CollectorReturns => s.(collector := Returned(s.collector.ok), cancelled := s.cancelled || !s.collector.ok)
    case GiveUp => s.(collector := Working, next := s.next + 1, given := s.given + 1)
    case Hand =>
      var item := cfg.items[s.next];
      s.(collector := Working, next := s.next + 1, repo := Storing(item), handed := s.handed + [item])
    case Stored => s.(repo := Receiving, content := s.content + [s.repo.item])
    case StoreFails(partial) => s.(repo := Cleaning, failed := true, content := s.content + partial)
    case Deleted(ok) => End(if ok then s.(content := [], done := false) else s.(leftover := true), false)
    case SawClosed => s.(repo := Finishing)
    case Finish(ok, marked) => if ok then s.(repo := Closing, done := true) else End(s.(done := marked), false)
    case CloseHandles(ok) => End(s, ok)
    case ContextDone => End(s, false)
    case ExternalCancel => s.(cancelled := true, external := true)
  }

  ghost predicate CanRun(cfg: Config, s: State, steps: seq<Step>)
    decreases |steps|
  {
    steps == [] || (Can(cfg, s, steps[0]) && CanRun(cfg, Do(cfg, s, steps[0]), steps[1..]))
  }

  ghost function RunOf(cfg: Config, s: State, steps: seq<Step>): State
    requires CanRun(cfg, s, steps)
    decreases |steps|
  {
    if steps == [] then s else RunOf(cfg, Do(cfg, s, steps[0]), steps[1..])
  }

  /** The errgroup's Wait has returned. */
  predicate Final(s: State) {
    s.collector.Returned? && s.repo.Ended?
  }

  predicate Success(s: State) {
    s.collector == Returned(true) && s.repo == Ended(true)
  }

  // ---------- inductive invariant ----------

  ghost predicate Counts(cfg: Config, s: State) {
    && |s.handed| + s.given == s.next <= |cfg.items|
    && (s.collector == Sending ==> s.next < |cfg.items|)
    && (s.given == 0 ==> s.handed == cfg.items[..s.next])
    && (s.collector == Closed(true) || s.collector == Returned(true) ==> s.next == |cfg.items|)
  }

  /** Who may have cancelled the context, and that giving up a send needs it cancelled. */
  ghost predicate Causes(s: State) {
    && (s.cancelled <==> s.external || s.collector == Returned(false) || s.repo == Ended(false))
    && (s.given > 0 && !s.external ==> s.repo == Ended(false) && !s.done)
  }

  /** Without outside cancellation the receiver leaves a sending collector only because storing an item failed. */
  ghost predicate Leaves(s: State) {
    && (s.failed || s.repo.Storing? ==> s.handed != [])
    && (s.repo.Ended? && !s.external && !ChannelClosed(s) ==> s.failed)
  }

  ghost predicate HandedInOrder(cfg: Config, s: State) {
    !s.external ==> s.handed <= cfg.items
  }

  /** The directory: the earlier content, then what was received, except an item that is being stored. */
  ghost predicate Directory(cfg: Config, s: State) {
    && (s.repo.Storing? ==> s.handed != [] && s.handed[|s.handed| - 1] == s.repo.item)
    && (s.repo == Cleaning ==> s.failed)
    && (s.failed ==> s.repo == Cleaning || s.repo == Ended(false))
    && (!s.failed ==> s.content == cfg.prior + (if s.repo.Storing? then s.handed[..|s.handed| - 1] else s.handed))
    && (s.failed && s.repo == Ended(false) && !s.leftover ==> s.content == [])
  }

  ghost predicate Marker(s: State) {
    && (s.done ==> ChannelClosed(s) && !s.failed && (s.repo == Closing || s.repo.Ended?))
    && (s.repo.Finishing? || s.repo.Closing? ==> ChannelClosed(s) && !s.failed)
    && (s.repo == Closing || s.repo == Ended(true) ==> s.done)
  }

  ghost predicate Inv(cfg: Config, s: State) {
    Counts(cfg, s) && Causes(s) && Leaves(s) && HandedInOrder(cfg, s) && Directory(cfg, s) && Marker(s)
  }

  lemma KeepsCounts(cfg: Config, s: State, step: Step)
    requires Counts(cfg, s) && Can(cfg, s, step)
    ensures Counts(cfg, Do(cfg, s, step))
  {
    if step.Hand? {
      assert cfg.items[..s.next + 1] == cfg.items[..s.next] + [cfg.items[s.next]];
    } else if !ByCollector(step) {
      assert Do(cfg, s, step).handed == s.handed && Do(cfg, s, step).given == s.given;
    }
  }

  lemma KeepsCauses(cfg: Config, s: State, step: Step)
    requires Causes(s) && Marker(s) && Can(cfg, s, step)
    ensures Causes(Do(cfg, s, step))
  {
  }

  lemma KeepsLeaves(cfg: Config, s: State, step: Step)
    requires Causes(s) && Marker(s) && Directory(cfg, s) && Leaves(s) && Can(cfg, s, step)
    ensures Leaves(Do(cfg, s, step))
  {
  }

  lemma KeepsHandedInOrder(cfg: Config, s: State, step: Step)
    requires Counts(cfg, s) && Causes(s) && HandedInOrder(cfg, s) && Can(cfg, s, step)
    ensures HandedInOrder(cfg, Do(cfg, s, step))
  {
    if step.Hand? && !s.external {
      assert s.handed + [cfg.items[s.next]] == cfg.items[..s.next + 1];
    }
  }

  lemma KeepsDirectory(cfg: Config, s: State, step: Step)
    requires Directory(cfg, s) && Can(cfg, s, step)
    ensures Directory(cfg, Do(cfg, s, step))
  {
    match step
    case Offer =>
    case GiveUp =>
    case Hand =>
      assert (s.handed + [cfg.items[s.next]])[..|s.handed|] == s.handed;
    case Stored =>
      assert s.handed == s.handed[..|s.handed| - 1] + [s.repo.item];
      assert cfg.prior + s.handed == cfg.prior + s.handed[..|s.handed| - 1] + [s.repo.item];
    case StoreFails(_) =>
    case Deleted(_) =>
    case Finish(_, _) =>
    case _ =>
  }

  lemma KeepsMarker(cfg: Config, s: State, step: Step)
    requires Directory(cfg, s) && Marker(s) && Can(cfg, s, step)
    ensures Marker(Do(cfg, s, step))
  {
    match step
    case Hand =>
    case Stored =>
    case StoreFails(_) =>
    case Deleted(_) =>
    case SawClosed =>
    case Finish(_, _) =>
    case _ =>
  }

  lemma InitInv(cfg: Config)
    ensures Inv(cfg, Init(cfg))
  {
    assert cfg.items[..0] == [] && cfg.prior + [] == cfg.prior;
  }

  lemma StepKeepsInv(cfg: Config, s: State, step: Step)
    requires Inv(cfg, s) && Can(cfg, s, step)
    ensures Inv(cfg, Do(cfg, s, step))
  {
    KeepsCounts(cfg, s, step);
    KeepsCauses(cfg, s, step);
    KeepsLeaves(cfg, s, step);
    KeepsHandedInOrder(cfg, s, step);
    KeepsDirectory(cfg, s, step);
    KeepsMarker(cfg, s, step);
  }

  lemma {:induction false} RunKeepsInv(cfg: Config, s: State, steps: seq<Step>)
    requires Inv(cfg, s) && CanRun(cfg, s, steps)
    ensures Inv(cfg, RunOf(cfg, s, steps))
    decreases |steps|
  {
    if steps != [] {
      StepKeepsInv(cfg, s, steps[0]);
      RunKeepsInv(cfg, Do(cfg, s, steps[0]), steps[1..]);
    }
  }

  // ---------- what a state says about the steps that led to it ----------

  /** A step in which the error of the collector or of the repository arises. */
  predicate Failing(step: Step) {
    || step.CollectorFails? || step.StoreFails? || step.ContextDone?
    || (step.Finish? && !step.ok) || (step.CloseHandles? && !step.ok)
  }

  ghost predicate NothingFails(steps: seq<Step>) {
    forall step :: step in steps ==> !Failing(step)
  }

  ghost predicate StoringFails(steps: seq<Step>) {
    exists step :: step in steps && step.StoreFails?
  }

  /** The marker was written, by a Finish that worked or by one that failed after creating it. */
  ghost predicate Marks(steps: seq<Step>) {
    exists step :: step in steps && step.Finish? && step.marked
  }

  lemma FirstOrLater(steps: seq<Step>)
    requires steps != []
    ensures forall step :: step in steps <==> step == steps[0] || step in steps[1..]
  {
    assert steps == [steps[0]] + steps[1..];
  }

  /** Some error has arisen; a failing store cleans up before it returns. */
  predicate Broken(s: State) {
    || s.collector == Closed(false) || s.collector == Returned(false)
    || s.repo == Cleaning || s.repo == Ended(false)
  }

  lemma RepositoryHistory(cfg: Config, s: State, step: Step)
    requires Can(cfg, s, step) && Marker(s) && Directory(cfg, s) && (s.leftover ==> s.repo == Ended(false))
    ensures var t := Do(cfg, s, step);
            && (t.failed <==> s.failed || step.StoreFails?)
            && (t.leftover <==> s.leftover || step == Deleted(false))
            && (t.leftover ==> t.repo == Ended(false))
            && (t.done <==> s.done || (step.Finish? && step.marked))
  {
    match step
    case Finish(_, _) =>
    case Deleted(_) =>
    case StoreFails(_) =>
    case CloseHandles(_) =>
    case _ =>
  }

  lemma CollectorHistory(cfg: Config, s: State, step: Step)
    requires Can(cfg, s, step)
    ensures var t := Do(cfg, s, step);
            && (t.external <==> s.external || step == ExternalCancel)
            && (t.given > 0 <==> s.given > 0 || step == GiveUp)
            && (Broken(t) <==> Broken(s) || Failing(step))
            && (t.collector in {Closed(false), Returned(false)} <==>
                  s.collector in {Closed(false), Returned(false)} || step == CollectorFails)
  {
    match step
    case CollectorReturns =>
    case CollectorFails =>
    case Finish(_, _) =>
    case Deleted(_) =>
    case CloseHandles(_) =>
    case _ =>
  }

  lemma {:induction false} History(cfg: Config, s: State, steps: seq<Step>)
    requires CanRun(cfg, s, steps) && Inv(cfg, s) && (s.leftover ==> s.repo == Ended(false))
    ensures var t := RunOf(cfg, s, steps);
            && (t.failed <==> s.failed || StoringFails(steps))
            && (t.leftover <==> s.leftover || Deleted(false) in steps)
            && (t.done <==> s.done || Marks(steps))
            && (t.external <==> s.external || ExternalCancel in steps)
            && (t.given > 0 <==> s.given > 0 || GiveUp in steps)
            && (Broken(t) <==> Broken(s) || !NothingFails(steps))
            && (t.collector in {Closed(false), Returned(false)} <==>
                  s.collector in {Closed(false), Returned(false)} || CollectorFails in steps)
    decreases |steps|
  {
    if steps != [] {
      RepositoryHistory(cfg, s, steps[0]);
      CollectorHistory(cfg, s, steps[0]);
      StepKeepsInv(cfg, s, steps[0]);
      FirstOrLater(steps);
      History(cfg, Do(cfg, s, steps[0]), steps[1..]);
    }
  }

  /** What an error can come from: a failure of collector or repository, or a cancellation from outside. */
  predicate Roots(step: Step) {
    step.ExternalCancel? || (Failing(step) && !step.ContextDone?)
  }

  ghost predicate Rooted(steps: seq<Step>) {
    exists step :: step in steps && Roots(step)
  }

  lemma RootStep(cfg: Config, s: State, step: Step)
    requires Can(cfg, s, step)
    ensures var t := Do(cfg, s, step); Broken(t) || t.cancelled ==> Broken(s) || s.cancelled || Roots(step)
  {
    match step
    case CollectorReturns =>
    case Finish(_, _) =>
    case Deleted(_) =>
    case CloseHandles(_) =>
    case _ =>
  }

  /** The end of the context is never the first thing to go wrong. */
  lemma {:induction false} ErrorHasCause(cfg: Config, s: State, steps: seq<Step>)
    requires CanRun(cfg, s, steps)
    ensures var t := RunOf(cfg, s, steps); Broken(t) || t.cancelled ==> Broken(s) || s.cancelled || Rooted(steps)
    decreases |steps|
  {
    if steps != [] {
      RootStep(cfg, s, steps[0]);
      FirstOrLater(steps);
      ErrorHasCause(cfg, Do(cfg, s, steps[0]), steps[1..]);
    }
  }

  // ---------- safety of every run ----------

  /**
    startCollector returns without an error exactly if no step of collector or repository failed; and an
    error has a cause: a failure other than the end of the context, or a cancellation from outside.
   */
  lemma SucceedsIff(cfg: Config, steps: seq<Step>)
    requires CanRun(cfg, Init(cfg), steps) && Final(RunOf(cfg, Init(cfg), steps))
    ensures Success(RunOf(cfg, Init(cfg), steps)) <==> NothingFails(steps)
    ensures !Success(RunOf(cfg, Init(cfg), steps)) ==> Rooted(steps)
  {
    InitInv(cfg);
    History(cfg, Init(cfg), steps);
    ErrorHasCause(cfg, Init(cfg), steps);
  }

  /**
    At every moment of every run without outside cancellation, and for good when it ends, the
    directory holds the earlier content followed by a prefix of what the collector sends, unless
    storing an item has failed.
   */
  lemma StoresAPrefix(cfg: Config, steps: seq<Step>) returns (k: nat)
    requires CanRun(cfg, Init(cfg), steps)
    ensures k <= |cfg.items|
    ensures ExternalCancel !in steps && !StoringFails(steps) ==>
              RunOf(cfg, Init(cfg), steps).content == cfg.prior + cfg.items[..k]
  {
    InitInv(cfg);
    RunKeepsInv(cfg, Init(cfg), steps);
    History(cfg, Init(cfg), steps);
    var s := RunOf(cfg, Init(cfg), steps);
    k := if s.repo.Storing? then |s.handed| - 1 else |s.handed|;
    if !s.external {
      assert s.handed[..k] == cfg.items[..k];
    }
    assert s.handed[..|s.handed|] == s.handed;
  }

  /**
    What the marker means, in every run and at every moment: the channel was closed and the repository's
    store function accepted everything that was received (which for node samples is not yet on disk).
    It is complete if and only if the collector got through all its items and none of its sends was given
    up; without a cancellation from outside the latter is sure, so that the marker of a collector that
    ends without an error is complete.
   */
  lemma MarkerMeaning(cfg: Config, steps: seq<Step>)
    requires CanRun(cfg, Init(cfg), steps)
    ensures var s := RunOf(cfg, Init(cfg), steps);
            && (s.done <==> Marks(steps))
            && (s.done ==> ChannelClosed(s) && s.content == cfg.prior + s.handed)
            && (s.done ==> (s.content == cfg.prior + cfg.items <==> GiveUp !in steps && s.next == |cfg.items|))
            && (s.done && CollectorFails !in steps ==> (s.content == cfg.prior + cfg.items <==> GiveUp !in steps))
            && (s.done && ExternalCancel !in steps ==> (s.content == cfg.prior + cfg.items <==> s.next == |cfg.items|))
            && (s.done && ExternalCancel !in steps && CollectorFails !in steps ==> s.content == cfg.prior + cfg.items)
            && (Success(s) ==> s.done && CollectorFails !in steps)
  {
    InitInv(cfg);
    RunKeepsInv(cfg, Init(cfg), steps);
    History(cfg, Init(cfg), steps);
    var s := RunOf(cfg, Init(cfg), steps);
    assert cfg.items[..|cfg.items|] == cfg.items;
    assert s.done ==> |s.content| == |cfg.prior| + |s.handed|;
    assert s.done && CollectorFails !in steps ==> s.collector.ok;
  }

  /** If storing any item failed, startCollector fails, and directory and marker are gone on return unless deleting failed. */
  lemma FailedStoreLeavesNothing(cfg: Config, steps: seq<Step>)
    requires CanRun(cfg, Init(cfg), steps) && StoringFails(steps)
    ensures var s := RunOf(cfg, Init(cfg), steps);
            Final(s) ==> s.repo == Ended(false) && !s.done && (Deleted(false) !in steps ==> s.content == [])
  {
    InitInv(cfg);
    RunKeepsInv(cfg, Init(cfg), steps);
    History(cfg, Init(cfg), steps);
  }

  // ---------- deadlock freedom, and the one way to get stuck ----------

  ghost predicate Stuck(cfg: Config, s: State) {
    !Final(s) && forall step :: Can(cfg, s, step) ==> step.ExternalCancel?
  }

  lemma SomeStep(cfg: Config, s: State) returns (step: Step)
    requires Inv(cfg, s) && !Final(s)
    requires cfg.selects || !(s.repo.Ended? && s.collector == Sending)
    ensures Can(cfg, s, step) && !step.ExternalCancel?
  {
    match s.repo
    case Storing(_) => step := Stored;
    case Cleaning => step := Deleted(true);
    case Finishing => step := Finish(true, true);
    case Closing => step := CloseHandles(true);
    case Receiving =>
      step := match s.collector
              case Working => if s.next < |cfg.items| then Offer else CollectorEnds
              case Sending => Hand
              case Closed(_) => CollectorReturns
              case Returned(_) => SawClosed;
    case Ended(_) =>
      step := match s.collector
              case Working => if s.next < |cfg.items| then Offer else CollectorEnds
              case Sending => GiveUp
              case _ => CollectorReturns;
  }

  /** A reachable state is stuck exactly when a collector that sends without a select outlives its receiver. */
  lemma StuckIff(cfg: Config, s: State)
    requires Inv(cfg, s)
    ensures Stuck(cfg, s) <==> !cfg.selects && s.repo.Ended? && s.collector == Sending
  {
    if Final(s) {
    } else if cfg.selects || !(s.repo.Ended? && s.collector == Sending) {
      var step := SomeStep(cfg, s);
      assert Can(cfg, s, step);
    }
  }

  /** ... and a select-sending collector never gets stuck, in any run. */
  lemma SelectNeverStuck(cfg: Config, steps: seq<Step>)
    requires cfg.selects && CanRun(cfg, Init(cfg), steps)
    ensures !Stuck(cfg, RunOf(cfg, Init(cfg), steps))
  {
    InitInv(cfg);
    RunKeepsInv(cfg, Init(cfg), steps);
    StuckIff(cfg, RunOf(cfg, Init(cfg), steps));
  }

  function CollectorRank(c: Collector, left: nat): nat {
    match c
    case Working => 4 * left + 2
    case Sending => 4 * left + 1
    case Closed(_) => 1
    case Returned(_) => 0
  }

  function RepositoryRank(r: Repository): nat {
    match r
    case Receiving => 3
    case Storing(_) => 4
    case Cleaning => 1
    case Finishing => 2
    case Closing => 1
    case Ended(_) => 0
  }

  function Measure(cfg: Config, s: State): nat
    requires s.next <= |cfg.items|
  {
    CollectorRank(s.collector, |cfg.items| - s.next) + RepositoryRank(s.repo) + if s.external then 0 else 1
  }

  predicate ByCollector(step: Step) {
    step.Offer? || step.CollectorFails? || step.CollectorEnds? || step.CollectorReturns? || step.GiveUp? || step.Hand?
  }

  lemma CollectorStepDecreases(cfg: Config, s: State, step: Step)
    requires Can(cfg, s, step) && ByCollector(step)
    requires s.next <= |cfg.items| && Do(cfg, s, step).next <= |cfg.items|
    ensures Measure(cfg, Do(cfg, s, step)) < Measure(cfg, s)
  {
    match step
    case Offer =>
    case CollectorFails =>
    case CollectorEnds =>
    case CollectorReturns =>
    case GiveUp =>
    case Hand =>
  }

  lemma RepositoryStepDecreases(cfg: Config, s: State, step: Step)
    requires Can(cfg, s, step) && !ByCollector(step) && !step.ExternalCancel?
    ensures RepositoryRank(Do(cfg, s, step).repo) < RepositoryRank(s.repo)
    ensures var t := Do(cfg, s, step); t.collector == s.collector && t.next == s.next && t.external == s.external
  {
    match step
    case Finish(_, _) =>
    case Deleted(_) =>
    case CloseHandles(_) =>
    case _ =>
  }

  /** Every run is finite. */
  lemma {:induction false} RunsAreBounded(cfg: Config, s: State, steps: seq<Step>)
    requires Inv(cfg, s) && CanRun(cfg, s, steps)
    ensures |steps| <= Measure(cfg, s)
    decreases |steps|
  {
    if steps != [] {
      StepKeepsInv(cfg, s, steps[0]);
      if ByCollector(steps[0]) {
        CollectorStepDecreases(cfg, s, steps[0]);
      } else if !steps[0].ExternalCancel? {
        RepositoryStepDecreases(cfg, s, steps[0]);
      }
      RunsAreBounded(cfg, Do(cfg, s, steps[0]), steps[1..]);
    }
  }

  // ---------- concrete runs ----------

  lemma RunCons(cfg: Config, s: State, step: Step, rest: seq<Step>)
    requires Can(cfg, s, step) && CanRun(cfg, Do(cfg, s, step), rest)
    ensures CanRun(cfg, s, [step] + rest) && RunOf(cfg, s, [step] + rest) == RunOf(cfg, Do(cfg, s, step), rest)
  {
    assert ([step] + rest)[1..] == rest;
  }

  /** The marker does not say that the collector succeeded: it can fail, close its channel, and be marked done. */
  lemma MarkedAlthoughFailed() returns (cfg: Config, steps: seq<Step>)
    ensures CanRun(cfg, Init(cfg), steps)
    ensures var s := RunOf(cfg, Init(cfg), steps);
            Final(s) && !Success(s) && !s.external && s.done && s.content == [] && cfg.items == ["line"]
  {
    cfg := Config(["line"], [], true);
    var s0 := Init(cfg);
    var s1 := Do(cfg, s0, CollectorFails);
    var s2 := Do(cfg, s1, SawClosed);
    var s3 := Do(cfg, s2, Finish(true, true));
    var s4 := Do(cfg, s3, CloseHandles(true));
    steps := [CollectorReturns];
    RunCons(cfg, s4, CollectorReturns, []);
    RunCons(cfg, s3, CloseHandles(true), steps);
    steps := [CloseHandles(true)] + steps;
    RunCons(cfg, s2, Finish(true, true), steps);
    steps := [Finish(true, true)] + steps;
    RunCons(cfg, s1, SawClosed, steps);
    steps := [SawClosed] + steps;
    RunCons(cfg, s0, CollectorFails, steps);
    steps := [CollectorFails] + steps;
  }

  ghost predicate GetsStuck(cfg: Config, steps: seq<Step>) {
    CanRun(cfg, Init(cfg), steps) && Stuck(cfg, RunOf(cfg, Init(cfg), steps))
  }

  /** A collector that sends without a select can be left behind at its first item by a cancellation from outside. */
  lemma LeftByCancellation(cfg: Config) returns (steps: seq<Step>)
    requires !cfg.selects && cfg.items != []
    ensures GetsStuck(cfg, steps)
  {
    var s0 := Init(cfg);
    var s1 := Do(cfg, s0, Offer);
    var s2 := Do(cfg, s1, ExternalCancel);
    RunCons(cfg, s2, ContextDone, []);
    RunCons(cfg, s1, ExternalCancel, [ContextDone] + []);
    steps := [ExternalCancel] + ([ContextDone] + []);
    RunCons(cfg, s0, Offer, steps);
    steps := [Offer] + steps;
  }

  /** ... and at its second, without any cancellation, because storing the first one fails. */
  lemma LeftByFailedStore(cfg: Config) returns (steps: seq<Step>)
    requires !cfg.selects && |cfg.items| >= 2
    ensures GetsStuck(cfg, steps) && ExternalCancel !in steps
  {
    var s0 := Init(cfg);
    var s1 := Do(cfg, s0, Offer);
    var s2 := Do(cfg, s1, Hand);
    var s3 := Do(cfg, s2, Offer);
    var s4 := Do(cfg, s3, StoreFails([]));
    steps := [Deleted(true)];
    RunCons(cfg, s4, Deleted(true), []);
    RunCons(cfg, s3, StoreFails([]), steps);
    steps := [StoreFails([])] + steps;
    RunCons(cfg, s2, Offer, steps);
    steps := [Offer] + steps;
    RunCons(cfg, s1, Hand, steps);
    steps := [Hand] + steps;
    RunCons(cfg, s0, Offer, steps);
    steps := [Offer] + steps;
  }

  /**
    Which collections can get stuck: those of a collector that sends without a select and has an item
    at all; and, as long as nobody cancels from outside, those in which it has a second one.
   */
  lemma CanGetStuckIff(cfg: Config)
    ensures (exists steps :: GetsStuck(cfg, steps)) <==> !cfg.selects && cfg.items != []
    ensures (exists steps :: GetsStuck(cfg, steps) && ExternalCancel !in steps) <==> !cfg.selects && |cfg.items| >= 2
  {
    forall steps | GetsStuck(cfg, steps)
      ensures !cfg.selects && cfg.items != []
      ensures ExternalCancel in steps || |cfg.items| >= 2
    {
      InitInv(cfg);
      RunKeepsInv(cfg, Init(cfg), steps);
      StuckIff(cfg, RunOf(cfg, Init(cfg), steps));
      History(cfg, Init(cfg), steps);
    }
    if !cfg.selects && cfg.items != [] {
      var steps := LeftByCancellation(cfg);
      if |cfg.items| >= 2 {
        steps := LeftByFailedStore(cfg);
      }
    }
  }

  lemma OneStored(cfg: Config, s: State) returns (steps: seq<Step>)
    requires s.collector == Working && s.repo == Receiving && s.next < |cfg.items|
    ensures CanRun(cfg, s, steps)
    ensures var item := cfg.items[s.next];
            RunOf(cfg, s, steps) == s.(next := s.next + 1, handed := s.handed + [item], content := s.content + [item])
  {
    var s1 := Do(cfg, s, Offer);
    var s2 := Do(cfg, s1, Hand);
    RunCons(cfg, s2, Stored, []);
    steps := [Stored] + [];
    RunCons(cfg, s1, Hand, steps);
    steps := [Hand] + steps;
    RunCons(cfg, s, Offer, steps);
    steps := [Offer] + steps;
  }

  /** Items are handed over and stored one by one, until n have been. */
  lemma {:induction false} StoreUpTo(cfg: Config, s: State, n: nat) returns (steps: seq<Step>)
    requires s.collector == Working && s.repo == Receiving && s.next <= n <= |cfg.items|
    ensures CanRun(cfg, s, steps)
    ensures RunOf(cfg, s, steps)
         == s.(next := n, handed := s.handed + cfg.items[s.next..n], content := s.content + cfg.items[s.next..n])
    decreases n - s.next
  {
    if s.next == n {
      steps := [];
      assert s.handed + [] == s.handed && s.content + [] == s.content;
    } else {
      var first := OneStored(cfg, s);
      var t := RunOf(cfg, s, first);
      var rest := StoreUpTo(cfg, t, n);
      RunOn(cfg, s, first, rest);
      steps := first + rest;
      assert cfg.items[s.next..n] == [cfg.items[s.next]] + cfg.items[s.next + 1..n];
      assert t.handed + cfg.items[t.next..n] == s.handed + cfg.items[s.next..n];
      assert t.content + cfg.items[t.next..n] == s.content + cfg.items[s.next..n];
    }
  }

  /** The collector fails, and the repository sees the end of the context before it sees the closed channel. */
  lemma Interruption(cfg: Config, s: State) returns (steps: seq<Step>)
    requires s.collector == Working && s.repo == Receiving
    ensures CanRun(cfg, s, steps)
    ensures RunOf(cfg, s, steps) == s.(collector := Returned(false), repo := Ended(false), cancelled := true)
  {
    var s1 := Do(cfg, s, CollectorFails);
    var s2 := Do(cfg, s1, CollectorReturns);
    RunCons(cfg, s2, ContextDone, []);
    steps := [ContextDone] + [];
    RunCons(cfg, s1, CollectorReturns, steps);
    steps := [CollectorReturns] + steps;
    RunCons(cfg, s, CollectorFails, steps);
    steps := [CollectorFails] + steps;
  }

  lemma {:induction false} RunOn(cfg: Config, s: State, a: seq<Step>, b: seq<Step>)
    requires CanRun(cfg, s, a) && CanRun(cfg, RunOf(cfg, s, a), b)
    ensures CanRun(cfg, s, a + b) && RunOf(cfg, s, a + b) == RunOf(cfg, RunOf(cfg, s, a), b)
    decreases |a|
  {
    if a == [] {
      assert a + b == b;
    } else {
      assert (a + b)[1..] == a[1..] + b;
      RunOn(cfg, Do(cfg, s, a[0]), a[1..], b);
    }
  }

  /** A finished run without outside cancellation and without a failing store that leaves this content, but no marker. */
  ghost predicate LeavesUnmarked(cfg: Config, steps: seq<Step>, content: seq<string>) {
    && CanRun(cfg, Init(cfg), steps)
    && ExternalCancel !in steps && !StoringFails(steps)
    && var s := RunOf(cfg, Init(cfg), steps);
       Final(s) && !s.done && s.content == content
  }

  /** What an interrupted run may leave: the earlier content and any prefix of the items, and nothing else. */
  lemma InterruptedPartStays(cfg: Config, content: seq<string>)
    ensures (exists steps :: LeavesUnmarked(cfg, steps, content)) <==>
            exists k :: 0 <= k <= |cfg.items| && content == cfg.prior + cfg.items[..k]
  {
    if steps :| LeavesUnmarked(cfg, steps, content) {
      var k := StoresAPrefix(cfg, steps);
    }
    if k :| 0 <= k <= |cfg.items| && content == cfg.prior + cfg.items[..k] {
      var first := StoreUpTo(cfg, Init(cfg), k);
      var second := Interruption(cfg, RunOf(cfg, Init(cfg), first));
      RunOn(cfg, Init(cfg), first, second);
      InitInv(cfg);
      History(cfg, Init(cfg), first + second);
      assert LeavesUnmarked(cfg, first + second, content);
    }
  }

  /** So an interrupted run can leave something without a marker, which the next run then only appends to, unless there is nothing. */
  lemma SomethingStaysIff(cfg: Config)
    ensures (exists steps, content :: LeavesUnmarked(cfg, steps, content) && content != []) <==> cfg.prior != [] || cfg.items != []
  {
    if steps, content :| LeavesUnmarked(cfg, steps, content) && content != [] {
      InterruptedPartStays(cfg, content);
    }
    if cfg.prior != [] || cfg.items != [] {
      var k := |cfg.items|;
      assert cfg.items[..k] == cfg.items;
      InterruptedPartStays(cfg, cfg.prior + cfg.items);
    }
  }
}
