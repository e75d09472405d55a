/**
  Building the zip as a concurrent protocol: one goroutine per required collector
  streams its files over an unbuffered channel, one goroutine writes the zip, and
  an errgroup cancels all of them when the first of them returns an error
  (pkg/usecase/create_archive.go:157-204, 431-442;
  pkg/adapter/archive/file/baseFileRepository.go:171-222;
  pkg/adapter/archive/file/zipFileArchiveRepository.go:47-141).

  Every interleaving, every choice of a select and every failure is a sequence of steps.
 */
module ArchiveProtocol {
  import opened Collections
  import opened Domain

  /** Stream i carries the files of collectors[i], in the order in which the directory walk meets them. */
  datatype Config = Config(collectors: seq<CollectorType>, files: seq<seq<Path>>)

  ghost predicate Valid(cfg: Config) {
    && |cfg.files| == |cfg.collectors|
    && Distinct(cfg.collectors)
    && forall i :: 0 <= i < |cfg.files| ==> Distinct(cfg.files[i])
  }

  /** A producer checks for the `.done` file, walks, and then either closes its channel or returns an error. */
  datatype Phase = Checking | Walking | Closed | Failed

  /** `next`: files handled so far; `dropped`: those of them that a cancelled context swallowed. */
  datatype Producer = Producer(phase: Phase, next: nat, dropped: set<nat>)

  datatype Consumer =
    | Opening
    | Choosing
    | Receiving(stream: nat)
    | Copying(stream: nat, file: nat)
    | Unwinding(ok: bool)
    | Done(ok: bool)

  /** A file by its stream and its position in the walk. */
  type Entry = (nat, nat)

  datatype State = State(
    producers: seq<Producer>,
    consumer: Consumer,
    todo: set<nat>,              // streams the consumer has not ranged over yet
    zip: Option<seq<Entry>>,     // the zip on disk
    created: bool,               // the consumer has created (and emptied) its zip file
    finalized: bool,             // the zip writer's directory was written by its Close
    saved: bool,                 // the zip file's Close reported no error
    leftover: bool,              // removing the zip after an error failed
    cancelled: bool,             // errCtx is done
    external: bool)              // the surrounding context was cancelled

  datatype Act = Check(collected: bool) | WalkFails | Drop | Hand | Finish

  datatype Step =
    | Produce(i: nat, act: Act)
    | OpenFails
    | Open
    | Choose(stream: nat)
    | NoMoreStreams
    | StreamClosed
    | ContextDone
    | Copied
    | CopyFails(partial: bool)
    | CloseZip(writer: bool, file: bool)
    | Cleanup(removed: bool)
    | ExternalCancel

  function Init(cfg: Config, prior: Option<seq<Entry>>): State {
    State(seq(|cfg.files|, _ => Producer(Checking, 0, {})), Opening, Indices(|cfg.files|), prior,
          false, false, false, false, false, false)
  }

  predicate HasFile(cfg: Config, s: State, i: nat) {
    i < |s.producers| && i < |cfg.files| && s.producers[i].next < |cfg.files[i]|
  }

  /** A hand-over needs the consumer on the other end; a select may drop a file instead once the context is done. */
  predicate CanProduce(cfg: Config, s: State, i: nat, act: Act) {
    && i < |s.producers| && i < |cfg.files|
    && match act
       case Check(_) => s.producers[i].phase == Checking
       case WalkFails => s.producers[i].phase == Walking
       case Drop => s.producers[i].phase == Walking && HasFile(cfg, s, i) && s.cancelled
       case Hand => s.producers[i].phase == Walking && HasFile(cfg, s, i) && s.consumer == Receiving(i)
       case Finish => s.producers[i].phase == Walking && !HasFile(cfg, s, i)
  }

  predicate Can(cfg: Config, s: State, step: Step) {
    match step
    case Produce(i, act) => CanProduce(cfg, s, i, act)
    case OpenFails => s.consumer == Opening
    case Open => s.consumer == Opening
    case Choose(i) => s.consumer == Choosing && i in s.todo
    case NoMoreStreams => s.consumer == Choosing && s.todo == {}
    case StreamClosed => s.consumer.Receiving? && s.consumer.stream < |s.producers|
                         && s.producers[s.consumer.stream].phase == Closed
    case ContextDone => s.consumer.Receiving? && s.cancelled
    case Copied => s.consumer.Copying? && s.zip.Some?
    case CopyFails(_) => s.consumer.Copying? && s.zip.Some?
    case CloseZip(_, _) => s.consumer == Unwinding(true)
    case Cleanup(_) => s.consumer == Unwinding(false)
    case ExternalCancel => !s.external
  }

  predicate IsHand(step: Step) {
    step.Produce? && step.act == Hand
  }

  function After(p: Producer, act: Act): Producer {
    match act
    case Check(collected) => p.(phase := if collected then Walking else Failed)
    case WalkFails => p.(phase := Failed)
    case Drop => p.(next := p.next + 1, dropped := p.dropped + {p.next})
    case Hand => p.(next := p.next + 1)
    case Finish => p.(phase := Closed)
  }

  predicate Fails(act: Act) {
    act.WalkFails? || (act.Check? && !act.collected)
  }

  function DoProduce(cfg: Config, s: State, i: nat, act: Act): State
    requires CanProduce(cfg, s, i, act)
  {
    s.(producers := s.producers[i := After(s.producers[i], act)],
       cancelled := s.cancelled || Fails(act),
       consumer := if act.Hand? then Copying(i, s.producers[i].next) else s.consumer)
  }

  function Do(cfg: Config, s: State, step: Step): State
    requires Can(cfg, s, step)
  {
    match step
    case Produce(i, act) => DoProduce(cfg, s, i, act)
    case OpenFails => s.(consumer := Done(false), cancelled := true)
    case Open => s.(consumer := Choosing, zip := Some([]), created := true)
    case Choose(i) => s.(consumer := Receiving(i), todo := s.todo - {i})
    case NoMoreStreams => s.(consumer := Unwinding(true))
    case StreamClosed => s.(consumer := Choosing)
    case ContextDone => s.(consumer := Unwinding(false))
    case Copied =>
      s.(consumer := Receiving(s.consumer.stream), zip := Some(s.zip.value + [(s.consumer.stream, s.consumer.file)]))
    case CopyFails(partial) =>
      s.(consumer := Unwinding(false),
         zip := if partial then Some(s.zip.value + [(s.consumer.stream, s.consumer.file)]) else s.zip)
    case CloseZip(writer, file) => s.(consumer := Done(true), finalized := writer, saved := file)
    case Cleanup(removed) =>
      s.(consumer := Done(false), cancelled := true,
         zip := if removed then None else s.zip, leftover := !removed)
    case ExternalCancel => s.(cancelled := true, external := true)
  }

  ghost predicate CanRun(cfg: Config, s: State, steps: seq<Step>)
    decreases |steps|
  {
    steps == [] || (Can(cfg, s, steps[0]) && CanRun(cfg, Do(cfg, s, steps[0]), steps[1..]))
  }

  ghost function RunOf(cfg: Config, s: State, steps: seq<Step>): State
    requires CanRun(cfg, s, steps)
    decreases |steps|
  {
    if steps == [] then s else RunOf(cfg, Do(cfg, s, steps[0]), steps[1..])
  }

  /** The errgroup's Wait has returned. */
  predicate Final(s: State) {
    s.consumer.Done? && forall i :: 0 <= i < |s.producers| ==> s.producers[i].phase in {Closed, Failed}
  }

  /** ... without an error. */
  predicate Success(s: State) {
    s.consumer == Done(true) && forall i :: 0 <= i < |s.producers| ==> s.producers[i].phase == Closed
  }

  // ---------- inductive invariant ----------

  /** Positions stay in range and agree with the phase. */
  ghost predicate InRange(cfg: Config, s: State) {
    && |s.producers| == |cfg.files|
    && (forall i :: i in s.todo ==> i < |cfg.files|)
    && (s.consumer.Receiving? || s.consumer.Copying? ==> s.consumer.stream < |cfg.files|)
    && forall i :: 0 <= i < |s.producers| ==>
         var p := s.producers[i];
         && p.next <= |cfg.files[i]| && (forall k :: k in p.dropped ==> k < p.next)
         && (p.phase == Closed ==> p.next == |cfg.files[i]|)
  }

  predicate Working(c: Consumer) {
    c.Choosing? || c.Receiving? || c.Copying? || c == Unwinding(true) || c == Done(true)
  }

  predicate Current(c: Consumer, i: nat) {
    (c.Receiving? || c.Copying?) && c.stream == i
  }

  ghost predicate TodoFits(s: State) {
    && (s.consumer.Opening? ==> forall i: nat :: i < |s.producers| ==> i in s.todo)
    && (s.consumer == Unwinding(true) || s.consumer == Done(true) ==> s.todo == {})
  }

  /** The consumer leaves a stream behind only when its producer has closed it. */
  ghost predicate LeftBehindClosed(s: State) {
    Working(s.consumer) ==> forall i :: 0 <= i < |s.producers| && i !in s.todo && !Current(s.consumer, i)
                                        ==> s.producers[i].phase == Closed
  }

  ghost predicate SomeFailed(s: State) {
    exists i :: 0 <= i < |s.producers| && s.producers[i].phase == Failed
  }

  /** The context is done exactly when somebody failed or the surroundings cancelled it; only then files are dropped. */
  ghost predicate CancelHasCause(s: State) {
    && (s.cancelled <==> s.external || s.consumer == Done(false) || SomeFailed(s))
    && (!s.cancelled ==> forall i :: 0 <= i < |s.producers| ==> s.producers[i].dropped == {})
  }

  ghost predicate Handed(s: State, i: nat, k: nat)
    requires i < |s.producers|
  {
    k < s.producers[i].next && k !in s.producers[i].dropped
  }

  /** A stream that is still to come has handed nothing over. */
  ghost predicate TodoUntouched(s: State) {
    && (forall i :: Current(s.consumer, i) ==> i !in s.todo)
    && (forall i, k: nat :: i in s.todo && i < |s.producers| ==> !Handed(s, i, k))
  }

  /** While the consumer works, the zip holds exactly what was handed over, per stream in walk order. */
  ghost predicate ZipIsHanded(s: State) {
    && (Working(s.consumer) ==> s.zip.Some?)
    && (s.consumer.Copying? ==>
          && s.consumer.stream < |s.producers|
          && Handed(s, s.consumer.stream, s.consumer.file)
          && (forall k: nat :: Handed(s, s.consumer.stream, k) ==> k <= s.consumer.file))
    && (Working(s.consumer) ==> InWalkOrder(s.zip.value) && HoldsHanded(s, s.zip.value))
  }

  ghost predicate InWalkOrder(zip: seq<Entry>) {
    forall a, b :: 0 <= a < b < |zip| && zip[a].0 == zip[b].0 ==> zip[a].1 < zip[b].1
  }

  /** What is on its way into the zip is not in it yet. */
  ghost predicate Expected(s: State, i: nat, k: nat) {
    i < |s.producers| && Handed(s, i, k) && s.consumer != Copying(i, k)
  }

  ghost predicate HoldsHanded(s: State, zip: seq<Entry>) {
    forall i: nat, k: nat :: Expected(s, i, k) <==> (i, k) in zip
  }

  /** A failed consumer leaves the previous zip if it never opened its own, and none if it could remove it. */
  ghost predicate CleanedUp(prior: Option<seq<Entry>>, s: State) {
    && (!s.created ==> s.zip == prior)
    && (s.consumer.Opening? ==> !s.created)
    && (Working(s.consumer) || s.consumer.Unwinding? ==> s.created)
    && (s.consumer == Done(false) && s.created && !s.leftover ==> s.zip == None)
  }

  ghost predicate Inv(cfg: Config, prior: Option<seq<Entry>>, s: State) {
    && InRange(cfg, s) && TodoFits(s) && LeftBehindClosed(s) && CancelHasCause(s)
    && TodoUntouched(s) && ZipIsHanded(s) && CleanedUp(prior, s)
  }

  lemma InitInv(cfg: Config, prior: Option<seq<Entry>>)
    ensures Inv(cfg, prior, Init(cfg, prior))
  {
  }

  lemma KeepsInRange(cfg: Config, s: State, step: Step)
    requires Can(cfg, s, step) && InRange(cfg, s)
    ensures InRange(cfg, Do(cfg, s, step))
  {
  }

  lemma KeepsTodoFits(cfg: Config, s: State, step: Step)
    requires Can(cfg, s, step) && TodoFits(s)
    ensures TodoFits(Do(cfg, s, step))
  {
  }

  lemma KeepsLeftBehindClosed(cfg: Config, s: State, step: Step)
    requires Can(cfg, s, step) && TodoFits(s) && LeftBehindClosed(s)
    ensures LeftBehindClosed(Do(cfg, s, step))
  {
  }

  lemma KeepsFailed(cfg: Config, s: State, step: Step)
    requires Can(cfg, s, step)
    ensures SomeFailed(Do(cfg, s, step)) <==> SomeFailed(s) || (step.Produce? && Fails(step.act))
  {
    var t := Do(cfg, s, step);
    if i :| 0 <= i < |s.producers| && s.producers[i].phase == Failed {
      assert t.producers[i].phase == Failed;
    }
    if step.Produce? && Fails(step.act) {
      assert t.producers[step.i].phase == Failed;
    }
  }

  lemma KeepsCancelHasCause(cfg: Config, s: State, step: Step)
    requires Can(cfg, s, step) && InRange(cfg, s) && CancelHasCause(s)
    ensures CancelHasCause(Do(cfg, s, step))
  {
    KeepsFailed(cfg, s, step);
  }

  /** Only a hand-over makes a file count as handed over. */
  lemma HandedAfter(cfg: Config, s: State, step: Step, i: nat, k: nat)
    requires Can(cfg, s, step) && InRange(cfg, s) && i < |s.producers|
    ensures |Do(cfg, s, step).producers| == |s.producers|
    ensures Handed(Do(cfg, s, step), i, k) <==>
            Handed(s, i, k) || (step == Produce(i, Hand) && k == s.producers[i].next)
  {
    if !step.Produce? {
      assert Do(cfg, s, step).producers == s.producers;
    }
  }

  lemma KeepsTodoUntouched(cfg: Config, s: State, step: Step)
    requires Can(cfg, s, step) && InRange(cfg, s) && TodoUntouched(s)
    ensures TodoUntouched(Do(cfg, s, step))
  {
    var t := Do(cfg, s, step);
    forall i, k: nat | i in t.todo && i < |t.producers| ensures !Handed(t, i, k) {
      HandedAfter(cfg, s, step, i, k);
    }
  }

  lemma KeepsCopying(cfg: Config, s: State, step: Step)
    requires Can(cfg, s, step) && InRange(cfg, s) && ZipIsHanded(s)
    requires Do(cfg, s, step).consumer.Copying?
    ensures var t := Do(cfg, s, step);
            && t.consumer.stream < |t.producers|
            && Handed(t, t.consumer.stream, t.consumer.file)
            && forall k: nat :: Handed(t, t.consumer.stream, k) ==> k <= t.consumer.file
  {
    var t := Do(cfg, s, step);
    forall k: nat
      ensures Handed(t, t.consumer.stream, k) <==>
              Handed(s, t.consumer.stream, k) || (IsHand(step) && k == s.producers[step.i].next)
    {
      HandedAfter(cfg, s, step, t.consumer.stream, k);
    }
  }

  /** The consumer starts copying only what is handed to it, and stops only by finishing or failing. */
  lemma CopyingAfter(cfg: Config, s: State, step: Step)
    requires Can(cfg, s, step) && Working(Do(cfg, s, step).consumer)
    ensures var t := Do(cfg, s, step);
            if IsHand(step) then !s.consumer.Copying? && t.consumer == Copying(step.i, s.producers[step.i].next)
            else if step.Copied? then s.consumer.Copying? && !t.consumer.Copying?
            else t.consumer == s.consumer || (!s.consumer.Copying? && !t.consumer.Copying?)
  {
  }

  lemma ExpectedAfter(cfg: Config, s: State, step: Step, i: nat, k: nat)
    requires Can(cfg, s, step) && InRange(cfg, s)
    requires s.consumer.Copying? ==> Handed(s, s.consumer.stream, s.consumer.file)
    requires Working(Do(cfg, s, step).consumer)
    ensures Expected(Do(cfg, s, step), i, k) <==> Expected(s, i, k) || (step.Copied? && s.consumer == Copying(i, k))
  {
    CopyingAfter(cfg, s, step);
    if i < |s.producers| {
      HandedAfter(cfg, s, step, i, k);
    } else if !step.Produce? {
      assert Do(cfg, s, step).producers == s.producers;
    }
  }

  lemma KeepsHoldsHanded(cfg: Config, s: State, step: Step)
    requires Can(cfg, s, step) && InRange(cfg, s) && ZipIsHanded(s) && TodoUntouched(s) && TodoFits(s)
    requires Working(Do(cfg, s, step).consumer)
    ensures Do(cfg, s, step).zip.Some? && HoldsHanded(Do(cfg, s, step), Do(cfg, s, step).zip.value)
  {
    var t := Do(cfg, s, step);
    forall i: nat, k: nat ensures Expected(t, i, k) <==> (i, k) in t.zip.value {
      ExpectedAfter(cfg, s, step, i, k);
    }
  }

  lemma KeepsWalkOrder(cfg: Config, s: State, step: Step)
    requires Can(cfg, s, step) && InRange(cfg, s) && ZipIsHanded(s)
    requires Working(Do(cfg, s, step).consumer)
    ensures Do(cfg, s, step).zip.Some? && InWalkOrder(Do(cfg, s, step).zip.value)
  {
    if step.Copied? {
      forall e | e in s.zip.value && e.0 == s.consumer.stream ensures e.1 < s.consumer.file {
        assert Expected(s, e.0, e.1);
      }
    }
  }

  lemma KeepsZipIsHanded(cfg: Config, s: State, step: Step)
    requires Can(cfg, s, step) && InRange(cfg, s) && ZipIsHanded(s) && TodoUntouched(s) && TodoFits(s)
    ensures ZipIsHanded(Do(cfg, s, step))
  {
    var t := Do(cfg, s, step);
    if Working(t.consumer) {
      KeepsHoldsHanded(cfg, s, step);
      KeepsWalkOrder(cfg, s, step);
    }
    if t.consumer.Copying? {
      KeepsCopying(cfg, s, step);
    }
  }

  lemma KeepsCleanedUp(cfg: Config, prior: Option<seq<Entry>>, s: State, step: Step)
    requires Can(cfg, s, step) && CleanedUp(prior, s)
    ensures CleanedUp(prior, Do(cfg, s, step))
  {
  }

  lemma StepKeepsInv(cfg: Config, prior: Option<seq<Entry>>, s: State, step: Step)
    requires Inv(cfg, prior, s) && Can(cfg, s, step)
    ensures Inv(cfg, prior, Do(cfg, s, step))
  {
    KeepsInRange(cfg, s, step);
    KeepsTodoFits(cfg, s, step);
    KeepsLeftBehindClosed(cfg, s, step);
    KeepsCancelHasCause(cfg, s, step);
    KeepsTodoUntouched(cfg, s, step);
    KeepsZipIsHanded(cfg, s, step);
    KeepsCleanedUp(cfg, prior, s, step);
  }

  lemma {:induction false} RunKeepsInv(cfg: Config, prior: Option<seq<Entry>>, s: State, steps: seq<Step>)
    requires Inv(cfg, prior, s) && CanRun(cfg, s, steps)
    ensures Inv(cfg, prior, RunOf(cfg, s, steps))
    decreases |steps|
  {
    if steps != [] {
      StepKeepsInv(cfg, prior, s, steps[0]);
      RunKeepsInv(cfg, prior, Do(cfg, s, steps[0]), steps[1..]);
    }
  }

  // ---------- deadlock freedom and termination ----------

  lemma ProducerCanStep(cfg: Config, s: State, i: nat) returns (step: Step)
    requires InRange(cfg, s) && i < |s.producers| && s.producers[i].phase in {Checking, Walking}
    requires HasFile(cfg, s, i) ==> s.cancelled
    ensures Can(cfg, s, step) && !step.ExternalCancel?
  {
    step := Produce(i, if s.producers[i].phase == Checking then Check(true)
                       else if HasFile(cfg, s, i) then Drop else Finish);
  }

  /** No reachable state is stuck: until Wait returns, some goroutine can go on, without outside help. */
  lemma NeverStuck(cfg: Config, prior: Option<seq<Entry>>, s: State) returns (step: Step)
    requires Inv(cfg, prior, s) && !Final(s)
    ensures Can(cfg, s, step) && !step.ExternalCancel?
  {
    match s.consumer
    case Opening => step := Open;
    case Choosing =>
      if i :| i in s.todo {
        step := Choose(i);
      } else {
        step := NoMoreStreams;
      }
    case Receiving(i) =>
      if s.cancelled {
        step := ContextDone;
      } else if s.producers[i].phase == Closed {
        step := StreamClosed;
      } else if s.producers[i].phase == Walking && HasFile(cfg, s, i) {
        step := Produce(i, Hand);
      } else if s.producers[i].phase == Checking {
        step := Produce(i, Check(true));
      } else {
        assert s.producers[i].phase != Failed;
        step := ProducerCanStep(cfg, s, i);
      }
    case Copying(_, _) => step := Copied;
    case Unwinding(ok) => step := if ok then CloseZip(true, true) else Cleanup(true);
    case Done(ok) =>
      var i :| 0 <= i < |s.producers| && s.producers[i].phase !in {Closed, Failed};
      step := ProducerCanStep(cfg, s, i);
  }

  function Remaining(p: Producer, files: nat): nat
    requires p.next <= files
  {
    match p.phase
    case Checking => 2 * (files - p.next) + 2
    case Walking => 2 * (files - p.next) + 1
    case Closed => 0
    case Failed => 0
  }

  ghost function RemainingFrom(cfg: Config, s: State, i: nat): nat
    requires InRange(cfg, s) && i <= |s.producers|
    decreases |s.producers| - i
  {
    if i == |s.producers| then 0
    else Remaining(s.producers[i], |cfg.files[i]|) + RemainingFrom(cfg, s, i + 1)
  }

  function ConsumerRank(s: State): nat {
    match s.consumer
    case Opening => 2 * |s.todo| + 4
    case Choosing => 2 * |s.todo| + 3
    case Receiving(_) => 2 * |s.todo| + 4
    case Copying(_, _) => 2 * |s.todo| + 5
    case Unwinding(_) => 1
    case Done(_) => 0
  }

  ghost function Measure(cfg: Config, s: State): nat
    requires InRange(cfg, s)
  {
    RemainingFrom(cfg, s, 0) + ConsumerRank(s) + (if s.external then 0 else 1)
  }

  lemma {:induction false} RemainingChange(cfg: Config, s: State, t: State, i: nat, j: nat)
    requires InRange(cfg, s) && InRange(cfg, t) && i < |s.producers| && j <= |s.producers|
    requires forall m :: 0 <= m < |s.producers| && m != i ==> t.producers[m] == s.producers[m]
    ensures RemainingFrom(cfg, t, j) - RemainingFrom(cfg, s, j)
         == if j <= i then Remaining(t.producers[i], |cfg.files[i]|) - Remaining(s.producers[i], |cfg.files[i]|) else 0
    decreases |s.producers| - j
  {
    if j < |s.producers| {
      RemainingChange(cfg, s, t, i, j + 1);
    }
  }

  lemma {:induction false} RemainingSame(cfg: Config, s: State, t: State, j: nat)
    requires InRange(cfg, s) && InRange(cfg, t) && t.producers == s.producers && j <= |s.producers|
    ensures RemainingFrom(cfg, t, j) == RemainingFrom(cfg, s, j)
    decreases |s.producers| - j
  {
    if j < |s.producers| {
      RemainingSame(cfg, s, t, j + 1);
    }
  }

  lemma ConsumerStepDecreases(cfg: Config, s: State, step: Step)
    requires Can(cfg, s, step)
    requires !step.Produce? && !step.ExternalCancel?
    ensures ConsumerRank(Do(cfg, s, step)) < ConsumerRank(s)
  {
    if step.Choose? {
      assert |s.todo - {step.stream}| == |s.todo| - 1;
    }
  }

  lemma ProducerStepDecreases(cfg: Config, s: State, i: nat, act: Act)
    requires InRange(cfg, s) && CanProduce(cfg, s, i, act) && InRange(cfg, DoProduce(cfg, s, i, act))
    ensures RemainingFrom(cfg, DoProduce(cfg, s, i, act), 0) + (if act.Hand? then 2 else 1) <= RemainingFrom(cfg, s, 0)
  {
    RemainingChange(cfg, s, DoProduce(cfg, s, i, act), i, 0);
  }

  lemma StepDecreases(cfg: Config, s: State, step: Step)
    requires InRange(cfg, s) && Can(cfg, s, step)
    ensures InRange(cfg, Do(cfg, s, step)) && Measure(cfg, Do(cfg, s, step)) < Measure(cfg, s)
  {
    KeepsInRange(cfg, s, step);
    if step.Produce? {
      ProducerStepDecreases(cfg, s, step.i, step.act);
    } else {
      RemainingSame(cfg, s, Do(cfg, s, step), 0);
      if !step.ExternalCancel? {
        ConsumerStepDecreases(cfg, s, step);
      }
    }
  }

  /** Every run is finite: it has at most Measure steps, whoever fails whenever. */
  lemma {:induction false} RunsAreBounded(cfg: Config, s: State, steps: seq<Step>)
    requires InRange(cfg, s) && CanRun(cfg, s, steps)
    ensures |steps| <= Measure(cfg, s)
    decreases |steps|
  {
    if steps != [] {
      StepDecreases(cfg, s, steps[0]);
      RunsAreBounded(cfg, Do(cfg, s, steps[0]), steps[1..]);
    }
  }

  // ---------- what createArchive leaves behind ----------

  function NameOf(cfg: Config, e: Entry): Path
    requires e.0 < |cfg.files| && e.0 < |cfg.collectors| && e.1 < |cfg.files[e.0]|
  {
    EntryName(cfg.collectors[e.0], cfg.files[e.0][e.1])
  }

  /** Two different files never share a zip entry name. */
  lemma NamesDiffer(cfg: Config, a: Entry, b: Entry)
    requires Valid(cfg) && a != b
    requires a.0 < |cfg.files| && a.1 < |cfg.files[a.0]| && b.0 < |cfg.files| && b.1 < |cfg.files[b.0]|
    ensures NameOf(cfg, a) != NameOf(cfg, b)
  {
    if NameOf(cfg, a) == NameOf(cfg, b) {
      EntryNameInjective(cfg.collectors[a.0], cfg.files[a.0][a.1], cfg.collectors[b.0], cfg.files[b.0][b.1]);
    }
  }

  ghost predicate SomethingDropped(s: State) {
    exists i :: 0 <= i < |s.producers| && s.producers[i].dropped != {}
  }

  /** Every file of every collector exactly once, nothing else, and per collector in walk order. */
  ghost predicate HoldsEveryFile(cfg: Config, zip: seq<Entry>) {
    && Distinct(zip)
    && InWalkOrder(zip)
    && forall i: nat, k: nat :: (i, k) in zip <==> i < |cfg.files| && k < |cfg.files[i]|
  }

  lemma SuccessMeansHanded(cfg: Config, prior: Option<seq<Entry>>, s: State)
    requires Inv(cfg, prior, s) && Success(s)
    ensures s.zip.Some? && InWalkOrder(s.zip.value) && Distinct(s.zip.value)
    ensures forall i: nat, k: nat :: (i, k) in s.zip.value <==>
              i < |cfg.files| && k < |cfg.files[i]| && k !in s.producers[i].dropped
  {
    forall i: nat, k: nat
      ensures (i, k) in s.zip.value <==> i < |cfg.files| && k < |cfg.files[i]| && k !in s.producers[i].dropped
    {
      assert Expected(s, i, k) <==> (i, k) in s.zip.value;
    }
    forall a, b | 0 <= a < b < |s.zip.value| ensures s.zip.value[a] != s.zip.value[b] {
      assert s.zip.value[a].0 == s.zip.value[b].0 ==> s.zip.value[a].1 < s.zip.value[b].1;
    }
  }

  /** What a download needs: the zip's directory was written, what was written is saved, and every file is in it. */
  ghost predicate Usable(cfg: Config, s: State) {
    s.finalized && s.saved && s.zip.Some? && HoldsEveryFile(cfg, s.zip.value)
  }

  /** No Close of the zip writer failed in the run; its error would only be logged. */
  ghost predicate WriterCloses(steps: seq<Step>) {
    steps == [] || ((steps[0].CloseZip? ==> steps[0].writer) && WriterCloses(steps[1..]))
  }

  /** No Close of the zip file failed in the run; its error would only be logged as well. */
  ghost predicate FileCloses(steps: seq<Step>) {
    steps == [] || ((steps[0].CloseZip? ==> steps[0].file) && FileCloses(steps[1..]))
  }

  /** A consumer gets done only by closing, and then stays so. */
  lemma OnlyClosingFinishes(cfg: Config, s: State, step: Step)
    requires Can(cfg, s, step)
    ensures var t := Do(cfg, s, step);
            && (s.consumer == Done(true) ==> t.consumer == Done(true) && !step.CloseZip?)
            && (step.CloseZip? ==> t.consumer == Done(true) && t.finalized == step.writer && t.saved == step.file)
            && (!step.CloseZip? ==> t.finalized == s.finalized && t.saved == s.saved)
            && (!step.CloseZip? && t.consumer == Done(true) ==> s.consumer == Done(true))
  {
    match step
    case Produce(_, _) =>
    case Copied =>
    case CopyFails(_) =>
    case CloseZip(_, _) =>
    case _ =>
  }

  /**
    The zip of a consumer that is done is finalized, and saved, if and only if the Close of the zip
    writer, and that of the zip file, did not fail; nothing later changes that.
   */
  lemma {:induction false} ClosedUnlessCloseFailed(cfg: Config, s: State, steps: seq<Step>)
    requires CanRun(cfg, s, steps) && RunOf(cfg, s, steps).consumer == Done(true)
    ensures var t := RunOf(cfg, s, steps);
            if s.consumer == Done(true) then t.finalized == s.finalized && t.saved == s.saved
            else (t.finalized <==> WriterCloses(steps)) && (t.saved <==> FileCloses(steps))
    ensures s.consumer == Done(true) ==> WriterCloses(steps) && FileCloses(steps)
    decreases |steps|
  {
    if steps != [] {
      OnlyClosingFinishes(cfg, s, steps[0]);
      ClosedUnlessCloseFailed(cfg, Do(cfg, s, steps[0]), steps[1..]);
    }
  }

  /** A step in which the error of some goroutine arises. */
  predicate Failing(step: Step) {
    || step.OpenFails? || step.ContextDone? || step.CopyFails?
    || (step.Produce? && (step.act == WalkFails || step.act == Check(false)))
  }

  predicate Dropping(step: Step) {
    step.Produce? && step.act == Drop
  }

  ghost predicate NothingFails(steps: seq<Step>) {
    forall step :: step in steps ==> !Failing(step)
  }

  ghost predicate NothingDrops(steps: seq<Step>) {
    forall step :: step in steps ==> !Dropping(step)
  }

  lemma FirstOrLater(steps: seq<Step>)
    requires steps != []
    ensures forall step :: step in steps <==> step == steps[0] || step in steps[1..]
  {
    assert steps == [steps[0]] + steps[1..];
  }

  predicate ConsumerFailed(c: Consumer) {
    c == Unwinding(false) || c == Done(false)
  }

  /** Some goroutine has run into an error. */
  ghost predicate Broken(s: State) {
    SomeFailed(s) || ConsumerFailed(s.consumer)
  }

  lemma ConsumerHistory(cfg: Config, s: State, step: Step)
    requires Can(cfg, s, step) && (s.leftover ==> s.consumer == Done(false))
    ensures var t := Do(cfg, s, step);
            && (t.leftover <==> s.leftover || step == Cleanup(false))
            && (t.leftover ==> t.consumer == Done(false))
            && (t.created <==> s.created || step == Open)
            && (t.external <==> s.external || step == ExternalCancel)
            && (ConsumerFailed(t.consumer) <==> ConsumerFailed(s.consumer) || (!step.Produce? && Failing(step)))
  {
    match step
    case Produce(_, _) =>
    case Copied =>
    case CopyFails(_) =>
    case CloseZip(_, _) =>
    case Cleanup(_) =>
    case _ =>
  }

  lemma ProducerHistory(cfg: Config, s: State, step: Step)
    requires Can(cfg, s, step)
    ensures var t := Do(cfg, s, step);
            && (SomeFailed(t) <==> SomeFailed(s) || (step.Produce? && Failing(step)))
            && (SomethingDropped(t) <==> SomethingDropped(s) || Dropping(step))
  {
    KeepsFailed(cfg, s, step);
    if step.Produce? {
      var i, t := step.i, Do(cfg, s, step);
      assert t.producers[i] == After(s.producers[i], step.act);
      assert forall j :: 0 <= j < |s.producers| && j != i ==> t.producers[j] == s.producers[j];
      if Dropping(step) {
        assert t.producers[i].dropped != {};
      } else {
        assert t.producers[i].dropped == s.producers[i].dropped;
      }
    }
  }

  /** What the flags of a state say about the steps that led to it. */
  lemma {:induction false} History(cfg: Config, s: State, steps: seq<Step>)
    requires CanRun(cfg, s, steps) && (s.leftover ==> s.consumer == Done(false))
    ensures var t := RunOf(cfg, s, steps);
            && (t.leftover <==> s.leftover || Cleanup(false) in steps)
            && (t.created <==> s.created || Open in steps)
            && (t.external <==> s.external || ExternalCancel in steps)
            && (Broken(t) <==> Broken(s) || !NothingFails(steps))
            && (SomethingDropped(t) <==> SomethingDropped(s) || !NothingDrops(steps))
    decreases |steps|
  {
    if steps != [] {
      ConsumerHistory(cfg, s, steps[0]);
      ProducerHistory(cfg, s, steps[0]);
      FirstOrLater(steps);
      History(cfg, Do(cfg, s, steps[0]), steps[1..]);
    }
  }

  /** What an error can come from: a failure of a goroutine's own, or a cancellation from outside. */
  predicate Roots(step: Step) {
    step.ExternalCancel? || (Failing(step) && !step.ContextDone?)
  }

  ghost predicate Rooted(steps: seq<Step>) {
    exists step :: step in steps && Roots(step)
  }

  lemma RootStep(cfg: Config, s: State, step: Step)
    requires Can(cfg, s, step)
    ensures var t := Do(cfg, s, step); Broken(t) || t.cancelled ==> Broken(s) || s.cancelled || Roots(step)
  {
    KeepsFailed(cfg, s, step);
    match step
    case Produce(_, _) =>
    case Copied =>
    case CopyFails(_) =>
    case _ =>
  }

  /** The end of the context is never the first thing to go wrong. */
  lemma {:induction false} ErrorHasCause(cfg: Config, s: State, steps: seq<Step>)
    requires CanRun(cfg, s, steps)
    ensures var t := RunOf(cfg, s, steps); Broken(t) || t.cancelled ==> Broken(s) || s.cancelled || Rooted(steps)
    decreases |steps|
  {
    if steps != [] {
      RootStep(cfg, s, steps[0]);
      FirstOrLater(steps);
      ErrorHasCause(cfg, Do(cfg, s, steps[0]), steps[1..]);
    }
  }

  /** A stream is closed only by a producer that found its collector done, and has finished its walk. */
  lemma {:induction false} ClosedWasCollected(cfg: Config, s: State, steps: seq<Step>, i: nat)
    requires CanRun(cfg, s, steps) && i < |s.producers|
    ensures |RunOf(cfg, s, steps).producers| == |s.producers|
    ensures var before, after := s.producers[i].phase, RunOf(cfg, s, steps).producers[i].phase;
            && (after in {Walking, Closed} && before == Checking ==> Produce(i, Check(true)) in steps)
            && (after == Closed && before != Closed ==> Produce(i, Finish) in steps)
            && (before == Failed ==> after == Failed)
    decreases |steps|
  {
    if steps != [] {
      FirstOrLater(steps);
      PhaseHistory(cfg, s, steps[0], i);
      ClosedWasCollected(cfg, Do(cfg, s, steps[0]), steps[1..], i);
    }
  }

  lemma PhaseHistory(cfg: Config, s: State, step: Step, i: nat)
    requires Can(cfg, s, step) && i < |s.producers|
    ensures |Do(cfg, s, step).producers| == |s.producers|
    ensures var before, after := s.producers[i].phase, Do(cfg, s, step).producers[i].phase;
            && (before == Checking ==> after in {Checking, Walking, Failed})
            && (after == Walking && before == Checking ==> step == Produce(i, Check(true)))
            && (after == Closed && before != Closed ==> step == Produce(i, Finish))
            && (before == Failed ==> after == Failed)
  {
    match step
    case Produce(_, _) =>
    case _ =>
  }

  /**
    Safety of every run, in terms of what happened in it.  createArchive returns without error exactly
    if no step of any goroutine failed, and an error has a cause: a failure of its own of some goroutine, or
    a cancellation from outside.  After a success the zip holds every file of every required collector exactly
    once and nothing else, if and only if the context swallowed no file; and only a cancellation from
    outside can have done that.  The zip can be used if and only if, besides, neither the Close of its
    writer nor that of its file failed, and every collector was found done.  When createArchive returns an
    error, no zip remains unless removing it failed, and the earlier one if no zip was opened.
   */
  lemma RunOutcome(cfg: Config, prior: Option<seq<Entry>>, steps: seq<Step>)
    requires Valid(cfg) && CanRun(cfg, Init(cfg, prior), steps)
    requires Final(RunOf(cfg, Init(cfg, prior), steps))
    ensures var s := RunOf(cfg, Init(cfg, prior), steps);
            && (Success(s) <==> NothingFails(steps))
            && (!Success(s) ==> Rooted(steps))
            && (Success(s) ==> s.zip.Some? && (HoldsEveryFile(cfg, s.zip.value) <==> NothingDrops(steps)))
            && (Success(s) ==> (Usable(cfg, s) <==> NothingDrops(steps) && WriterCloses(steps) && FileCloses(steps)))
            && (Success(s) && !NothingDrops(steps) ==> ExternalCancel in steps)
            && (Success(s) ==> forall i: nat :: i < |cfg.files| ==> Produce(i, Check(true)) in steps)
            && (!Success(s) && Open in steps && Cleanup(false) !in steps ==> s.zip == None)
            && (!Success(s) && Open !in steps ==> s.zip == prior)
  {
    InitInv(cfg, prior);
    RunKeepsInv(cfg, prior, Init(cfg, prior), steps);
    History(cfg, Init(cfg, prior), steps);
    ErrorHasCause(cfg, Init(cfg, prior), steps);
    var s := RunOf(cfg, Init(cfg, prior), steps);
    assert Success(s) <==> !Broken(s);
    if Success(s) {
      CompleteUnlessDropped(cfg, prior, s);
      ClosedUnlessCloseFailed(cfg, Init(cfg, prior), steps);
      forall i: nat | i < |cfg.files| ensures Produce(i, Check(true)) in steps {
        ClosedWasCollected(cfg, Init(cfg, prior), steps, i);
      }
    } else {
      FailureMeansConsumerFailed(cfg, prior, s);
    }
  }

  lemma CompleteUnlessDropped(cfg: Config, prior: Option<seq<Entry>>, s: State)
    requires Inv(cfg, prior, s) && Success(s)
    ensures s.zip.Some? && (HoldsEveryFile(cfg, s.zip.value) <==> !SomethingDropped(s))
  {
    SuccessMeansHanded(cfg, prior, s);
    if SomethingDropped(s) {
      var i :| 0 <= i < |s.producers| && s.producers[i].dropped != {};
      var k :| k in s.producers[i].dropped;
      assert k < |cfg.files[i]| && (i, k) !in s.zip.value;
    }
  }

  /** The consumer can only succeed after every producer has closed its stream. */
  lemma FailureMeansConsumerFailed(cfg: Config, prior: Option<seq<Entry>>, s: State)
    requires Inv(cfg, prior, s) && Final(s) && !Success(s)
    ensures s.consumer == Done(false)
  {
  }

  // ---------- what the claim does not survive ----------

  lemma RunCons(cfg: Config, s: State, step: Step, rest: seq<Step>)
    requires Can(cfg, s, step) && CanRun(cfg, Do(cfg, s, step), rest)
    ensures CanRun(cfg, s, [step] + rest) && RunOf(cfg, s, [step] + rest) == RunOf(cfg, Do(cfg, s, step), rest)
  {
    assert ([step] + rest)[1..] == rest;
  }

  lemma {:induction false} RunOn(cfg: Config, s: State, a: seq<Step>, b: seq<Step>)
    requires CanRun(cfg, s, a) && CanRun(cfg, RunOf(cfg, s, a), b)
    ensures CanRun(cfg, s, a + b) && RunOf(cfg, s, a + b) == RunOf(cfg, RunOf(cfg, s, a), b)
    decreases |a|
  {
    if a == [] {
      assert a + b == b;
    } else {
      assert (a + b)[1..] == a[1..] + b;
      RunOn(cfg, Do(cfg, s, a[0]), a[1..], b);
    }
  }

  /** No cancellation from outside, and no Close of the zip writer. */
  ghost predicate Quiet(steps: seq<Step>) {
    forall step :: step in steps ==> !step.ExternalCancel? && !step.CloseZip?
  }

  /** Nothing differs but the zip, the consumer and producer i. */
  ghost predicate SameBut(s: State, t: State, i: nat) {
    && t.todo == s.todo && t.cancelled == s.cancelled && t.external == s.external
    && |t.producers| == |s.producers|
    && forall j :: 0 <= j < |s.producers| && j != i ==> t.producers[j] == s.producers[j]
  }

  ghost predicate Ranging(cfg: Config, s: State, i: nat, drop: bool) {
    && i < |s.producers| && i < |cfg.files| && s.consumer == Receiving(i) && s.zip.Some?
    && s.producers[i].phase == Walking && s.producers[i].next <= |cfg.files[i]|
    && (drop ==> s.cancelled)
  }

  /** One file is handed over and copied, or else dropped. */
  lemma OneFile(cfg: Config, s: State, i: nat, drop: bool) returns (steps: seq<Step>)
    requires Ranging(cfg, s, i, drop) && HasFile(cfg, s, i)
    ensures CanRun(cfg, s, steps) && Quiet(steps)
    ensures var t := RunOf(cfg, s, steps);
            && Ranging(cfg, t, i, drop) && SameBut(s, t, i)
            && t.producers[i] == After(s.producers[i], if drop then Drop else Hand)
  {
    if drop {
      RunCons(cfg, s, Produce(i, Drop), []);
      steps := [Produce(i, Drop)] + [];
    } else {
      RunCons(cfg, Do(cfg, s, Produce(i, Hand)), Copied, []);
      RunCons(cfg, s, Produce(i, Hand), [Copied] + []);
      steps := [Produce(i, Hand)] + ([Copied] + []);
    }
  }

  lemma LastOfStream(cfg: Config, s: State, i: nat, drop: bool) returns (steps: seq<Step>)
    requires Ranging(cfg, s, i, drop) && !HasFile(cfg, s, i)
    ensures CanRun(cfg, s, steps) && Quiet(steps)
    ensures var t := RunOf(cfg, s, steps);
            && t.consumer == Choosing && t.zip.Some? && SameBut(s, t, i)
            && t.producers[i] == After(s.producers[i], Finish)
  {
    RunCons(cfg, Do(cfg, s, Produce(i, Finish)), StreamClosed, []);
    RunCons(cfg, s, Produce(i, Finish), [StreamClosed] + []);
    steps := [Produce(i, Finish)] + ([StreamClosed] + []);
  }

  /** All remaining files of one stream, to its end. */
  lemma {:induction false} StreamRun(cfg: Config, s: State, i: nat, drop: bool) returns (steps: seq<Step>)
    requires Ranging(cfg, s, i, drop)
    ensures CanRun(cfg, s, steps) && Quiet(steps)
    ensures var t := RunOf(cfg, s, steps);
            && t.consumer == Choosing && t.zip.Some? && SameBut(s, t, i)
            && t.producers[i].phase == Closed
            && (t.producers[i].dropped != {} <==> s.producers[i].dropped != {} || (drop && HasFile(cfg, s, i)))
    decreases |cfg.files[i]| - s.producers[i].next
  {
    if !HasFile(cfg, s, i) {
      steps := LastOfStream(cfg, s, i, drop);
    } else {
      var first := OneFile(cfg, s, i, drop);
      var rest := StreamRun(cfg, RunOf(cfg, s, first), i, drop);
      RunOn(cfg, s, first, rest);
      steps := first + rest;
    }
  }

  /** The stream was closed, with nothing dropped, or with everything dropped. */
  ghost predicate StreamDone(cfg: Config, p: Producer, i: nat, drop: bool)
    requires i < |cfg.files|
  {
    p.phase == Closed && (p.dropped != {} <==> drop && cfg.files[i] != [])
  }

  /** The streams still to come have not begun, the others are done. */
  ghost predicate Pending(cfg: Config, s: State, drop: bool) {
    && |s.producers| == |cfg.files|
    && (forall i :: i in s.todo ==> i < |cfg.files| && s.producers[i] == Producer(Checking, 0, {}))
    && (forall i: nat :: i < |cfg.files| && i !in s.todo ==> StreamDone(cfg, s.producers[i], i, drop))
  }

  /** The steps of one stream from its beginning, which ends with one stream less to come. */
  lemma OneStream(cfg: Config, s: State, i: nat, drop: bool) returns (steps: seq<Step>)
    requires Pending(cfg, s, drop) && s.consumer == Choosing && s.zip.Some? && (drop ==> s.cancelled)
    requires i in s.todo
    ensures CanRun(cfg, s, steps) && Quiet(steps)
    ensures var t := RunOf(cfg, s, steps);
            && t.consumer == Choosing && t.zip.Some? && t.todo == s.todo - {i}
            && t.cancelled == s.cancelled && t.external == s.external && Pending(cfg, t, drop)
  {
    var s1 := Do(cfg, s, Produce(i, Check(true)));
    var s2 := Do(cfg, s1, Choose(i));
    var rest := StreamRun(cfg, s2, i, drop);
    RunCons(cfg, s1, Choose(i), rest);
    RunCons(cfg, s, Produce(i, Check(true)), [Choose(i)] + rest);
    steps := [Produce(i, Check(true))] + ([Choose(i)] + rest);
  }

  lemma {:induction false} AllStreams(cfg: Config, s: State, drop: bool) returns (steps: seq<Step>)
    requires Pending(cfg, s, drop) && s.consumer == Choosing && s.zip.Some? && (drop ==> s.cancelled)
    ensures CanRun(cfg, s, steps) && Quiet(steps)
    ensures var t := RunOf(cfg, s, steps);
            t.consumer == Choosing && t.zip.Some? && t.todo == {} && Pending(cfg, t, drop)
    decreases s.todo
  {
    if s.todo == {} {
      steps := [];
    } else {
      var i :| i in s.todo;
      var first := OneStream(cfg, s, i, drop);
      var rest := AllStreams(cfg, RunOf(cfg, s, first), drop);
      RunOn(cfg, s, first, rest);
      steps := first + rest;
    }
  }

  lemma ClosingRun(cfg: Config, s: State, close: Step)
    requires s.consumer == Choosing && s.todo == {} && close.CloseZip?
    ensures CanRun(cfg, s, [NoMoreStreams, close])
    ensures RunOf(cfg, s, [NoMoreStreams, close])
         == s.(consumer := Done(true), finalized := close.writer, saved := close.file)
  {
    RunCons(cfg, Do(cfg, s, NoMoreStreams), close, []);
    RunCons(cfg, s, NoMoreStreams, [close] + []);
    assert [NoMoreStreams] + ([close] + []) == [NoMoreStreams, close];
  }

  ghost predicate HasFiles(cfg: Config) {
    exists i :: 0 <= i < |cfg.files| && cfg.files[i] != []
  }

  /**
    For every set of collectors and files there is a run that succeeds with a usable zip; without any
    cancellation there are runs that succeed although the zip is not usable, because the Close of its
    writer failed, or that of its file; and if there is a file at all there is one that succeeds without
    any file, because of a cancellation from outside (`drop`).
   */
  lemma SuccessEitherWay(cfg: Config, prior: Option<seq<Entry>>, drop: bool, writer: bool, file: bool)
    returns (steps: seq<Step>)
    requires Valid(cfg)
    ensures CanRun(cfg, Init(cfg, prior), steps)
    ensures ExternalCancel in steps <==> drop
    ensures (WriterCloses(steps) <==> writer) && (FileCloses(steps) <==> file)
    ensures var s := RunOf(cfg, Init(cfg, prior), steps);
            Final(s) && Success(s) && (Usable(cfg, s) <==> writer && file && !(drop && HasFiles(cfg)))
  {
    var s, close := Init(cfg, prior), CloseZip(writer, file);
    var start, ready := OpeningRun(cfg, prior, drop);
    var streams := AllStreams(cfg, ready, drop);
    var end := [NoMoreStreams, close];
    ClosingRun(cfg, RunOf(cfg, ready, streams), close);
    RunOn(cfg, ready, streams, end);
    RunOn(cfg, s, start, streams + end);
    steps := start + (streams + end);
    EndsUsableIff(cfg, prior, steps, drop);
    ClosedUnlessCloseFailed(cfg, s, steps);
  }

  lemma EndsUsableIff(cfg: Config, prior: Option<seq<Entry>>, steps: seq<Step>, drop: bool)
    requires CanRun(cfg, Init(cfg, prior), steps)
    requires var s := RunOf(cfg, Init(cfg, prior), steps); Success(s) && s.todo == {} && Pending(cfg, s, drop)
    ensures var s := RunOf(cfg, Init(cfg, prior), steps);
            Usable(cfg, s) <==> s.finalized && s.saved && !(drop && HasFiles(cfg))
  {
    InitInv(cfg, prior);
    RunKeepsInv(cfg, prior, Init(cfg, prior), steps);
    CompleteUnlessDropped(cfg, prior, RunOf(cfg, Init(cfg, prior), steps));
    DroppedIff(cfg, RunOf(cfg, Init(cfg, prior), steps), drop);
  }

  lemma OpeningRun(cfg: Config, prior: Option<seq<Entry>>, drop: bool) returns (steps: seq<Step>, s: State)
    ensures CanRun(cfg, Init(cfg, prior), steps) && s == RunOf(cfg, Init(cfg, prior), steps)
    ensures Pending(cfg, s, drop) && s.consumer == Choosing && s.zip.Some? && (drop ==> s.cancelled)
    ensures ExternalCancel in steps <==> drop
    ensures forall step :: step in steps ==> !step.CloseZip?
  {
    var s0 := Init(cfg, prior);
    var s1 := if drop then Do(cfg, s0, ExternalCancel) else s0;
    s := Do(cfg, s1, Open);
    steps := [Open] + [];
    RunCons(cfg, s1, Open, []);
    if drop {
      RunCons(cfg, s0, ExternalCancel, steps);
      steps := [ExternalCancel] + steps;
    }
  }

  lemma DroppedIff(cfg: Config, s: State, drop: bool)
    requires Pending(cfg, s, drop) && s.todo == {}
    ensures SomethingDropped(s) <==> drop && HasFiles(cfg)
  {
    if drop && HasFiles(cfg) {
      var i :| 0 <= i < |cfg.files| && cfg.files[i] != [];
      assert s.producers[i].dropped != {};
    }
  }
}
