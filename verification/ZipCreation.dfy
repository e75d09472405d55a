/**
  What the zip repository does to readers, zip writer and zip file while it creates an
  archive, whatever fails (pkg/adapter/archive/file/zipFileArchiveRepository.go:47-141).
 */
module ZipCreation {
  import opened Domain

  /** Which step of copying a file into the zip fails. */
  datatype Fate = Copied | ConstructorFails | EntryFails | CopyFails

  datatype Item = Item(path: Path, fate: Fate)

  /** What is received from one stream: some items, then the close of the channel or the end of the context. */
  datatype Stream = Stream(collector: CollectorType, items: seq<Item>, closed: bool)

  datatype Reader = Reader(collector: CollectorType, index: nat)

  datatype Action =
    | OpenZip
    | OpenReader(reader: Reader)
    | WriteEntry(name: Path, complete: bool)
    | CloseReader(reader: Reader)
    | CloseWriter
    | CloseFile
    | RemoveFile

  // ---------- what one stream causes ----------

  function CopyOne(col: CollectorType, item: Item, i: nat): seq<Action> {
    match item.fate
    case ConstructorFails => []
    case EntryFails => [OpenReader(Reader(col, i))]
    case CopyFails => [OpenReader(Reader(col, i)), WriteEntry(EntryName(col, item.path), false)]
    case Copied => [OpenReader(Reader(col, i)), WriteEntry(EntryName(col, item.path), true)]
  }

  /** All items from position i on can be copied. */
  predicate AllCopied(items: seq<Item>, i: nat)
    requires i <= |items|
    decreases |items| - i
  {
    i == |items| || (items[i].fate == Copied && AllCopied(items, i + 1))
  }

  /** Copies item after item up to the first that fails. */
  function CopyAll(col: CollectorType, items: seq<Item>, i: nat): seq<Action>
    requires i <= |items|
    decreases |items| - i
  {
    if i == |items| then []
    else CopyOne(col, items[i], i) + if items[i].fate == Copied then CopyAll(col, items, i + 1) else []
  }

  /** How many readers are open at the end if those of the first i items are. */
  function Opened(items: seq<Item>, i: nat): nat
    requires i <= |items|
    decreases |items| - i
  {
    if i == |items| || items[i].fate == ConstructorFails then i
    else if items[i].fate == Copied then Opened(items, i + 1)
    else i + 1
  }

  function CloseAll(col: CollectorType, n: nat): seq<Action> {
    seq(n, i requires 0 <= i < n => CloseReader(Reader(col, i)))
  }

  function StreamTrace(stream: Stream): seq<Action> {
    CopyAll(stream.collector, stream.items, 0) + CloseAll(stream.collector, Opened(stream.items, 0))
  }

  predicate StreamSucceeds(stream: Stream) {
    AllCopied(stream.items, 0) && stream.closed
  }

  /** Stream after stream up to the first that fails. */
  function StreamsTrace(streams: seq<Stream>): seq<Action> {
    if streams == [] then []
    else StreamTrace(streams[0]) + if StreamSucceeds(streams[0]) then StreamsTrace(streams[1..]) else []
  }

  predicate StreamsSucceed(streams: seq<Stream>) {
    streams == [] || (StreamSucceeds(streams[0]) && StreamsSucceed(streams[1..]))
  }

  function CreateTrace(streams: seq<Stream>): seq<Action> {
    [OpenZip] + StreamsTrace(streams) + [CloseWriter, CloseFile]
    + if StreamsSucceed(streams) then [] else [RemoveFile]
  }

  /** The readers of the first items of a stream, in order. */
  ghost predicate AreReaders(readers: seq<Reader>, col: CollectorType) {
    forall i :: 0 <= i < |readers| ==> readers[i] == Reader(col, i)
  }

  class ZipRepository {
    var log: seq<Action>

    constructor ()
      ensures log == []
    {
      log := [];
    }

    method Perform(action: Action)
      modifies this
      ensures log == old(log) + [action]
    {
      log := log + [action];
    }

    /** copyDataFromStreamToArchive */
    method CopyData(col: CollectorType, item: Item) returns (ok: bool)
      requires item.fate != ConstructorFails
      modifies this
      ensures ok == (item.fate == Copied)
      ensures log == old(log) + if item.fate == EntryFails then [] else [WriteEntry(EntryName(col, item.path), ok)]
    {
      if item.fate == EntryFails {
        return false;
      }
      ok := item.fate == Copied;
      Perform(WriteEntry(EntryName(col, item.path), ok));
    }

    /** The deferred closing of every reader opened so far. */
    method CloseReaders(closeFuncs: seq<Reader>, ghost col: CollectorType)
      requires AreReaders(closeFuncs, col)
      modifies this
      ensures log == old(log) + CloseAll(col, |closeFuncs|)
    {
      for i := 0 to |closeFuncs|
        invariant log == old(log) + CloseAll(col, i)
      {
        assert CloseAll(col, i + 1) == CloseAll(col, i) + [CloseReader(closeFuncs[i])];
        Perform(CloseReader(closeFuncs[i]));
      }
    }

    /** Constructs the reader of one received item and copies it. */
    method CopyItem(col: CollectorType, item: Item, closeFuncs: seq<Reader>)
      returns (closeFuncs': seq<Reader>, ok: bool)
      modifies this
      ensures ok == (item.fate == Copied)
      ensures log == old(log) + CopyOne(col, item, |closeFuncs|)
      ensures closeFuncs' == closeFuncs + if item.fate == ConstructorFails then [] else [Reader(col, |closeFuncs|)]
    {
      if item.fate == ConstructorFails {
        return closeFuncs, false;
      }
      var reader := Reader(col, |closeFuncs|);
      Perform(OpenReader(reader));
      ok := CopyData(col, item);
      closeFuncs' := closeFuncs + [reader];
    }

    /** Receives items and copies them, up to the first failure or the end of the stream. */
    method CopyItems(stream: Stream) returns (closeFuncs: seq<Reader>, ok: bool)
      modifies this
      ensures ok == AllCopied(stream.items, 0)
      ensures log == old(log) + CopyAll(stream.collector, stream.items, 0)
      ensures AreReaders(closeFuncs, stream.collector) && |closeFuncs| == Opened(stream.items, 0)
    {
      var col, items := stream.collector, stream.items;
      ghost var goal := log + CopyAll(col, items, 0);
      closeFuncs := [];
      ok := true;
      while ok && |closeFuncs| < |items|
        invariant AreReaders(closeFuncs, col)
        invariant |closeFuncs| <= |items|
        invariant if ok then OnCourse(goal, log, stream, |closeFuncs|) else Ended(goal, log, stream, |closeFuncs|)
        decreases ok, |items| - |closeFuncs|
      {
        CourseContinues(goal, log, stream, |closeFuncs|);
        closeFuncs, ok := CopyItem(col, items[|closeFuncs|], closeFuncs);
      }
    }

    method RangeOverStream(stream: Stream) returns (ok: bool)
      modifies this
      ensures ok == StreamSucceeds(stream)
      ensures log == old(log) + StreamTrace(stream)
    {
      var closeFuncs, copied := CopyItems(stream);
      CloseReaders(closeFuncs, stream.collector);
      ok := copied && stream.closed;
      AppendAssociates(old(log), CopyAll(stream.collector, stream.items, 0), CloseAll(stream.collector, |closeFuncs|));
    }

    /** Ranges over stream after stream, up to the first failure. */
    method CopyStreams(streams: seq<Stream>) returns (ok: bool)
      modifies this
      ensures ok == StreamsSucceed(streams)
      ensures log == old(log) + StreamsTrace(streams)
    {
      ok := true;
      var i := 0;
      while ok && i < |streams|
        invariant i <= |streams|
        invariant ok ==> log + StreamsTrace(streams[i..]) == old(log) + StreamsTrace(streams)
        invariant ok ==> StreamsSucceed(streams[i..]) == StreamsSucceed(streams)
        invariant !ok ==> log == old(log) + StreamsTrace(streams) && !StreamsSucceed(streams)
        decreases ok, |streams| - i
      {
        StreamsStep(log, streams, i);
        ok := RangeOverStream(streams[i]);
        i := i + 1;
      }
    }

    /** `createFails`: the directory or the file cannot be created. */
    method Create(streams: seq<Stream>, createFails: bool) returns (ok: bool)
      modifies this
      ensures createFails ==> !ok && log == old(log)
      ensures !createFails ==> ok == StreamsSucceed(streams) && log == old(log) + CreateTrace(streams)
    {
      if createFails {
        return false;
      }
      Perform(OpenZip);
      ok := CopyStreams(streams);
      Perform(CloseWriter);
      Perform(CloseFile);
      assert log == old(log) + ([OpenZip] + StreamsTrace(streams) + [CloseWriter, CloseFile]);
      if !ok {
        Perform(RemoveFile);
      }
    }
  }

  lemma AppendAssociates(a: seq<Action>, b: seq<Action>, c: seq<Action>)
    ensures a + b + c == a + (b + c)
  {
  }

  lemma FirstCopy(col: CollectorType, items: seq<Item>, i: nat)
    requires i < |items|
    ensures items[i].fate == Copied ==> CopyAll(col, items, i) == CopyOne(col, items[i], i) + CopyAll(col, items, i + 1)
    ensures items[i].fate != Copied ==> CopyAll(col, items, i) == CopyOne(col, items[i], i)
  {
    assert CopyOne(col, items[i], i) + [] == CopyOne(col, items[i], i);
  }

  /** The first n items were copied and logged, the rest is still to come. */
  ghost predicate OnCourse(goal: seq<Action>, log: seq<Action>, stream: Stream, n: nat)
    requires n <= |stream.items|
  {
    && goal == log + CopyAll(stream.collector, stream.items, n)
    && AllCopied(stream.items, n) == AllCopied(stream.items, 0)
    && Opened(stream.items, n) == Opened(stream.items, 0)
  }

  /** An item could not be copied, with n readers open. */
  ghost predicate Ended(goal: seq<Action>, log: seq<Action>, stream: Stream, n: nat) {
    goal == log && !AllCopied(stream.items, 0) && n == Opened(stream.items, 0)
  }

  lemma CourseContinues(goal: seq<Action>, log: seq<Action>, stream: Stream, n: nat)
    requires n < |stream.items| && OnCourse(goal, log, stream, n)
    ensures var item := stream.items[n];
            var log' := log + CopyOne(stream.collector, item, n);
            if item.fate == Copied then OnCourse(goal, log', stream, n + 1)
            else Ended(goal, log', stream, if item.fate == ConstructorFails then n else n + 1)
  {
    var one := CopyOne(stream.collector, stream.items[n], n);
    FirstCopy(stream.collector, stream.items, n);
    if stream.items[n].fate == Copied {
      AppendAssociates(log, one, CopyAll(stream.collector, stream.items, n + 1));
    }
  }

  lemma FirstStream(streams: seq<Stream>)
    requires streams != []
    ensures StreamSucceeds(streams[0]) ==> StreamsTrace(streams) == StreamTrace(streams[0]) + StreamsTrace(streams[1..])
    ensures !StreamSucceeds(streams[0]) ==> StreamsTrace(streams) == StreamTrace(streams[0])
  {
    assert StreamTrace(streams[0]) + [] == StreamTrace(streams[0]);
  }

  lemma StreamsStep(before: seq<Action>, streams: seq<Stream>, i: nat)
    requires i < |streams|
    ensures StreamsSucceed(streams[i..]) == (StreamSucceeds(streams[i]) && StreamsSucceed(streams[i + 1..]))
    ensures before + StreamsTrace(streams[i..])
         == before + StreamTrace(streams[i]) + if StreamSucceeds(streams[i]) then StreamsTrace(streams[i + 1..]) else []
  {
    assert streams[i..][1..] == streams[i + 1..];
    FirstStream(streams[i..]);
    AppendAssociates(before, StreamTrace(streams[i]), StreamsTrace(streams[i + 1..]));
  }

  // ---------- conservation of readers ----------

  /** How often an action occurs in a trace. */
  function Count(trace: seq<Action>, action: Action): nat {
    if trace == [] then 0 else (if trace[0] == action then 1 else 0) + Count(trace[1..], action)
  }

  lemma {:induction false} CountAppend(a: seq<Action>, b: seq<Action>, x: Action)
    ensures Count(a + b, x) == Count(a, x) + Count(b, x)
  {
    if a == [] {
      assert a + b == b;
    } else {
      assert (a + b)[1..] == a[1..] + b;
      CountAppend(a[1..], b, x);
    }
  }

  lemma {:induction false} CountAbsent(trace: seq<Action>, x: Action)
    requires x !in trace
    ensures Count(trace, x) == 0
  {
    if trace != [] {
      assert trace[0] in trace;
      CountAbsent(trace[1..], x);
    }
  }

  lemma CountOne(a: Action, x: Action)
    ensures Count([a], x) == if a == x then 1 else 0
  {
  }

  lemma OpensIts(col: CollectorType, item: Item, i: nat, r: Reader)
    ensures Count(CopyOne(col, item, i), OpenReader(r))
         == if r == Reader(col, i) && item.fate != ConstructorFails then 1 else 0
  {
    var one := CopyOne(col, item, i);
    if |one| == 2 {
      assert one == [one[0]] + [one[1]];
      CountAppend([one[0]], [one[1]], OpenReader(r));
    }
  }

  lemma {:induction false} OpensOnce(col: CollectorType, items: seq<Item>, i: nat, r: Reader)
    requires i <= |items|
    ensures i <= Opened(items, i)
    ensures Count(CopyAll(col, items, i), OpenReader(r))
         == if r.collector == col && i <= r.index < Opened(items, i) then 1 else 0
    decreases |items| - i
  {
    if i < |items| {
      OpensIts(col, items[i], i, r);
      FirstCopy(col, items, i);
      if items[i].fate == Copied {
        OpensOnce(col, items, i + 1, r);
        CountAppend(CopyOne(col, items[i], i), CopyAll(col, items, i + 1), OpenReader(r));
      }
    }
  }

  lemma {:induction false} ClosesOnce(col: CollectorType, n: nat, r: Reader)
    ensures Count(CloseAll(col, n), CloseReader(r)) == if r.collector == col && r.index < n then 1 else 0
  {
    if n > 0 {
      var last := CloseReader(Reader(col, n - 1));
      ClosesOnce(col, n - 1, r);
      assert CloseAll(col, n) == CloseAll(col, n - 1) + [last];
      CountAppend(CloseAll(col, n - 1), [last], CloseReader(r));
      CountOne(last, CloseReader(r));
    }
  }

  lemma {:induction false} CopiesOnly(col: CollectorType, items: seq<Item>, i: nat)
    requires i <= |items|
    ensures forall a :: a in CopyAll(col, items, i) ==> a.OpenReader? || a.WriteEntry?
    decreases |items| - i
  {
    if i < |items| {
      CopiesOnly(col, items, i + 1);
    }
  }

  ghost predicate OpenedBeforeClosed(trace: seq<Action>, r: Reader) {
    forall i, j :: 0 <= i < |trace| && 0 <= j < |trace| && trace[i] == OpenReader(r) && trace[j] == CloseReader(r) ==> i < j
  }

  /**
    On every exit of rangeOverStream each reader opened so far has been closed exactly once,
    no other reader was closed, and none before it was opened.
   */
  lemma ReadersConserved(stream: Stream, r: Reader)
    ensures var trace := StreamTrace(stream);
            && Count(trace, OpenReader(r)) == Count(trace, CloseReader(r)) <= 1
            && (Count(trace, OpenReader(r)) == 1 <==> r.collector == stream.collector && r.index < Opened(stream.items, 0))
    ensures OpenedBeforeClosed(StreamTrace(stream), r)
  {
    var col, items := stream.collector, stream.items;
    var opens, closes := CopyAll(col, items, 0), CloseAll(col, Opened(items, 0));
    OpensOnce(col, items, 0, r);
    ClosesOnce(col, Opened(items, 0), r);
    CopiesOnly(col, items, 0);
    CountAbsent(opens, CloseReader(r));
    CountAbsent(closes, OpenReader(r));
    CountAppend(opens, closes, OpenReader(r));
    CountAppend(opens, closes, CloseReader(r));
    assert forall i :: 0 <= i < |opens| ==> StreamTrace(stream)[i] in opens;
    assert forall i :: |opens| <= i < |opens + closes| ==> StreamTrace(stream)[i] in closes;
  }

  lemma {:induction false} StreamsOnlyCopy(streams: seq<Stream>)
    ensures forall a :: a in StreamsTrace(streams) ==> a.OpenReader? || a.WriteEntry? || a.CloseReader?
  {
    if streams != [] {
      CopiesOnly(streams[0].collector, streams[0].items, 0);
      StreamsOnlyCopy(streams[1..]);
    }
  }

  ghost predicate DistinctCollectors(streams: seq<Stream>) {
    forall i, j :: 0 <= i < j < |streams| ==> streams[i].collector != streams[j].collector
  }

  /** Over a whole Create every reader that was opened, of any stream, is closed exactly once. */
  lemma {:induction false} AllReadersConserved(streams: seq<Stream>, r: Reader)
    requires DistinctCollectors(streams)
    ensures Count(StreamsTrace(streams), OpenReader(r)) == Count(StreamsTrace(streams), CloseReader(r)) <= 1
    ensures (forall s :: s in streams ==> s.collector != r.collector) ==> Count(StreamsTrace(streams), OpenReader(r)) == 0
  {
    if streams != [] {
      var first, rest := StreamTrace(streams[0]), StreamsTrace(streams[1..]);
      ReadersConserved(streams[0], r);
      AllReadersConserved(streams[1..], r);
      CountAppend(first, rest, OpenReader(r));
      CountAppend(first, rest, CloseReader(r));
      assert first + [] == first;
      assert streams[0] in streams;
    }
  }

  /**
    Create opens the zip first; it closes the zip writer before the file, after every reader, and both
    before it removes a failed archive; it removes the file exactly when a stream failed, and as its last action.
   */
  lemma CreateOrder(streams: seq<Stream>)
    ensures var trace, n := CreateTrace(streams), |StreamsTrace(streams)| + 1;
            && trace[n..] == [CloseWriter, CloseFile] + (if StreamsSucceed(streams) then [] else [RemoveFile])
            && forall i :: 0 <= i < n ==> trace[i] !in [CloseWriter, CloseFile, RemoveFile] && (trace[i] == OpenZip <==> i == 0)
  {
    StreamsOnlyCopy(streams);
    var trace, copies := CreateTrace(streams), StreamsTrace(streams);
    forall i | 0 <= i < |copies| + 1
      ensures trace[i] !in [CloseWriter, CloseFile, RemoveFile] && (trace[i] == OpenZip <==> i == 0)
    {
      if i > 0 {
        assert trace[i] == copies[i - 1] && copies[i - 1] in copies;
      }
    }
  }

  // ---------- contents ----------

  /** The names of the zip entries that were written in full, in order. */
  function Entries(trace: seq<Action>): seq<Path> {
    if trace == [] then []
    else
      (if trace[0].WriteEntry? && trace[0].complete then [trace[0].name] else []) + Entries(trace[1..])
  }

  function NamesFrom(stream: Stream, i: nat): seq<Path>
    requires i <= |stream.items|
    decreases |stream.items| - i
  {
    if i == |stream.items| then []
    else [EntryName(stream.collector, stream.items[i].path)] + NamesFrom(stream, i + 1)
  }

  function AllNames(streams: seq<Stream>): seq<Path> {
    if streams == [] then [] else NamesFrom(streams[0], 0) + AllNames(streams[1..])
  }

  lemma {:induction false} EntriesAppend(a: seq<Action>, b: seq<Action>)
    ensures Entries(a + b) == Entries(a) + Entries(b)
  {
    if a == [] {
      assert a + b == b;
    } else {
      assert (a + b)[1..] == a[1..] + b;
      EntriesAppend(a[1..], b);
    }
  }

  lemma OneCopiedEntry(col: CollectorType, item: Item, i: nat)
    requires item.fate == Copied
    ensures Entries(CopyOne(col, item, i)) == [EntryName(col, item.path)]
  {
    var one := CopyOne(col, item, i);
    assert one[1..] == [one[1]] && one[1..][1..] == [];
    assert Entries(one[1..]) == [EntryName(col, item.path)];
  }

  lemma {:induction false} CopiesAllNames(stream: Stream, i: nat)
    requires i <= |stream.items| && AllCopied(stream.items, i)
    ensures Entries(CopyAll(stream.collector, stream.items, i)) == NamesFrom(stream, i)
    decreases |stream.items| - i
  {
    if i < |stream.items| {
      var col, item := stream.collector, stream.items[i];
      CopiesAllNames(stream, i + 1);
      OneCopiedEntry(col, item, i);
      EntriesAppend(CopyOne(col, item, i), CopyAll(col, stream.items, i + 1));
    }
  }

  lemma {:induction false} ClosingWritesNothing(trace: seq<Action>)
    requires forall a :: a in trace ==> a.CloseReader?
    ensures Entries(trace) == []
  {
    if trace != [] {
      assert trace[0] in trace;
      ClosingWritesNothing(trace[1..]);
    }
  }

  lemma {:induction false} StreamWritesItsNames(stream: Stream)
    requires AllCopied(stream.items, 0)
    ensures Entries(StreamTrace(stream)) == NamesFrom(stream, 0)
  {
    var copies, closes := CopyAll(stream.collector, stream.items, 0), CloseAll(stream.collector, Opened(stream.items, 0));
    EntriesAppend(copies, closes);
    CopiesAllNames(stream, 0);
    ClosingWritesNothing(closes);
  }

  /** A Create that succeeds has written every received item in full, stream by stream, under its collector's name. */
  lemma {:induction false} SuccessWritesEverything(streams: seq<Stream>)
    requires StreamsSucceed(streams)
    ensures Entries(StreamsTrace(streams)) == AllNames(streams)
  {
    if streams != [] {
      StreamWritesItsNames(streams[0]);
      SuccessWritesEverything(streams[1..]);
      EntriesAppend(StreamTrace(streams[0]), StreamsTrace(streams[1..]));
    }
  }

  // ---------- success, failure and names, stated on the streams themselves ----------

  lemma {:induction false} AllCopiedIff(items: seq<Item>, i: nat)
    requires i <= |items|
    ensures AllCopied(items, i) <==> forall j :: i <= j < |items| ==> items[j].fate == Copied
    decreases |items| - i
  {
    if i < |items| {
      AllCopiedIff(items, i + 1);
    }
  }

  /** Create succeeds exactly if every item of every stream is copied and every stream is closed, not just ended by the context. */
  lemma {:induction false} SucceedsIff(streams: seq<Stream>)
    ensures StreamsSucceed(streams) <==>
              forall s :: 0 <= s < |streams| ==>
                streams[s].closed && forall j :: 0 <= j < |streams[s].items| ==> streams[s].items[j].fate == Copied
  {
    if streams != [] {
      AllCopiedIff(streams[0].items, 0);
      SucceedsIff(streams[1..]);
      assert forall s :: 1 <= s < |streams| ==> streams[s] == streams[1..][s - 1];
    }
  }

  /** A reader is opened exactly if all items before its own were copied and its constructor works. */
  lemma {:induction false} OpenedIff(items: seq<Item>, i: nat, r: nat)
    requires i <= r < |items|
    ensures r < Opened(items, i) <==>
              (forall j :: i <= j < r ==> items[j].fate == Copied) && items[r].fate != ConstructorFails
    decreases |items| - i
  {
    if i < r {
      if items[i].fate == Copied {
        OpenedIff(items, i + 1, r);
      }
    } else if items[i].fate == Copied {
      OpensNoEarlier(items, i + 1);
    }
  }

  lemma {:induction false} OpensNoEarlier(items: seq<Item>, i: nat)
    requires i <= |items|
    ensures i <= Opened(items, i) <= |items|
    decreases |items| - i
  {
    if i < |items| && items[i].fate == Copied {
      OpensNoEarlier(items, i + 1);
    }
  }

  /** Item j of the stream has the name at its place. */
  lemma {:induction false} NamesOfItems(stream: Stream, i: nat)
    requires i <= |stream.items|
    ensures |NamesFrom(stream, i)| == |stream.items| - i
    ensures forall j :: i <= j < |stream.items| ==>
              NamesFrom(stream, i)[j - i] == Dir(stream.collector) + stream.items[j].path
    decreases |stream.items| - i
  {
    if i < |stream.items| {
      NamesOfItems(stream, i + 1);
    }
  }

  /** How many items the first s streams have together. */
  function ItemsIn(streams: seq<Stream>, s: nat): nat
    requires s <= |streams|
  {
    if s == 0 then 0 else |streams[0].items| + ItemsIn(streams[1..], s - 1)
  }

  lemma {:induction false} AsManyAsItems(streams: seq<Stream>)
    ensures |AllNames(streams)| == ItemsIn(streams, |streams|)
  {
    if streams != [] {
      NamesOfItems(streams[0], 0);
      AsManyAsItems(streams[1..]);
    }
  }

  /** The entries of a successful Create are those of all items, stream after stream, each in its collector's directory. */
  lemma {:induction false} EveryItemIsNamed(streams: seq<Stream>, s: nat, j: nat)
    requires s < |streams| && j < |streams[s].items|
    ensures ItemsIn(streams, s) + j < |AllNames(streams)|
    ensures AllNames(streams)[ItemsIn(streams, s) + j] == Dir(streams[s].collector) + streams[s].items[j].path
  {
    NamesOfItems(streams[0], 0);
    if s > 0 {
      EveryItemIsNamed(streams[1..], s - 1, j);
    }
  }

  /** A failing item leaves at most its own incomplete entry behind: no entry is written for anything else that was not copied. */
  lemma {:induction false} EntriesAreOfOpened(col: CollectorType, items: seq<Item>, i: nat, name: Path, complete: bool)
    requires i <= |items|
    requires WriteEntry(name, complete) in CopyAll(col, items, i)
    ensures exists j :: i <= j < |items| && j < Opened(items, i) && name == Dir(col) + items[j].path
              && (complete <==> items[j].fate == Copied) && items[j].fate != EntryFails
    decreases |items| - i
  {
    if i < |items| {
      FirstCopy(col, items, i);
      var one := CopyOne(col, items[i], i);
      if WriteEntry(name, complete) in one {
        if items[i].fate == Copied {
          OpensNoEarlier(items, i + 1);
        }
        assert i < Opened(items, i);
      } else {
        EntriesAreOfOpened(col, items, i + 1, name, complete);
      }
    }
  }
}
