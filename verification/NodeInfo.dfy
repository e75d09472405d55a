/**
  Splitting the stream of node samples into one CSV file per metric
  (pkg/adapter/archive/file/nodeInfoFileRepository.go:23-117, driven by
  pkg/adapter/archive/file/baseFileRepository.go:117-169).
 */
module NodeInfo {
  import opened Collections
  import opened Domain

  type Id = SupportArchiveID

  datatype Sample = Sample(metric: string, node: string, value: real, time: int)

  datatype Row = Header | Row(node: string, value: real, time: int)

  /** metricForID */
  datatype Key = Key(metric: string, id: Id)

  function RowOf(x: Sample): Row {
    Row(x.node, x.value, x.time)
  }

  /** The rows of one metric, in the order of arrival. */
  function RowsOf(samples: seq<Sample>, metric: string): seq<Row> {
    if samples == [] then []
    else
      var n := |samples| - 1;
      RowsOf(samples[..n], metric) + if samples[n].metric == metric then [RowOf(samples[n])] else []
  }

  function RowCount(samples: seq<Sample>, metrics: seq<string>): nat {
    if metrics == [] then 0 else |RowsOf(samples, metrics[0])| + RowCount(samples, metrics[1..])
  }

  lemma {:induction false} RowCountOneMore(samples: seq<Sample>, x: Sample, metrics: seq<string>)
    requires Distinct(metrics)
    ensures RowCount(samples + [x], metrics) == RowCount(samples, metrics) + if x.metric in metrics then 1 else 0
  {
    if metrics != [] {
      assert (samples + [x])[..|samples|] == samples;
      RowCountOneMore(samples, x, metrics[1..]);
    }
  }

  lemma {:induction false} NoRowsNoCount(metrics: seq<string>)
    ensures RowCount([], metrics) == 0
  {
    if metrics != [] {
      NoRowsNoCount(metrics[1..]);
    }
  }

  /** No sample is lost or stored twice: the rows of all metrics together are as many as the samples. */
  lemma {:induction false} RowsAddUp(samples: seq<Sample>, metrics: seq<string>)
    requires Distinct(metrics) && forall x :: x in samples ==> x.metric in metrics
    ensures RowCount(samples, metrics) == |samples|
  {
    if samples == [] {
      NoRowsNoCount(metrics);
    } else {
      var n := |samples| - 1;
      assert samples == samples[..n] + [samples[n]];
      RowsAddUp(samples[..n], metrics);
      RowCountOneMore(samples[..n], samples[n], metrics);
    }
  }

  /** The rows of a metric follow the stream piece by piece, wherever it is cut. */
  lemma {:induction false} RowsOfAppend(a: seq<Sample>, b: seq<Sample>, metric: string)
    ensures RowsOf(a + b, metric) == RowsOf(a, metric) + RowsOf(b, metric)
  {
    if b == [] {
      assert a + b == a;
    } else {
      var n := |b| - 1;
      assert (a + b)[..|a| + n] == a + b[..n];
      RowsOfAppend(a, b[..n], metric);
    }
  }

  /** The sample at position i has its row, with all its values, behind those of the earlier samples of its metric. */
  lemma {:induction false} EverySampleHasItsRow(samples: seq<Sample>, i: nat)
    requires i < |samples|
    ensures var x := samples[i];
            var rows, before := RowsOf(samples, x.metric), |RowsOf(samples[..i], x.metric)|;
            before < |rows| && rows[before] == Row(x.node, x.value, x.time)
  {
    var n := |samples| - 1;
    if i < n {
      assert samples[..n][..i] == samples[..i];
      EverySampleHasItsRow(samples[..n], i);
    }
  }

  lemma OneSampleMore(samples: seq<Sample>, i: nat, metric: string)
    requires i < |samples|
    ensures RowsOf(samples[..i + 1], metric)
         == RowsOf(samples[..i], metric) + if samples[i].metric == metric then [RowOf(samples[i])] else []
  {
    assert samples[..i + 1][..i] == samples[..i];
  }

  function Lookup<T>(m: map<Key, T>, k: Key): Option<T> {
    if k in m then Some(m[k]) else None
  }

  /** All the repository holds for one metric of one archive: handle, unflushed rows, file content. */
  datatype Cell = Cell(handle: Option<bool>, buffer: Option<seq<Row>>, file: Option<seq<Row>>)

  /** A writer exactly for an open file, and no nil handle: that lasts only until the next Close. */
  ghost predicate Sound(c: Cell) {
    c.handle != Some(false) && (c.handle.Some? <==> c.buffer.Some?) && (c.buffer.Some? ==> c.file.Some?)
  }

  function Rows(part: Option<seq<Row>>): seq<Row> {
    if part.Some? then part.value else []
  }

  /** What the file holds once its writer is flushed. */
  function Total(c: Cell): seq<Row> {
    Rows(c.file) + Rows(c.buffer)
  }

  /** Where a cell stands after more rows of its metric: a file opened for them begins with a header. */
  function Content(c: Cell, rows: seq<Row>): seq<Row> {
    if rows == [] then Total(c) else Total(c) + (if c.buffer.Some? then [] else [Header]) + rows
  }

  function FreshCell(): Cell {
    Cell(None, None, None)
  }

  /** From nothing, the file of a metric is one header and its rows; without rows there is no file. */
  lemma FreshFile(rows: seq<Row>)
    ensures Complete(FreshCell(), rows) == Cell(None, None, if rows == [] then None else Some([Header] + rows))
  {
    var nothing: seq<Row> := [];
    assert nothing + nothing + [Header] + rows == [Header] + rows;
  }

  /** What is there is kept: a closed file goes on with another header, an open one without. */
  lemma GoesOnBehind(earlier: seq<Row>, buffer: seq<Row>, rows: seq<Row>)
    requires rows != []
    ensures Complete(Cell(None, None, Some(earlier)), rows).file == Some(earlier + [Header] + rows)
    ensures Complete(Cell(Some(true), Some(buffer), Some(earlier)), rows).file == Some(earlier + buffer + rows)
  {
    assert earlier + [] == earlier && earlier + buffer + [] == earlier + buffer;
  }

  /** Storing the sample at position i meets the fault, for a metric whose cell was `before` when the stream began. */
  ghost predicate CannotStore(before: Cell, samples: seq<Sample>, i: nat, fault: Fault)
    requires i < |samples|
  {
    Met(fault, before.buffer.Some? || RowsOf(samples[..i], samples[i].metric) != [])
  }

  /** The first n samples can be stored, one behind the other. */
  ghost predicate Storable(start: Key -> Cell, id: Id, samples: seq<Sample>, faults: nat -> Fault, n: nat)
    requires n <= |samples|
  {
    forall i: nat :: i < n ==> !CannotStore(start(Key(samples[i].metric, id)), samples, i, faults(i))
  }

  lemma StorableSoFar(start: Key -> Cell, id: Id, samples: seq<Sample>, faults: nat -> Fault, i: nat)
    requires i < |samples| && Storable(start, id, samples, faults, i)
    ensures Storable(start, id, samples, faults, i + 1) <==> !CannotStore(start(Key(samples[i].metric, id)), samples, i, faults(i))
    ensures Storable(start, id, samples, faults, |samples|) ==> Storable(start, id, samples, faults, i + 1)
  {
  }

  ghost predicate Grown(before: Cell, c: Cell, rows: seq<Row>) {
    if rows == [] then c == before else Sound(c) && c.buffer.Some? && Total(c) == Content(before, rows)
  }

  /** Grown; and if nothing spilled over, all that was added is still in the buffer. */
  ghost predicate Received(before: Cell, c: Cell, rows: seq<Row>, dry: bool) {
    Grown(before, c, rows) && (dry ==> Rows(c.file) == Rows(before.file))
  }

  ghost function Snapshot(files: map<Key, bool>, writers: map<Key, seq<Row>>, disk: map<Key, seq<Row>>): Key -> Cell {
    k => Cell(Lookup(files, k), Lookup(writers, k), Lookup(disk, k))
  }

  lemma OtherMetricsKeep(before: Cell, c: Cell, samples: seq<Sample>, i: nat, metric: string, dry: bool)
    requires i < |samples| && metric != samples[i].metric && Received(before, c, RowsOf(samples[..i], metric), dry)
    ensures Received(before, c, RowsOf(samples[..i + 1], metric), dry)
  {
    OneSampleMore(samples, i, metric);
    assert RowsOf(samples[..i], metric) + [] == RowsOf(samples[..i], metric);
  }

  /** A closed cell with all of these rows in its file. */
  function Complete(before: Cell, rows: seq<Row>): Cell {
    Cell(None, None, if before.file.None? && rows == [] then None else Some(Content(before, rows)))
  }

  /** A closed cell whose file has all of these rows but the last ones, which were lost. */
  ghost predicate CompleteBut(before: Cell, c: Cell, rows: seq<Row>, lost: seq<Row>) {
    && c == Cell(None, None, c.file)
    && (c.file.None? <==> before.file.None? && rows == [])
    && Rows(c.file) + lost == Content(before, rows)
  }

  /** Rows are neither invented nor reordered by a lost flush, and a file is complete exactly if nothing was lost. */
  lemma CompleteIffNothingLost(before: Cell, c: Cell, rows: seq<Row>, lost: seq<Row>)
    requires Sound(before) && CompleteBut(before, c, rows, lost)
    ensures c == Complete(before, rows) <==> lost == []
  {
    assert Rows(c.file) + [] == Rows(c.file);
    assert |Rows(c.file)| + |lost| == |Content(before, rows)|;
  }

  /** One row was added, after a header if there was no writer; if nothing spilled over, to the buffer. */
  ghost predicate OneRowMore(c: Cell, c': Cell, row: Row, dry: bool) {
    && Sound(c') && c'.buffer.Some?
    && Total(c') == Total(c) + (if c.buffer.Some? then [] else [Header]) + [row]
    && (dry ==> Rows(c'.file) == Rows(c.file))
  }

  lemma GrowsByOne(before: Cell, c: Cell, c': Cell, rows: seq<Row>, row: Row, dry: bool)
    requires Received(before, c, rows, dry) && Sound(before) && OneRowMore(c, c', row, dry)
    ensures Received(before, c', rows + [row], dry)
  {
  }

  /** What a flush that puts only `kept` rows on disk loses. */
  function Lost(buffer: Option<seq<Row>>, kept: nat): seq<Row> {
    var rows := Rows(buffer);
    if kept < |rows| then rows[kept..] else []
  }

  /** A flush loses the rows behind the first `kept`, and so none exactly if it gets through all of them. */
  lemma LosesTheLast(buffer: Option<seq<Row>>, kept: nat)
    ensures Lost(buffer, kept) == [] <==> |Rows(buffer)| <= kept
    ensures kept < |Rows(buffer)| ==> Rows(buffer) == Rows(buffer)[..kept] + Lost(buffer, kept)
  {
  }

  /** The cell after its writer was flushed, with `kept` rows reaching the file, and dropped. */
  function Flushed(c: Cell, kept: nat): Cell {
    if c.buffer.None? then c
    else Cell(c.handle, None, Some(Rows(c.file) + if kept < |c.buffer.value| then c.buffer.value[..kept] else c.buffer.value))
  }

  /** The cell after Close. */
  function Closed(c: Cell, kept: nat): Cell {
    Flushed(c, kept).(handle := None)
  }

  lemma GrownCloses(before: Cell, c: Cell, rows: seq<Row>, kept: nat)
    requires Grown(before, c, rows) && Sound(before)
    ensures Sound(c) && Sound(Closed(c, kept))
    ensures CompleteBut(before, Closed(c, kept), rows, Lost(c.buffer, kept))
  {
    if c.buffer.Some? {
      var rows, file := c.buffer.value, Rows(c.file);
      if kept < |rows| {
        assert rows == rows[..kept] + rows[kept..];
        assert file + rows[..kept] + rows[kept..] == file + rows;
      } else {
        assert file + rows + [] == file + rows;
      }
    } else {
      assert Rows(c.file) + [] == Rows(c.file);
    }
  }

  /** Where writing one sample fails. */
  datatype Fault = NoFault | MkdirFails | OpenFails | HeaderFails | RowFails

  /** The fault is met: that of a row always, the others only if a file has to be opened. */
  predicate Met(fault: Fault, open: bool) {
    match fault
    case NoFault => false
    case MkdirFails => !open
    case OpenFails => !open
    case HeaderFails => !open
    case RowFails => true
  }

  /** How the sample stream ends for the repository. */
  datatype Ending = StreamClosed(marking: Marking) | ContextDone

  /**
    What happens when the writers and files are closed: how many of a writer's rows its flush puts on
    disk, which nobody asks it about, and the files whose Close reports an error.
   */
  datatype Closing = Closing(kept: Key -> nat, failing: set<Key>)

  /** Deleting the data after an error: it works, or leaves some files and perhaps the marker behind. */
  datatype Cleanup = Removed | RemovalFails(left: set<Key>, marker: bool)

  class NodeInfoRepository {
    var nodeInfoFiles: map<Key, bool>      // an open file, or (false) a nil handle
    var writers: map<Key, seq<Row>>        // rows a CSV writer has not flushed yet
    var disk: map<Key, seq<Row>>           // the CSV files
    var done: set<Id>                      // the `.done` markers

    ghost function At(k: Key): Cell
      reads this
    {
      Cell(Lookup(nodeInfoFiles, k), Lookup(writers, k), Lookup(disk, k))
    }

    ghost predicate Valid()
      reads this
    {
      forall k :: Sound(At(k))
    }

    ghost function Cells(): Key -> Cell
      reads this
    {
      Snapshot(nodeInfoFiles, writers, disk)
    }

    constructor ()
      ensures Valid() && done == {}
      ensures forall k :: At(k) == FreshCell()
    {
      nodeInfoFiles, writers, disk, done := map[], map[], map[], {};
    }

    /** Appends a row to the buffer, part of which may go to the file at once. */
    method WriteRow(k: Key, row: Row, spill: nat)
      requires k in writers && k in disk
      modifies this`writers, this`disk
      ensures k in writers && k in disk
      ensures Total(At(k)) == old(Total(At(k))) + [row] && At(k).handle == old(At(k)).handle
      ensures spill == 0 ==> At(k).file == old(At(k)).file
      ensures forall k' :: k' != k ==> At(k') == old(At(k'))
    {
      var buffer := writers[k] + [row];
      var n := if spill <= |buffer| then spill else |buffer|;
      assert disk[k] + buffer[..n] + buffer[n..] == disk[k] + writers[k] + [row] by {
        assert buffer == buffer[..n] + buffer[n..];
      }
      assert disk[k] + buffer[..0] == disk[k];
      disk := disk[k := disk[k] + buffer[..n]];
      writers := writers[k := buffer[n..]];
    }

    method CreateNodeInfo(id: Id, data: Sample, fault: Fault, spill: nat) returns (ok: bool)
      requires Sound(At(Key(data.metric, id)))
      modifies this`nodeInfoFiles, this`writers, this`disk
      ensures var k := Key(data.metric, id);
              && (forall k' :: k' != k ==> At(k') == old(At(k')))
              && (k in writers ==> k in disk)
              && (ok <==> !Met(fault, old(At(k)).buffer.Some?))
              && (ok ==> OneRowMore(old(At(k)), At(k), RowOf(data), spill == 0))
    {
      var k := Key(data.metric, id);
      if !(k in nodeInfoFiles && nodeInfoFiles[k]) {
        if fault == MkdirFails {
          return false;
        }
        if fault == OpenFails {
          nodeInfoFiles := nodeInfoFiles[k := false];
          return false;
        }
        nodeInfoFiles := nodeInfoFiles[k := true];
        disk := disk[k := if k in disk then disk[k] else []];
        writers := writers[k := []];
        assert Total(At(k)) == old(Total(At(k)));
        if fault == HeaderFails {
          return false;
        }
        WriteRow(k, Header, spill);
      }
      if fault == RowFails {
        return false;
      }
      WriteRow(k, RowOf(data), spill);
      ok := true;
    }

    /** Flushes one writer, as far as that works, and drops it. */
    method FlushWriter(k: Key, kept: nat)
      requires k in writers && k in disk
      modifies this`writers, this`disk
      ensures forall k' :: At(k') == if k' == k then Flushed(old(At(k)), kept) else old(At(k'))
    {
      disk := disk[k := disk[k] + if kept < |writers[k]| then writers[k][..kept] else writers[k]];
      writers := map k' | k' in writers && k' != k :: writers[k'];
    }

    /** Flushes and drops the writers of the archive, then closes and drops its files. */
    method Close(id: Id, closing: Closing) returns (ok: bool)
      requires forall k :: k in writers ==> k in disk
      modifies this`nodeInfoFiles, this`writers, this`disk
      ensures forall k :: At(k) == if k.id == id then Closed(old(At(k)), closing.kept(k)) else old(At(k))
      ensures ok <==> forall k :: k in old(nodeInfoFiles) && k.id == id ==> old(nodeInfoFiles)[k] && k !in closing.failing
    {
      var rest := writers.Keys;
      while rest != {}
        invariant nodeInfoFiles == old(nodeInfoFiles)
        invariant rest <= old(writers).Keys
        invariant forall k ::
          At(k) == if k.id == id && k in old(writers) && k !in rest then Flushed(old(At(k)), closing.kept(k)) else old(At(k))
        decreases rest
      {
        var k :| k in rest;
        rest := rest - {k};
        if k.id == id {
          assert At(k) == old(At(k));
          FlushWriter(k, closing.kept(k));
        }
      }
      ok := forall k | k in nodeInfoFiles && k.id == id :: nodeInfoFiles[k] && k !in closing.failing;
      label Flushed:
      nodeInfoFiles := map k | k in nodeInfoFiles && k.id != id :: nodeInfoFiles[k];
      forall k ensures At(k) == if k.id == id then Closed(old(At(k)), closing.kept(k)) else old(At(k)) {
        assert old@Flushed(At(k)) == if k.id == id && k in old(writers) then Flushed(old(At(k)), closing.kept(k)) else old(At(k));
      }
    }

    /** Closes the archive's handles and deletes its data after an error. */
    method HandleCreateErr(id: Id, closing: Closing, cleanup: Cleanup)
      requires forall k :: k in writers ==> k in disk
      modifies this
      ensures forall k: Key :: k.id != id ==> At(k) == old(At(k))
      ensures forall k: Key :: k.id == id ==> At(k).handle == None && At(k).buffer == None
      ensures cleanup == Removed ==> done == old(done) - {id} && forall k: Key :: k.id == id ==> At(k).file == None
      ensures done == old(done) || done == old(done) - {id}
    {
      var closed := Close(id, closing);
      label Closed:
      Delete(id, cleanup);
      forall k ensures At(k).handle == old@Closed(At(k)).handle && At(k).buffer == old@Closed(At(k)).buffer {
      }
    }

    /** The base repository's finishCollection, which must come after the flush. */
    method MarkDone(id: Id, marking: Marking) returns (ok: bool)
      requires forall k :: k in writers ==> k.id != id
      modifies this`done
      ensures ok == (marking == Marked) && done == MarkedBy(old(done), id, marking)
    {
      if marking == Marked || marking.present {
        done := done + {id};
      }
      ok := marking == Marked;
    }

    /** Closes and marks: an error when closing is returned, but it does not keep the marker from being written. */
    method FinishCollection(id: Id, closing: Closing, marking: Marking) returns (ok: bool)
      requires Valid()
      modifies this
      ensures Valid()
      ensures forall k :: At(k) == if k.id == id then Closed(old(At(k)), closing.kept(k)) else old(At(k))
      ensures done == MarkedBy(old(done), id, marking)
      ensures ok <==> marking == Marked && forall k :: k in old(nodeInfoFiles) && k.id == id ==> k !in closing.failing
    {
      assert forall k :: k in writers ==> Sound(At(k));
      assert forall k :: k in nodeInfoFiles ==> Sound(At(k)) && At(k).handle == Some(nodeInfoFiles[k]) && nodeInfoFiles[k];
      var closed := Close(id, closing);
      forall k ensures Sound(At(k)) && (k in writers ==> k.id != id) {
        assert At(k).buffer.Some? <==> k in writers;
      }
      var marked := MarkDone(id, marking);
      ok := closed && marked;
    }

    /** What happens once the channel is closed: finish, then close once more, which finds nothing left to do. */
    method FinishAndClose(id: Id, closing: Closing, marking: Marking) returns (ok: bool)
      requires Valid()
      modifies this
      ensures Valid()
      ensures forall k :: At(k) == if k.id == id then Closed(old(At(k)), closing.kept(k)) else old(At(k))
      ensures done == MarkedBy(old(done), id, marking)
      ensures ok <==> marking == Marked && forall k :: k in old(nodeInfoFiles) && k.id == id ==> k !in closing.failing
    {
      ok := FinishCollection(id, closing, marking);
      if ok {
        label Finished:
        assert forall k :: k in writers ==> Sound(At(k));
        forall k: Key | k.id == id ensures k !in nodeInfoFiles {
          assert At(k).handle == None;
        }
        ok := Close(id, closing);
        forall k ensures At(k) == old@Finished(At(k)) {
          assert k.id == id ==> old@Finished(At(k)) == Closed(old(At(k)), closing.kept(k));
        }
      }
    }

    /** The base repository's Delete. */
    method Delete(id: Id, cleanup: Cleanup)
      modifies this`disk, this`done
      ensures forall k: Key :: k.id != id ==> At(k) == old(At(k))
      ensures forall k: Key :: k.id == id ==> At(k) == old(At(k)).(file := At(k).file)
      ensures cleanup == Removed ==> done == old(done) - {id} && forall k: Key :: k.id == id ==> At(k).file == None
      ensures done == old(done) || done == old(done) - {id}
    {
      match cleanup {
        case Removed =>
          disk := map k | k in disk && k.id != id :: disk[k];
          done := done - {id};
        case RemovalFails(left, marker) =>
          disk := map k | k in disk && (k.id != id || k in left) :: disk[k];
          if !marker {
            done := done - {id};
          }
      }
    }

    /**
      Receives samples and stores them, up to the first that cannot be stored.  `faults` and `spills` say
      for each sample where writing it fails and how much of the buffer goes to the file; a write behind a
      failed spill fails too.
     */
    method Receive(id: Id, samples: seq<Sample>, faults: nat -> Fault, spills: nat -> nat) returns (stored: bool)
      requires Valid()
      modifies this`nodeInfoFiles, this`writers, this`disk
      ensures forall k: Key :: k.id != id ==> At(k) == old(At(k))
      ensures forall k :: k in writers ==> k in disk
      ensures stored <==> Storable(old(Cells()), id, samples, faults, |samples|)
      ensures stored ==>
                var dry := forall i :: spills(i) == 0;
                forall k: Key :: k.id == id ==> Received(old(At(k)), At(k), RowsOf(samples, k.metric), dry)
    {
      ghost var dry := forall i :: spills(i) == 0;
      ghost var start := Cells();
      assert forall k :: start(k) == At(k);
      StartsReceived(start, id, samples, dry);
      for i := 0 to |samples|
        invariant forall k: Key :: k.id != id ==> At(k) == start(k)
        invariant Ready() && AllReceived(start, id, samples, i, dry)
        invariant Storable(start, id, samples, faults, i)
      {
        StorableSoFar(start, id, samples, faults, i);
        stored := ReceiveOne(id, samples, i, faults(i), spills(i), start, dry);
        if !stored {
          return;
        }
      }
      assert samples[..|samples|] == samples;
      stored := true;
    }

    /** Every writer has its file. */
    ghost predicate Ready()
      reads this
    {
      forall k :: k in writers ==> k in disk
    }

    /** The first i samples have been stored, from the cells that were there when the stream began. */
    ghost predicate AllReceived(start: Key -> Cell, id: Id, samples: seq<Sample>, i: nat, dry: bool)
      requires i <= |samples|
      reads this
    {
      forall k: Key :: k.id == id ==> Received(start(k), At(k), RowsOf(samples[..i], k.metric), dry)
    }

    lemma StartsReceived(start: Key -> Cell, id: Id, samples: seq<Sample>, dry: bool)
      requires Valid() && forall k :: start(k) == At(k)
      ensures Ready() && AllReceived(start, id, samples, 0, dry)
    {
      forall k | k in writers ensures k in disk {
        assert Sound(At(k));
      }
    }

    /** Stores the sample at position i. */
    method ReceiveOne(id: Id, samples: seq<Sample>, i: nat, fault: Fault, spill: nat, ghost start: Key -> Cell, ghost dry: bool)
      returns (stored: bool)
      requires i < |samples| && (dry ==> spill == 0) && forall k :: Sound(start(k))
      requires Ready() && AllReceived(start, id, samples, i, dry)
      modifies this`nodeInfoFiles, this`writers, this`disk
      ensures forall k :: k != Key(samples[i].metric, id) ==> At(k) == old(At(k))
      ensures Ready() && (stored ==> AllReceived(start, id, samples, i + 1, dry))
      ensures stored <==> !CannotStore(start(Key(samples[i].metric, id)), samples, i, fault)
    {
      ghost var key := Key(samples[i].metric, id);
      ghost var before, rows := At(key), RowsOf(samples[..i], key.metric);
      GrownCloses(start(key), before, rows, 0);
      assert before.buffer.Some? <==> start(key).buffer.Some? || rows != [];
      stored := CreateNodeInfo(id, samples[i], fault, spill);
      forall k | k in writers ensures k in disk {
        assert k != key ==> At(k) == old(At(k));
      }
      if stored {
        OneSampleMore(samples, i, key.metric);
        GrowsByOne(start(key), before, At(key), rows, RowOf(samples[i]), dry);
        forall k: Key | k.id == id ensures Received(start(k), At(k), RowsOf(samples[..i + 1], k.metric), dry) {
          if k != key {
            assert At(k) == old(At(k));
            OtherMetricsKeep(start(k), At(k), samples, i, k.metric, dry);
          }
        }
      }
    }

    /** Consumes the samples of one archive.  `buffers` is what the writers hold when the stream has ended. */
    method Create(id: Id, samples: seq<Sample>, faults: nat -> Fault, spills: nat -> nat,
                  ending: Ending, closing: Closing, cleanup: Cleanup)
      returns (ok: bool, ghost failed: bool, ghost buffers: map<Key, seq<Row>>)
      requires Valid()
      modifies this
      ensures Valid()
      ensures forall k: Key :: k.id != id ==> At(k) == old(At(k))
      ensures failed <==> !Storable(old(Cells()), id, samples, faults, |samples|)
      ensures !failed ==>
                forall k: Key :: k.id == id ==> (k in buffers <==> old(At(k)).buffer.Some? || RowsOf(samples, k.metric) != [])
      ensures failed ==> !ok && forall k: Key :: k.id == id ==> At(k).handle == None && At(k).buffer == None
      ensures failed && cleanup == Removed ==>
                done == old(done) - {id} && forall k: Key :: k.id == id ==> At(k) == FreshCell()
      ensures !failed && ending.ContextDone? ==> !ok && done == old(done)
      ensures !failed && ending.ContextDone? ==>
                forall k: Key :: k.id == id ==> Grown(old(At(k)), At(k), RowsOf(samples, k.metric))
      ensures !failed && ending.StreamClosed? ==> done == MarkedBy(old(done), id, ending.marking)
      ensures !failed && ending.StreamClosed? ==>
                (ok <==> ending.marking == Marked && forall k :: k in buffers && k.id == id ==> k !in closing.failing)
      // the flush is not asked whether it worked: it decides alone whether a file is complete
      ensures !failed && ending.StreamClosed? ==>
                forall k: Key :: k.id == id ==>
                  var rows, buffer := RowsOf(samples, k.metric), Lookup(buffers, k);
                  && CompleteBut(old(At(k)), At(k), rows, Lost(buffer, closing.kept(k)))
                  && (At(k) == Complete(old(At(k)), rows) <==> |Rows(buffer)| <= closing.kept(k))
      ensures !failed && ending.StreamClosed? && (forall i :: spills(i) == 0) ==>
                forall k: Key :: k.id == id && closing.kept(k) == 0 ==> Rows(At(k).file) == Rows(old(At(k)).file)
    {
      var stored := Receive(id, samples, faults, spills);
      failed := !stored;
      if !stored {
        HandleCreateErr(id, closing, cleanup);
        forall k ensures Sound(At(k)) {
          assert k.id != id ==> At(k) == old(At(k));
        }
        return false, failed, map[];
      }
      buffers := writers;
      assert forall k :: k in buffers <==> At(k).buffer.Some?;
      forall k
        ensures Sound(At(k))
        ensures k.id == id ==> CompleteBut(old(At(k)), Closed(At(k), closing.kept(k)), RowsOf(samples, k.metric),
                                           Lost(At(k).buffer, closing.kept(k)))
      {
        if k.id == id {
          GrownCloses(old(At(k)), At(k), RowsOf(samples, k.metric), closing.kept(k));
        }
      }
      if ending.ContextDone? {
        return false, failed, buffers;
      }
      label Ended:
      ok := FinishAndClose(id, closing, ending.marking);
      forall k: Key | k.id == id
        ensures var rows, buffer := RowsOf(samples, k.metric), Lookup(buffers, k);
                && CompleteBut(old(At(k)), At(k), rows, Lost(buffer, closing.kept(k)))
                && (At(k) == Complete(old(At(k)), rows) <==> |Rows(buffer)| <= closing.kept(k))
      {
        LosesTheLast(Lookup(buffers, k), closing.kept(k));
        assert old@Ended(At(k)).buffer == Lookup(buffers, k);
        CompleteIffNothingLost(old(At(k)), At(k), RowsOf(samples, k.metric), Lost(Lookup(buffers, k), closing.kept(k)));
      }
      forall k: Key | k.id == id ensures k in buffers <==> k in old@Ended(nodeInfoFiles) {
        assert Sound(old@Ended(At(k)));
      }
    }
  }

  /** A flush that fails goes unnoticed: Create reports success, the archive is marked, and the rows are not there. */
  method SilentLoss(id: Id, x: Sample) returns (repository: NodeInfoRepository, ok: bool)
    ensures ok && id in repository.done
    ensures Rows(repository.At(Key(x.metric, id)).file) == []
    ensures repository.At(Key(x.metric, id)) != Complete(FreshCell(), RowsOf([x], x.metric))
  {
    repository := new NodeInfoRepository();
    ghost var failed, buffers;
    ok, failed, buffers := repository.Create(id, [x], _ => NoFault, _ => 0, StreamClosed(Marked), Closing(_ => 0, {}), Removed);
    assert [x][..0] == [] && RowsOf([x], x.metric) == RowsOf([], x.metric) + [RowOf(x)];
  }
}
