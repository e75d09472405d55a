/**
  Storing the stream of log lines in one text file per archive
  (pkg/adapter/archive/file/singleLogFileRepository.go:21-81, driven by
  pkg/adapter/archive/file/baseFileRepository.go:117-169).
 */
module LogFile {
  import opened Collections
  import opened Domain

  type Id = SupportArchiveID

  const HEADER: string := "LOGS\n"

  // ---------- the text of a log file ----------

  /** The lines, each ended by a newline. */
  function Text(lines: seq<string>): string {
    if lines == [] then "" else Text(lines[..|lines| - 1]) + lines[|lines| - 1] + "\n"
  }

  /** Where the first newline is, or the length of the text. */
  function LineEnd(text: string): (n: nat)
    ensures n <= |text| && (n < |text| ==> text[n] == '\n')
    ensures '\n' !in text[..n]
  {
    if text == "" || text[0] == '\n' then 0
    else
      var n := LineEnd(text[1..]);
      assert text[..n + 1] == [text[0]] + text[1..][..n];
      n + 1
  }

  /** What a reader takes for the lines of a text: everything that a newline ends. */
  function ReadLines(text: string): seq<string> {
    var n := LineEnd(text);
    if n == |text| then [] else [text[..n]] + ReadLines(text[n + 1..])
  }

  lemma {:induction false} LineEndUnique(line: string, rest: string)
    requires '\n' !in line
    ensures LineEnd(line + "\n" + rest) == |line|
  {
    var text := line + "\n" + rest;
    if line != "" {
      assert line[0] in line;
      assert text[1..] == line[1..] + "\n" + rest;
      LineEndUnique(line[1..], rest);
    }
  }

  lemma {:induction false} ReadsNoNewline(text: string)
    ensures forall line :: line in ReadLines(text) ==> '\n' !in line
  {
    var n := LineEnd(text);
    if n < |text| {
      ReadsNoNewline(text[n + 1..]);
    }
  }

  lemma {:induction false} TextFromFront(lines: seq<string>)
    requires lines != []
    ensures Text(lines) == lines[0] + "\n" + Text(lines[1..])
  {
    var n := |lines| - 1;
    if n > 0 {
      assert lines[1..][..n - 1] == lines[..n][1..];
      TextFromFront(lines[..n]);
    }
  }

  lemma {:induction false} ReadsBack(lines: seq<string>)
    requires forall line :: line in lines ==> '\n' !in line
    ensures ReadLines(Text(lines)) == lines
  {
    if lines != [] {
      var line, rest := lines[0], Text(lines[1..]);
      var text := line + "\n" + rest;
      TextFromFront(lines);
      LineEndUnique(line, rest);
      assert text[..|line|] == line && text[|line| + 1..] == rest;
      ReadsBack(lines[1..]);
      assert ReadLines(text) == [line] + ReadLines(rest);
    }
  }

  /** The stored text can be read back as the received lines exactly if none of them contains a newline. */
  lemma ReadsBackIff(lines: seq<string>)
    ensures ReadLines(Text(lines)) == lines <==> forall line :: line in lines ==> '\n' !in line
  {
    ReadsNoNewline(Text(lines));
    if forall line :: line in lines ==> '\n' !in line {
      ReadsBack(lines);
    }
  }

  /** The text of a stream is that of its parts, wherever it is cut. */
  lemma {:induction false} TextOfAppend(a: seq<string>, b: seq<string>)
    ensures Text(a + b) == Text(a) + Text(b)
  {
    if b == [] {
      assert a + b == a;
    } else {
      var n := |b| - 1;
      assert (a + b)[..|a| + n] == a + b[..n];
      TextOfAppend(a, b[..n]);
    }
  }

  // ---------- the repository ----------

  /** All the repository holds for one archive: handle (false: unusable) and file content. */
  datatype Cell = Cell(handle: Option<bool>, file: Option<string>)

  /** An open handle belongs to a file, and no unusable handle outlives the Create that got it. */
  ghost predicate Sound(c: Cell) {
    c.handle != Some(false) && (c.handle.Some? ==> c.file.Some?)
  }

  /** The cell after more lines: a file opened for them continues with a header. */
  function Grown(before: Cell, lines: seq<string>): Cell {
    if lines == [] then before
    else
      var content := before.file.GetOr("");
      Cell(Some(true), Some(content + (if before.handle.Some? then "" else HEADER) + Text(lines)))
  }

  /** From nothing, the file is one header and the lines; without lines there is no file. */
  lemma FreshFile(lines: seq<string>)
    ensures Grown(Cell(None, None), lines).file == if lines == [] then None else Some(HEADER + Text(lines))
  {
    assert "" + HEADER == HEADER;
  }

  lemma OneLine(before: Cell, line: string)
    ensures Text([line]) == line + "\n"
    ensures var content := before.file.GetOr("");
            Grown(before, [line]) == Cell(Some(true), Some(content + (if before.handle.Some? then "" else HEADER) + (line + "\n")))
  {
    assert [line][..0] == [];
    assert Text([line]) == "" + line + "\n";
  }

  lemma Associate(a: string, b: string, c: string)
    ensures a + b + c == a + (b + c)
    ensures a + "" + c == a + c
  {
  }

  /**
    What an interrupted run left is kept: the next run goes on behind it.  Whether a second header
    comes between the two depends only on whether the file is still open.
   */
  lemma SecondRunAppends(before: Cell, first: seq<string>, second: seq<string>)
    requires first != [] && second != []
    ensures Grown(Grown(before, first), second) == Grown(before, first + second)
    ensures var closed := Grown(before, first).(handle := None);
            Grown(closed, second).file == Some(closed.file.value + HEADER + Text(second))
  {
    var content := before.file.GetOr("");
    var start := content + if before.handle.Some? then "" else HEADER;
    TextOfAppend(first, second);
    Associate(start + Text(first), "", Text(second));
    Associate(start, Text(first), Text(second));
  }

  /** Where storing one line fails; a failing write may have written a part. */
  datatype Fault = NoFault | MkdirFails | OpenFails | HeaderFails(part: string) | LineFails(part: string)

  /** The fault is met: that of a line always, the others only if the file has to be opened. */
  predicate Met(fault: Fault, open: bool) {
    match fault
    case NoFault => false
    case MkdirFails => !open
    case OpenFails => !open
    case HeaderFails(_) => !open
    case LineFails(_) => true
  }

  /** How the stream ends for the repository. */
  datatype Ending = StreamClosed(marking: Marking) | ContextDone

  /** Deleting the data after an error: it works, or leaves the file or the marker behind. */
  datatype Cleanup = Removed | RemovalFails(file: bool, marker: bool)

  class SingleLogFileRepository {
    var files: map<Id, bool>        // an open file, or (false) an unusable one
    var disk: map<Id, string>       // the log files
    var done: set<Id>               // the `.done` markers

    ghost function At(id: Id): Cell
      reads this
    {
      Cell(if id in files then Some(files[id]) else None, if id in disk then Some(disk[id]) else None)
    }

    ghost predicate Valid()
      reads this
    {
      forall id :: Sound(At(id))
    }

    constructor ()
      ensures Valid() && done == {}
      ensures forall id :: At(id) == Cell(None, None)
    {
      files, disk, done := map[], map[], {};
    }

    method Write(id: Id, text: string)
      requires id in disk
      modifies this`disk
      ensures disk == old(disk)[id := old(disk)[id] + text]
    {
      disk := disk[id := disk[id] + text];
    }

    method CreateLog(id: Id, line: string, fault: Fault) returns (ok: bool)
      requires Sound(At(id))
      modifies this`files, this`disk
      ensures forall id' :: id' != id ==> At(id') == old(At(id'))
      ensures ok <==> !Met(fault, old(At(id)).handle.Some?)
      ensures ok ==> At(id) == Grown(old(At(id)), [line])
    {
      assert id in files ==> files[id] && id in disk by {
        assert At(id).handle != Some(false) && (At(id).handle.Some? ==> At(id).file.Some?);
      }
      if id !in files {
        if fault == MkdirFails {
          return false;
        }
        if fault == OpenFails {
          files := files[id := false];
          return false;
        }
        files := files[id := true];
        disk := disk[id := if id in disk then disk[id] else ""];
        if fault.HeaderFails? {
          Write(id, fault.part);
          return false;
        }
        Write(id, HEADER);
      }
      if fault.LineFails? {
        Write(id, fault.part);
        return false;
      }
      Write(id, line + "\n");
      ok := true;
      ghost var before := old(At(id));
      OneLine(before, line);
      Associate(before.file.GetOr(""), "", line + "\n");
      assert id in old(files) ==> disk[id] == before.file.GetOr("") + (line + "\n");
      assert id !in old(files) ==> disk[id] == before.file.GetOr("") + HEADER + (line + "\n");
    }

    /** `fails`: closing the file, if there is one, reports an error. */
    method Close(id: Id, fails: bool) returns (ok: bool)
      modifies this`files
      ensures forall id' :: At(id') == if id' == id then old(At(id)).(handle := None) else old(At(id'))
      ensures ok <==> (id in old(files) ==> old(files)[id] && !fails)
    {
      ok := id in files ==> files[id] && !fails;
      files := map id' | id' in files && id' != id :: files[id'];
    }

    /** Closes the archive's handle and deletes its data after an error. */
    method HandleCreateErr(id: Id, closeFails: bool, cleanup: Cleanup)
      modifies this
      ensures forall id' :: id' != id ==> At(id') == old(At(id'))
      ensures At(id).handle == None && (done == old(done) || done == old(done) - {id})
      ensures cleanup == Removed ==> done == old(done) - {id} && At(id) == Cell(None, None)
    {
      var closed := Close(id, closeFails);
      label Closed:
      if cleanup == Removed || !cleanup.file {
        disk := map id' | id' in disk && id' != id :: disk[id'];
      }
      if cleanup == Removed || !cleanup.marker {
        done := done - {id};
      }
      forall id' ensures At(id').handle == old@Closed(At(id')).handle && (id' != id ==> At(id') == old(At(id'))) {
      }
    }

    /**
      What happens once the channel is closed: the marker first, and the file is closed only if that
      worked.  An error when closing is returned although the marker has been written.
     */
    method FinishAndClose(id: Id, marking: Marking, closeFails: bool) returns (ok: bool)
      requires Sound(At(id))
      modifies this
      ensures done == MarkedBy(old(done), id, marking)
      ensures ok <==> marking == Marked && (old(At(id)).handle.Some? ==> !closeFails)
      ensures forall id' ::
                At(id') == if id' == id && marking == Marked then old(At(id)).(handle := None) else old(At(id'))
    {
      assert id in files ==> At(id).handle == Some(files[id]) && files[id];
      if marking == Marked || marking.present {
        done := done + {id};
      }
      if marking != Marked {
        return false;
      }
      ok := Close(id, closeFails);
    }

    /**
      Consumes the log lines of one archive; `faults` says for each line where storing it fails.
      Without a fault the file holds the earlier content and the lines in order of arrival; it is
      marked done only then, and it is closed only if marking it worked: a context that ends, or a
      marker that cannot be written, leaves it open.  Other archives are never touched.
     */
    method Create(id: Id, lines: seq<string>, faults: nat -> Fault, ending: Ending, closeFails: bool, cleanup: Cleanup)
      returns (ok: bool, ghost failed: bool)
      requires Valid()
      modifies this
      ensures Valid()
      ensures forall id' :: id' != id ==> At(id') == old(At(id'))
      ensures failed <==> exists i: nat :: i < |lines| && Met(faults(i), i > 0 || old(At(id)).handle.Some?)
      ensures failed ==> !ok && At(id).handle == None
      ensures failed && cleanup == Removed ==> done == old(done) - {id} && At(id) == Cell(None, None)
      ensures !failed ==> done == if ending.ContextDone? then old(done) else MarkedBy(old(done), id, ending.marking)
      ensures !failed ==>
                var open := Grown(old(At(id)), lines);
                && At(id) == (if ending == StreamClosed(Marked) then open.(handle := None) else open)
                && (ok <==> ending == StreamClosed(Marked) && (open.handle.Some? ==> !closeFails))
    {
      failed := false;
      for i := 0 to |lines|
        invariant done == old(done)
        invariant forall id' :: id' != id ==> At(id') == old(At(id'))
        invariant At(id) == Grown(old(At(id)), lines[..i])
        invariant forall j: nat :: j < i ==> !Met(faults(j), j > 0 || old(At(id)).handle.Some?)
      {
        GrowsByOne(old(At(id)), lines[..i], lines[i]);
        assert lines[..i + 1] == lines[..i] + [lines[i]];
        var stored := CreateLog(id, lines[i], faults(i));
        assert stored <==> !Met(faults(i), i > 0 || old(At(id)).handle.Some?);
        if !stored {
          failed := true;
          HandleCreateErr(id, closeFails, cleanup);
          return false, failed;
        }
      }
      assert lines[..|lines|] == lines;
      if ending.ContextDone? {
        return false, failed;
      }
      ok := FinishAndClose(id, ending.marking, closeFails);
    }
  }

  lemma GrowsByOne(before: Cell, lines: seq<string>, line: string)
    requires Sound(before)
    ensures Sound(Grown(before, lines))
    ensures Grown(Grown(before, lines), [line]) == Grown(before, lines + [line])
  {
    if lines == [] {
      assert lines + [line] == [line];
    } else {
      SecondRunAppends(before, lines, [line]);
    }
  }
}
