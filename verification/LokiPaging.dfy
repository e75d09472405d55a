/**
  The windowed, limit-driven paging of the Loki log provider
  (pkg/adapter/loki/lokiLogsProvider.go).

  The log store is a finite set of entries; the server
  that answers range queries is arbitrary as long as every complete answer holds
  the `limit` earliest entries of the requested window, with ties resolved and
  entries split over streams in any way, differently on every request if it likes.
 */
module LokiPaging {
  import opened Arithmetic
  import opened Collections

  /** Times are counted in nanoseconds from Go's zero time, January 1 of year 1. */
  const ZERO_TIME := 0

  /** Log timestamps are 64-bit Unix nanoseconds, the earliest of them in 1677: all after the zero time. */
  type Stamp = t: int | ZERO_TIME < t witness 1

  /** `id` stands for everything that tells two lines of one nanosecond apart. */
  datatype Entry = Entry(ts: Stamp, id: nat)

  /** One value of a response stream: a line, or one whose timestamp or text does not parse. */
  datatype Row = Line(entry: Entry) | Malformed

  datatype Reply = Failed | Streams(streams: seq<seq<Row>>)

  datatype Config = Config(start: int, end: int, limit: nat, window: int)

  /** Answers request number k for the window from s to e. */
  type Server = (nat, int, int) -> Reply

  datatype Request = Request(start: int, end: int, full: bool, latest: int)

  // ---------- one response ----------

  function Flatten(streams: seq<seq<Row>>): seq<Row> {
    if streams == [] then [] else streams[0] + Flatten(streams[1..])
  }

  /** The lines before the first row that does not parse. */
  function Lines(rows: seq<Row>): seq<Entry> {
    if rows == [] || rows[0].Malformed? then [] else [rows[0].entry] + Lines(rows[1..])
  }

  predicate Parses(rows: seq<Row>) {
    forall i :: 0 <= i < |rows| ==> rows[i].Line?
  }

  /** The running maximum of the timestamps, started at the zero time. */
  function Latest(lines: seq<Entry>): int {
    if lines == [] then ZERO_TIME
    else
      var n := |lines| - 1;
      var before := Latest(lines[..n]);
      if lines[n].ts > before then lines[n].ts else before
  }

  /** Every timestamp lies after the zero time, so the running maximum really is an entry's. */
  lemma {:induction false} LatestAt(lines: seq<Entry>) returns (k: nat)
    requires lines != []
    ensures k < |lines| && lines[k].ts == Latest(lines)
    ensures forall i :: 0 <= i < |lines| ==> lines[i].ts <= Latest(lines)
  {
    var n := |lines| - 1;
    k := n;
    if n > 0 {
      var k' := LatestAt(lines[..n]);
      assert forall i :: 0 <= i < n ==> lines[i] == lines[..n][i];
      if lines[k'].ts >= lines[n].ts {
        k := k';
      }
    }
  }

  lemma LatestIsMax(lines: seq<Entry>) returns (last: Entry)
    requires lines != []
    ensures last in lines && last.ts == Latest(lines)
    ensures forall x :: x in lines ==> x.ts <= last.ts
  {
    var k := LatestAt(lines);
    last := lines[k];
  }

  lemma {:induction false} LinesOfParsed(rows: seq<Row>, rest: seq<Row>)
    requires Parses(rows)
    ensures Lines(rows + rest) == Lines(rows) + Lines(rest)
    ensures |Lines(rows)| == |rows|
  {
    if rows == [] {
      assert rows + rest == rest;
    } else {
      assert (rows + rest)[1..] == rows[1..] + rest;
      LinesOfParsed(rows[1..], rest);
    }
  }

  lemma {:induction false} FlattenSplit(a: seq<seq<Row>>, b: seq<seq<Row>>)
    ensures Flatten(a + b) == Flatten(a) + Flatten(b)
  {
    if a == [] {
      assert a + b == b;
    } else {
      assert (a + b)[1..] == a[1..] + b;
      FlattenSplit(a[1..], b);
    }
  }

  /** The rows a response delivers before value j of stream i. */
  ghost function RowsBefore(streams: seq<seq<Row>>, i: nat, j: nat): seq<Row>
    requires i < |streams| && j <= |streams[i]|
  {
    Flatten(streams[..i]) + streams[i][..j]
  }

  lemma RowAt(streams: seq<seq<Row>>, i: nat, j: nat) returns (rest: seq<Row>)
    requires i < |streams| && j < |streams[i]|
    ensures Flatten(streams) == RowsBefore(streams, i, j) + ([streams[i][j]] + rest)
    ensures RowsBefore(streams, i, j + 1) == RowsBefore(streams, i, j) + [streams[i][j]]
  {
    var values := streams[i];
    rest := values[j + 1..] + Flatten(streams[i + 1..]);
    FlattenSplit(streams[..i], streams[i..]);
    assert streams == streams[..i] + streams[i..] && streams[i..][1..] == streams[i + 1..];
    assert values == values[..j] + ([values[j]] + values[j + 1..]);
  }

  lemma StreamDone(streams: seq<seq<Row>>, i: nat)
    requires i < |streams|
    ensures RowsBefore(streams, i, 0) == Flatten(streams[..i])
    ensures RowsBefore(streams, i, |streams[i]|) == Flatten(streams[..i + 1])
  {
    assert streams[..i + 1] == streams[..i] + [streams[i]];
    FlattenSplit(streams[..i], [streams[i]]);
    assert Flatten([streams[i]]) == streams[i] + [];
    assert streams[i][..|streams[i]|] == streams[i];
  }

  lemma OneMoreRow(done: seq<Row>, row: Row, rest: seq<Row>)
    requires Parses(done)
    ensures row.Malformed? ==> Lines(done + ([row] + rest)) == Lines(done) && !Parses(done + ([row] + rest))
    ensures row.Line? ==> Parses(done + [row]) && Lines(done + [row]) == Lines(done) + [row.entry]
  {
    LinesOfParsed(done, [row] + rest);
    LinesOfParsed(done, [row]);
    assert Lines([row]) == if row.Malformed? then [] else [row.entry] + Lines([row][1..]);
    assert (done + ([row] + rest))[|done|] == row;
  }

  lemma LatestSnoc(lines: seq<Entry>, x: Entry)
    ensures Latest(lines + [x]) == if x.ts > Latest(lines) then x.ts else Latest(lines)
  {
    assert (lines + [x])[..|lines|] == lines;
  }

  /** How many rows the first i streams have together. */
  function RowsIn(streams: seq<seq<Row>>, i: nat): nat
    requires i <= |streams|
  {
    if i == 0 then 0 else |streams[0]| + RowsIn(streams[1..], i - 1)
  }

  lemma {:induction false} AsManyAsRows(streams: seq<seq<Row>>)
    ensures |Flatten(streams)| == RowsIn(streams, |streams|)
  {
    if streams != [] {
      AsManyAsRows(streams[1..]);
    }
  }

  /** Row j of stream i is at its place, stream after stream. */
  lemma {:induction false} EveryRowIsThere(streams: seq<seq<Row>>, i: nat, j: nat)
    requires i < |streams| && j < |streams[i]|
    ensures RowsIn(streams, i) + j < |Flatten(streams)|
    ensures Flatten(streams)[RowsIn(streams, i) + j] == streams[i][j]
  {
    if i > 0 {
      EveryRowIsThere(streams[1..], i - 1, j);
    }
  }

  /** Nothing but the rows of the streams is there. */
  lemma {:induction false} NothingElseIsThere(streams: seq<seq<Row>>, m: nat) returns (i: nat, j: nat)
    requires m < |Flatten(streams)|
    ensures i < |streams| && j < |streams[i]| && m == RowsIn(streams, i) + j
  {
    if m < |streams[0]| {
      i, j := 0, m;
    } else {
      i, j := NothingElseIsThere(streams[1..], m - |streams[0]|);
      i := i + 1;
    }
  }

  /** The first n rows parse. */
  ghost predicate ParsesUpTo(rows: seq<Row>, n: nat) {
    n <= |rows| && forall m :: 0 <= m < n ==> rows[m].Line?
  }

  /** Every row before the first that does not parse is emitted at its place, and nothing behind it. */
  lemma {:induction false} EveryLineIsEmitted(rows: seq<Row>, n: nat)
    requires ParsesUpTo(rows, n)
    ensures n <= |Lines(rows)| && forall m :: 0 <= m < n ==> Lines(rows)[m] == rows[m].entry
    ensures n == |rows| || rows[n].Malformed? ==> |Lines(rows)| == n
    decreases n
  {
    if n > 0 {
      EveryLineIsEmitted(rows[1..], n - 1);
      forall m | 0 <= m < n ensures Lines(rows)[m] == rows[m].entry {
        assert m > 0 ==> Lines(rows)[m] == Lines(rows[1..])[m - 1];
      }
    }
  }

  /** An answer whose rows are all lines. */
  ghost predicate Sane(reply: Reply) {
    reply.Streams? && forall i, j :: 0 <= i < |reply.streams| && 0 <= j < |reply.streams[i]| ==> reply.streams[i][j].Line?
  }

  lemma SaneParses(streams: seq<seq<Row>>)
    ensures Sane(Streams(streams)) <==> Parses(Flatten(streams))
  {
    if Sane(Streams(streams)) {
      forall m | 0 <= m < |Flatten(streams)| ensures Flatten(streams)[m].Line? {
        var i, j := NothingElseIsThere(streams, m);
        EveryRowIsThere(streams, i, j);
      }
    }
    if Parses(Flatten(streams)) {
      forall i, j | 0 <= i < |streams| && 0 <= j < |streams[i]| ensures streams[i][j].Line? {
        EveryRowIsThere(streams, i, j);
      }
    }
  }

  /** Emits the lines of a response in order, up to the first that does not parse. */
  method WriteResponse(streams: seq<seq<Row>>) returns (emitted: seq<Entry>, latest: int, count: nat, ok: bool)
    ensures emitted == Lines(Flatten(streams))
    ensures ok <==> Parses(Flatten(streams))
    ensures ok ==> count == |emitted| && latest == Latest(emitted)
  {
    emitted, latest, count := [], ZERO_TIME, 0;
    for i := 0 to |streams|
      invariant Parses(Flatten(streams[..i]))
      invariant emitted == Lines(Flatten(streams[..i]))
      invariant count == |emitted| && latest == Latest(emitted)
    {
      StreamDone(streams, i);
      for j := 0 to |streams[i]|
        invariant Parses(RowsBefore(streams, i, j))
        invariant emitted == Lines(RowsBefore(streams, i, j))
        invariant count == |emitted| && latest == Latest(emitted)
      {
        var row := streams[i][j];
        ghost var rest := RowAt(streams, i, j);
        OneMoreRow(RowsBefore(streams, i, j), row, rest);
        if row.Malformed? {
          return emitted, ZERO_TIME, 0, false;
        }
        LatestSnoc(emitted, row.entry);
        emitted := emitted + [row.entry];
        if row.entry.ts > latest {
          latest := row.entry.ts;
        }
        count := count + 1;
      }
    }
    assert streams[..|streams|] == streams;
    ok := true;
  }

  // ---------- what a server may answer ----------

  ghost predicate InWindow(x: Entry, s: int, e: int) {
    s <= x.ts < e
  }

  /** Distinct stored entries of the window, no more than asked for. */
  ghost predicate Sound(store: set<Entry>, limit: nat, s: int, e: int, lines: seq<Entry>) {
    && Distinct(lines)
    && |lines| <= limit
    && forall x :: x in lines ==> x in store && InWindow(x, s, e)
  }

  /** A sound answer that left something out only because the limit was reached, and then the latest. */
  ghost predicate Earliest(store: set<Entry>, limit: nat, s: int, e: int, lines: seq<Entry>) {
    && Sound(store, limit, s, e, lines)
    && (|lines| < limit ==> forall y :: y in store && InWindow(y, s, e) ==> y in lines)
    && (forall x, y :: x in lines && y in store && InWindow(y, s, e) && y !in lines ==> x.ts <= y.ts)
  }

  ghost predicate GoodReply(store: set<Entry>, limit: nat, s: int, e: int, reply: Reply) {
    reply.Streams? ==>
      var rows := Flatten(reply.streams);
      if Parses(rows) then Earliest(store, limit, s, e, Lines(rows)) else Sound(store, limit, s, e, Lines(rows))
  }

  ghost predicate GoodServer(store: set<Entry>, limit: nat, server: Server) {
    forall k: nat, s, e {:trigger GoodReply(store, limit, s, e, server(k, s, e))} ::
      GoodReply(store, limit, s, e, server(k, s, e))
  }

  ghost predicate NeverFails(server: Server) {
    forall k: nat, s, e :: Sane(server(k, s, e))
  }

  // ---------- one round of the loop ----------

  function WindowEnd(s: int, end: int, window: int): int {
    if s + window < end then s + window else end
  }

  datatype Outcome = Finished | Aborted | Continue(next: int)

  predicate Succeeds(reply: Reply) {
    reply.Streams? && Parses(Flatten(reply.streams))
  }

  function EmittedBy(reply: Reply): seq<Entry> {
    if reply.Failed? then [] else Lines(Flatten(reply.streams))
  }

  /** What the loop does with the answer to the request that starts at s. */
  function Advance(cfg: Config, s: int, reply: Reply): Outcome {
    if !Succeeds(reply) then Aborted
    else
      var lines := EmittedBy(reply);
      if |lines| != cfg.limit then
        var e := WindowEnd(s, cfg.end, cfg.window);
        if e == cfg.end then Finished else Continue(e)
      else
        var latest := Latest(lines);
        Continue(if latest == s then latest + 1 else latest)
  }

  function RequestFor(cfg: Config, s: int, reply: Reply): Request {
    var lines := EmittedBy(reply);
    Request(s, WindowEnd(s, cfg.end, cfg.window), |lines| == cfg.limit, Latest(lines))
  }

  /** The loop can be left from a round that starts at s. */
  predicate CanEnd(cfg: Config, s: int) {
    cfg.limit > 0 && (cfg.window > 0 || s + cfg.window >= cfg.end)
  }

  /** Requests start strictly later and later, and never after the end. */
  lemma StartsIncrease(store: set<Entry>, cfg: Config, s: int, reply: Reply)
    requires CanEnd(cfg, s)
    requires GoodReply(store, cfg.limit, s, WindowEnd(s, cfg.end, cfg.window), reply)
    ensures var o := Advance(cfg, s, reply); o.Continue? ==> s < o.next <= cfg.end && CanEnd(cfg, o.next)
  {
    if Advance(cfg, s, reply).Continue? {
      var lines := EmittedBy(reply);
      if |lines| == cfg.limit {
        var last := LatestIsMax(lines);
      }
    }
  }

  // ---------- whole runs ----------

  /** `reached`: everything before it has been dealt with. */
  datatype Run = Run(requests: seq<Request>, emitted: seq<Entry>, ok: bool, reached: int)

  /** The run that first did `requests` and `emitted` and then goes on like `rest`. */
  ghost function After(requests: seq<Request>, emitted: seq<Entry>, rest: Run): Run {
    rest.(requests := requests + rest.requests, emitted := emitted + rest.emitted)
  }

  lemma AfterAfter(a: seq<Request>, b: seq<Entry>, c: seq<Request>, d: seq<Entry>, rest: Run)
    ensures After(a, b, After(c, d, rest)) == After(a + c, b + d, rest)
  {
    assert a + (c + rest.requests) == a + c + rest.requests;
    assert b + (d + rest.emitted) == b + d + rest.emitted;
  }

  ghost function RunFrom(store: set<Entry>, cfg: Config, server: Server, k: nat, s: int): Run
    requires CanEnd(cfg, s) && GoodServer(store, cfg.limit, server)
    decreases if s < cfg.end then cfg.end - s else 0
  {
    var reply := server(k, s, WindowEnd(s, cfg.end, cfg.window));
    var request := RequestFor(cfg, s, reply);
    StartsIncrease(store, cfg, s, reply);
    match Advance(cfg, s, reply)
    case Finished => Run([request], EmittedBy(reply), true, cfg.end)
    case Aborted => Run([request], EmittedBy(reply), false, s)
    case Continue(next) =>
      After([request], EmittedBy(reply), RunFrom(store, cfg, server, k + 1, next))
  }

  /** The loop stands before a request that starts at s, having done what `run` begins with. */
  ghost predicate Underway(run: Run, store: set<Entry>, cfg: Config, server: Server,
                           requests: seq<Request>, emitted: seq<Entry>, s: int)
    requires GoodServer(store, cfg.limit, server)
  {
    CanEnd(cfg, s) && run == After(requests, emitted, RunFrom(store, cfg, server, |requests|, s))
  }

  lemma OneMoreRound(run: Run, store: set<Entry>, cfg: Config, server: Server,
                     requests: seq<Request>, emitted: seq<Entry>, s: int)
    requires GoodServer(store, cfg.limit, server) && Underway(run, store, cfg, server, requests, emitted, s)
    ensures var reply := server(|requests|, s, WindowEnd(s, cfg.end, cfg.window));
            var requests', emitted' := requests + [RequestFor(cfg, s, reply)], emitted + EmittedBy(reply);
            match Advance(cfg, s, reply)
            case Finished => run == Run(requests', emitted', true, cfg.end)
            case Aborted => run == Run(requests', emitted', false, s)
            case Continue(next) => s < next <= cfg.end && Underway(run, store, cfg, server, requests', emitted', next)
  {
    var reply := server(|requests|, s, WindowEnd(s, cfg.end, cfg.window));
    StartsIncrease(store, cfg, s, reply);
    if Advance(cfg, s, reply).Continue? {
      AfterAfter(requests, emitted, [RequestFor(cfg, s, reply)], EmittedBy(reply),
                 RunFrom(store, cfg, server, |requests| + 1, Advance(cfg, s, reply).next));
    }
  }

  /** One pass of the loop body: sends the lines of an answer on and decides where to go. */
  method Round(cfg: Config, reqStartTime: int, reqEndTime: int, reply: Reply)
    returns (lines: seq<Entry>, outcome: Outcome)
    requires reqEndTime == WindowEnd(reqStartTime, cfg.end, cfg.window)
    ensures lines == EmittedBy(reply)
    ensures outcome == Advance(cfg, reqStartTime, reply)
  {
    if reply.Failed? {
      return [], Aborted;
    }
    var latestTimestamp, logLineCount, ok;
    lines, latestTimestamp, logLineCount, ok := WriteResponse(reply.streams);
    if !ok {
      return lines, Aborted;
    }
    if reqEndTime == cfg.end && logLineCount != cfg.limit {
      return lines, Finished;
    }
    if logLineCount != cfg.limit {
      return lines, Continue(reqEndTime);
    }
    if latestTimestamp == reqStartTime {
      latestTimestamp := latestTimestamp + 1;
    }
    outcome := Continue(latestTimestamp);
  }

  method FindLogs(cfg: Config, server: Server, ghost store: set<Entry>)
    returns (emitted: seq<Entry>, requests: seq<Request>, ok: bool)
    requires CanEnd(cfg, cfg.start)
    requires GoodServer(store, cfg.limit, server)
    ensures var run := RunFrom(store, cfg, server, 0, cfg.start);
            emitted == run.emitted && requests == run.requests && ok == run.ok
  {
    ghost var run := RunFrom(store, cfg, server, 0, cfg.start);
    emitted, requests := [], [];
    var reqStartTime;
    var reqEndTime := cfg.start;
    while true
      invariant Underway(run, store, cfg, server, requests, emitted, reqEndTime)
      decreases if reqEndTime < cfg.end then cfg.end - reqEndTime else 0
    {
      reqStartTime, reqEndTime := reqEndTime, WindowEnd(reqEndTime, cfg.end, cfg.window);
      var reply := server(|requests|, reqStartTime, reqEndTime);
      var lines, outcome := Round(cfg, reqStartTime, reqEndTime, reply);
      OneMoreRound(run, store, cfg, server, requests, emitted, reqStartTime);
      requests, emitted := requests + [RequestFor(cfg, reqStartTime, reply)], emitted + lines;
      match outcome
      case Aborted => return emitted, requests, false;
      case Finished => return emitted, requests, true;
      case Continue(next) => reqEndTime := next;
    }
  }

  // ---------- the run, request by request ----------

  lemma LaterRequests(store: set<Entry>, cfg: Config, server: Server, k: nat, s: int) returns (next: int)
    requires CanEnd(cfg, s) && GoodServer(store, cfg.limit, server)
    requires |RunFrom(store, cfg, server, k, s).requests| > 1
    ensures s < next <= cfg.end && CanEnd(cfg, next)
    ensures var reply := server(k, s, WindowEnd(s, cfg.end, cfg.window));
            && Advance(cfg, s, reply) == Continue(next)
            && RunFrom(store, cfg, server, k, s)
            == After([RequestFor(cfg, s, reply)], EmittedBy(reply), RunFrom(store, cfg, server, k + 1, next))
  {
    var reply := server(k, s, WindowEnd(s, cfg.end, cfg.window));
    StartsIncrease(store, cfg, s, reply);
    next := Advance(cfg, s, reply).next;
  }

  /** What one answer brings the loop to. */
  lemma RoundMeaning(store: set<Entry>, cfg: Config, s: int, reply: Reply)
    requires CanEnd(cfg, s) && GoodReply(store, cfg.limit, s, WindowEnd(s, cfg.end, cfg.window), reply)
    ensures var o, r := Advance(cfg, s, reply), RequestFor(cfg, s, reply);
            && r.start == s && r.end == (if s + cfg.window < cfg.end then s + cfg.window else cfg.end)
            && (o.Aborted? <==> !Sane(reply))
            && (o.Finished? <==> Sane(reply) && r.end == cfg.end && |EmittedBy(reply)| != cfg.limit)
            && (o.Continue? && |EmittedBy(reply)| != cfg.limit ==> o.next == r.end)
            && (o.Continue? && |EmittedBy(reply)| == cfg.limit ==>
                  GoesBehindLatest(EmittedBy(reply), s, o.next))
  {
    if reply.Streams? {
      SaneParses(reply.streams);
    }
    if Advance(cfg, s, reply).Continue? && |EmittedBy(reply)| == cfg.limit {
      var x := LatestIsMax(EmittedBy(reply));
      assert IsLatest(EmittedBy(reply), x);
    }
  }

  ghost predicate IsLatest(lines: seq<Entry>, x: Entry) {
    x in lines && forall y :: y in lines ==> y.ts <= x.ts
  }

  /** The loop goes on at the timestamp of the latest line, or one nanosecond later if that is where it started. */
  ghost predicate GoesBehindLatest(lines: seq<Entry>, s: int, next: int) {
    exists x :: IsLatest(lines, x) && next == if x.ts == s then s + 1 else x.ts
  }

  /**
    Request i of a run: which window it asks for, whether it is the last, and where the next one starts;
    the run succeeds exactly if the last one is answered without a failure or a row that does not parse.
   */
  ghost predicate RequestFits(cfg: Config, server: Server, k: nat, run: Run, i: nat)
    requires i < |run.requests|
  {
    var r := run.requests[i];
    var reply := server(k + i, r.start, r.end);
    && r.end == (if r.start + cfg.window < cfg.end then r.start + cfg.window else cfg.end)
    && if !Sane(reply) || (r.end == cfg.end && |EmittedBy(reply)| != cfg.limit) then
         i + 1 == |run.requests| && (run.ok <==> Sane(reply))
       else
         && i + 1 < |run.requests|
         && if |EmittedBy(reply)| != cfg.limit then run.requests[i + 1].start == r.end
            else GoesBehindLatest(EmittedBy(reply), r.start, run.requests[i + 1].start)
  }

  lemma FirstRequestFits(store: set<Entry>, cfg: Config, server: Server, k: nat, s: int)
    requires CanEnd(cfg, s) && GoodServer(store, cfg.limit, server)
    ensures var run := RunFrom(store, cfg, server, k, s);
            run.requests != [] && run.requests[0].start == s && RequestFits(cfg, server, k, run, 0)
  {
    RoundMeaning(store, cfg, s, server(k, s, WindowEnd(s, cfg.end, cfg.window)));
    if |RunFrom(store, cfg, server, k, s).requests| > 1 {
      var next := LaterRequests(store, cfg, server, k, s);
    }
  }

  /** All of it holds for every request of every run. */
  lemma {:induction false} RequestByRequest(store: set<Entry>, cfg: Config, server: Server, k: nat, s: int, i: nat)
    requires CanEnd(cfg, s) && GoodServer(store, cfg.limit, server)
    requires i < |RunFrom(store, cfg, server, k, s).requests|
    ensures RunFrom(store, cfg, server, k, s).requests[0].start == s
    ensures RequestFits(cfg, server, k, RunFrom(store, cfg, server, k, s), i)
    decreases if s < cfg.end then cfg.end - s else 0
  {
    FirstRequestFits(store, cfg, server, k, s);
    if i > 0 {
      var next := LaterRequests(store, cfg, server, k, s);
      var reply := server(k, s, WindowEnd(s, cfg.end, cfg.window));
      RequestByRequest(store, cfg, server, k + 1, next, i - 1);
      FitsBehindAnother(cfg, server, k, RequestFor(cfg, s, reply), EmittedBy(reply),
                        RunFrom(store, cfg, server, k + 1, next), i);
    }
  }

  lemma FitsBehindAnother(cfg: Config, server: Server, k: nat, first: Request, lines: seq<Entry>, rest: Run, i: nat)
    requires 0 < i <= |rest.requests| && RequestFits(cfg, server, k + 1, rest, i - 1)
    ensures RequestFits(cfg, server, k, After([first], lines, rest), i)
  {
    var run := After([first], lines, rest);
    assert run.requests[i] == rest.requests[i - 1] && k + i == k + 1 + (i - 1);
    assert i + 1 < |run.requests| ==> run.requests[i + 1] == rest.requests[i];
  }

  /** An answer brings every row before its first malformed one, also if there is such a row; a failure brings nothing. */
  lemma AnswerBrings(reply: Reply, n: nat)
    ensures reply.Failed? ==> EmittedBy(reply) == []
    ensures reply.Streams? && ParsesUpTo(Flatten(reply.streams), n) ==>
              n <= |EmittedBy(reply)| && forall m :: 0 <= m < n ==> EmittedBy(reply)[m] == Flatten(reply.streams)[m].entry
    ensures reply.Streams? && n < |Flatten(reply.streams)| && Flatten(reply.streams)[n].Malformed? ==> |EmittedBy(reply)| <= n
  {
    if reply.Streams? {
      var rows := Flatten(reply.streams);
      if ParsesUpTo(rows, n) {
        EveryLineIsEmitted(rows, n);
      }
      if n < |rows| && rows[n].Malformed? {
        StopsAtMalformed(rows, n);
      }
    }
  }

  lemma {:induction false} StopsAtMalformed(rows: seq<Row>, n: nat)
    requires n < |rows| && rows[n].Malformed?
    ensures |Lines(rows)| <= n
    decreases n
  {
    if n > 0 {
      StopsAtMalformed(rows[1..], n - 1);
    }
  }

  /** What the answers to these requests bring together; the first one is request number k. */
  ghost function Gathered(server: Server, k: nat, requests: seq<Request>): seq<Entry>
    decreases |requests|
  {
    if requests == [] then []
    else EmittedBy(server(k, requests[0].start, requests[0].end)) + Gathered(server, k + 1, requests[1..])
  }

  ghost predicate AllSane(server: Server, k: nat, requests: seq<Request>)
    decreases |requests|
  {
    requests == [] || (Sane(server(k, requests[0].start, requests[0].end)) && AllSane(server, k + 1, requests[1..]))
  }

  /** The run emits what its answers bring, in order, and succeeds exactly if all of them are sane. */
  lemma {:induction false} RunGathers(store: set<Entry>, cfg: Config, server: Server, k: nat, s: int)
    requires CanEnd(cfg, s) && GoodServer(store, cfg.limit, server)
    ensures var run := RunFrom(store, cfg, server, k, s);
            && run.emitted == Gathered(server, k, run.requests)
            && (run.ok <==> AllSane(server, k, run.requests))
    decreases if s < cfg.end then cfg.end - s else 0
  {
    var run := RunFrom(store, cfg, server, k, s);
    RoundMeaning(store, cfg, s, server(k, s, WindowEnd(s, cfg.end, cfg.window)));
    if |run.requests| > 1 {
      var next := LaterRequests(store, cfg, server, k, s);
      RunGathers(store, cfg, server, k + 1, next);
      assert run.requests[1..] == RunFrom(store, cfg, server, k + 1, next).requests;
    } else {
      assert run.requests[1..] == [] && run.emitted + [] == run.emitted;
    }
  }

  lemma {:induction false} NeverFailingIsSane(server: Server, k: nat, requests: seq<Request>)
    requires NeverFails(server)
    ensures AllSane(server, k, requests)
    decreases |requests|
  {
    if requests != [] {
      NeverFailingIsSane(server, k + 1, requests[1..]);
    }
  }

  /** Against a server that never fails every run that ends succeeds, also if windows are empty. */
  lemma AnsweredRunSucceeds(store: set<Entry>, cfg: Config, server: Server)
    requires CanEnd(cfg, cfg.start) && GoodServer(store, cfg.limit, server) && NeverFails(server)
    ensures RunFrom(store, cfg, server, 0, cfg.start).ok
  {
    RunGathers(store, cfg, server, 0, cfg.start);
    NeverFailingIsSane(server, 0, RunFrom(store, cfg, server, 0, cfg.start).requests);
  }

  // ---------- nothing foreign ----------

  lemma {:induction false} EmitsOnlyTheRange(store: set<Entry>, cfg: Config, server: Server, k: nat, s: int)
    requires CanEnd(cfg, s) && GoodServer(store, cfg.limit, server)
    ensures forall x :: x in RunFrom(store, cfg, server, k, s).emitted ==> x in store && InWindow(x, s, cfg.end)
    decreases if s < cfg.end then cfg.end - s else 0
  {
    var reply := server(k, s, WindowEnd(s, cfg.end, cfg.window));
    StartsIncrease(store, cfg, s, reply);
    if Advance(cfg, s, reply).Continue? {
      EmitsOnlyTheRange(store, cfg, server, k + 1, Advance(cfg, s, reply).next);
    }
  }

  // ---------- completeness ----------

  ghost function At(store: set<Entry>, t: int): set<Entry> {
    set x | x in store && x.ts == t
  }

  ghost function EmittedAt(lines: seq<Entry>, t: int): set<Entry> {
    set x | x in lines && x.ts == t
  }

  function Min(a: nat, b: nat): nat {
    if a <= b then a else b
  }

  ghost predicate Covered(store: set<Entry>, limit: nat, lines: seq<Entry>, t: int) {
    |EmittedAt(lines, t)| >= Min(|At(store, t)|, limit)
  }

  lemma CoveredByAll(store: set<Entry>, limit: nat, lines: seq<Entry>, t: int)
    requires forall y :: y in store && y.ts == t ==> y in lines
    ensures Covered(store, limit, lines, t)
  {
    SubsetIsNoLarger(At(store, t), EmittedAt(lines, t));
  }

  lemma CoveredInMore(store: set<Entry>, limit: nat, a: seq<Entry>, b: seq<Entry>, t: int)
    ensures Covered(store, limit, a, t) ==> Covered(store, limit, a + b, t)
    ensures Covered(store, limit, b, t) ==> Covered(store, limit, a + b, t)
  {
    SubsetIsNoLarger(EmittedAt(a, t), EmittedAt(a + b, t));
    SubsetIsNoLarger(EmittedAt(b, t), EmittedAt(a + b, t));
  }

  /** One answered request covers every instant the loop then leaves behind. */
  lemma RequestCovers(store: set<Entry>, cfg: Config, s: int, reply: Reply, t: int)
    requires CanEnd(cfg, s)
    requires GoodReply(store, cfg.limit, s, WindowEnd(s, cfg.end, cfg.window), reply)
    requires var o := Advance(cfg, s, reply); s <= t && ((o.Finished? && t < cfg.end) || (o.Continue? && t < o.next))
    ensures Covered(store, cfg.limit, EmittedBy(reply), t)
  {
    var lines := EmittedBy(reply);
    if |lines| != cfg.limit {
      CoveredByAll(store, cfg.limit, lines, t);
    } else {
      var last := LatestIsMax(lines);
      if Latest(lines) == s {
        DistinctSize(lines);
        assert EmittedAt(lines, t) == Elements(lines);
      } else {
        CoveredByAll(store, cfg.limit, lines, t);
      }
    }
  }

  /**
    Completeness: every instant the run got past carries at least min(n, limit)
    of its n stored entries in the output.  A run without error gets past all of
    them, a run with an error past everything before the failed request.
   */
  lemma {:induction false} Completeness(store: set<Entry>, cfg: Config, server: Server, k: nat, s: int, t: int)
    requires CanEnd(cfg, s) && GoodServer(store, cfg.limit, server)
    requires s <= t < RunFrom(store, cfg, server, k, s).reached
    ensures Covered(store, cfg.limit, RunFrom(store, cfg, server, k, s).emitted, t)
    decreases if s < cfg.end then cfg.end - s else 0
  {
    var reply := server(k, s, WindowEnd(s, cfg.end, cfg.window));
    StartsIncrease(store, cfg, s, reply);
    match Advance(cfg, s, reply)
    case Aborted =>
    case Finished =>
      RequestCovers(store, cfg, s, reply, t);
    case Continue(next) =>
      var rest := RunFrom(store, cfg, server, k + 1, next);
      CoveredInMore(store, cfg.limit, EmittedBy(reply), rest.emitted, t);
      if t < next {
        RequestCovers(store, cfg, s, reply, t);
      } else {
        Completeness(store, cfg, server, k + 1, next, t);
      }
  }

  lemma {:induction false} OkReachesEnd(store: set<Entry>, cfg: Config, server: Server, k: nat, s: int)
    requires CanEnd(cfg, s) && GoodServer(store, cfg.limit, server)
    ensures RunFrom(store, cfg, server, k, s).ok ==> RunFrom(store, cfg, server, k, s).reached == cfg.end
    decreases if s < cfg.end then cfg.end - s else 0
  {
    var reply := server(k, s, WindowEnd(s, cfg.end, cfg.window));
    StartsIncrease(store, cfg, s, reply);
    if Advance(cfg, s, reply).Continue? {
      OkReachesEnd(store, cfg, server, k + 1, Advance(cfg, s, reply).next);
    }
  }

  // ---------- exactly when nothing is lost ----------

  /** No nanosecond of the range carries more entries than one response can hold. */
  ghost predicate Uncrowded(store: set<Entry>, cfg: Config) {
    forall t :: cfg.start <= t < cfg.end ==> |At(store, t)| <= cfg.limit
  }

  /** In an uncrowded range a run without error emits every stored entry, whatever the server's choices. */
  lemma NothingLostWhenUncrowded(store: set<Entry>, cfg: Config, server: Server, x: Entry)
    requires CanEnd(cfg, cfg.start) && GoodServer(store, cfg.limit, server)
    requires Uncrowded(store, cfg)
    requires RunFrom(store, cfg, server, 0, cfg.start).ok
    requires x in store && InWindow(x, cfg.start, cfg.end)
    ensures x in RunFrom(store, cfg, server, 0, cfg.start).emitted
  {
    var emitted := RunFrom(store, cfg, server, 0, cfg.start).emitted;
    OkReachesEnd(store, cfg, server, 0, cfg.start);
    Completeness(store, cfg, server, 0, cfg.start, x.ts);
    EmitsOnlyTheRange(store, cfg, server, 0, cfg.start);
    EqualSizedSubset(EmittedAt(emitted, x.ts), At(store, x.ts));
    assert x in At(store, x.ts);
  }

  ghost predicate IsOldest(x: Entry, pool: set<Entry>) {
    x in pool && forall y :: y in pool ==> x.ts <= y.ts
  }

  lemma {:induction false} OldestExists(pool: set<Entry>)
    requires pool != {}
    ensures exists x :: IsOldest(x, pool)
  {
    var z :| z in pool;
    if pool == {z} {
      assert IsOldest(z, pool);
    } else {
      OldestExists(pool - {z});
      var w :| IsOldest(w, pool - {z});
      assert IsOldest(if z.ts <= w.ts then z else w, pool);
    }
  }

  /** The n oldest entries of a pool, oldest first. */
  ghost function FirstN(pool: set<Entry>, n: nat): seq<Entry> {
    if n == 0 || pool == {} then []
    else
      OldestExists(pool);
      var x :| IsOldest(x, pool);
      [x] + FirstN(pool - {x}, n - 1)
  }

  lemma {:induction false} FirstNIsOldest(pool: set<Entry>, n: nat)
    ensures var r := FirstN(pool, n);
            && Distinct(r) && |r| == Min(n, |pool|)
            && (forall x :: x in r ==> x in pool)
            && (forall x, y :: x in r && y in pool && y !in r ==> x.ts <= y.ts)
  {
    if n > 0 && pool != {} {
      var r := FirstN(pool, n);
      FirstNIsOldest(pool - {r[0]}, n - 1);
      assert r == [r[0]] + FirstN(pool - {r[0]}, n - 1);
    }
  }

  ghost function AsRows(lines: seq<Entry>): seq<Row> {
    seq(|lines|, i requires 0 <= i < |lines| => Line(lines[i]))
  }

  lemma {:induction false} LinesOfRows(lines: seq<Entry>)
    ensures Lines(AsRows(lines)) == lines && Parses(AsRows(lines))
  {
    if lines != [] {
      assert AsRows(lines)[1..] == AsRows(lines[1..]);
      LinesOfRows(lines[1..]);
    }
  }

  ghost function Window(store: set<Entry>, s: int, e: int): set<Entry> {
    set x | x in store && InWindow(x, s, e)
  }

  /** A server that breaks ties against one entry. */
  ghost function Grudging(store: set<Entry>, limit: nat, victim: Entry): Server {
    (k: nat, s: int, e: int) => Streams([AsRows(FirstN(Window(store - {victim}, s, e), limit))])
  }

  /** When the victim is in the window its peers alone fill the answer, so nothing younger gets in. */
  lemma PeersFillTheAnswer(store: set<Entry>, limit: nat, victim: Entry, s: int, e: int)
    requires victim in store && |At(store, victim.ts)| > limit && InWindow(victim, s, e)
    ensures var lines := FirstN(Window(store - {victim}, s, e), limit);
            |lines| == limit && forall x :: x in lines ==> x.ts <= victim.ts
  {
    var pool := Window(store - {victim}, s, e);
    var lines := FirstN(pool, limit);
    var peers := At(store, victim.ts) - {victim};
    FirstNIsOldest(pool, limit);
    DistinctSize(lines);
    SubsetIsNoLarger(peers, pool);
    if x :| x in lines && x.ts > victim.ts {
      // every peer is older than x and so is in the answer too: one entry too many
      SubsetIsNoLarger(peers + {x}, Elements(lines));
    }
  }

  lemma OldestOthersAreEarliest(store: set<Entry>, limit: nat, victim: Entry, s: int, e: int)
    requires victim in store && |At(store, victim.ts)| > limit
    ensures Earliest(store, limit, s, e, FirstN(Window(store - {victim}, s, e), limit))
  {
    var pool := Window(store - {victim}, s, e);
    var lines := FirstN(pool, limit);
    FirstNIsOldest(pool, limit);
    if InWindow(victim, s, e) {
      PeersFillTheAnswer(store, limit, victim, s, e);
    }
    if |lines| < limit {
      DistinctSize(lines);
      EqualSizedSubset(Elements(lines), pool);
    }
  }

  lemma GrudgingReply(store: set<Entry>, limit: nat, victim: Entry, k: nat, s: int, e: int)
    requires victim in store && |At(store, victim.ts)| > limit
    ensures var reply := Grudging(store, limit, victim)(k, s, e);
            GoodReply(store, limit, s, e, reply) && Succeeds(reply) && victim !in EmittedBy(reply)
  {
    var pool := Window(store - {victim}, s, e);
    var lines := FirstN(pool, limit);
    OldestOthersAreEarliest(store, limit, victim, s, e);
    LinesOfRows(lines);
    FirstNIsOldest(pool, limit);
    var reply := Grudging(store, limit, victim)(k, s, e);
    assert Flatten(reply.streams) == AsRows(lines) + [] == AsRows(lines);
  }

  lemma {:induction false} GrudgingRunMisses(store: set<Entry>, cfg: Config, victim: Entry, k: nat, s: int)
    requires victim in store && |At(store, victim.ts)| > cfg.limit
    requires CanEnd(cfg, s) && GoodServer(store, cfg.limit, Grudging(store, cfg.limit, victim))
    ensures var run := RunFrom(store, cfg, Grudging(store, cfg.limit, victim), k, s);
            run.ok && victim !in run.emitted
    decreases if s < cfg.end then cfg.end - s else 0
  {
    var server := Grudging(store, cfg.limit, victim);
    var reply := server(k, s, WindowEnd(s, cfg.end, cfg.window));
    GrudgingReply(store, cfg.limit, victim, k, s, WindowEnd(s, cfg.end, cfg.window));
    StartsIncrease(store, cfg, s, reply);
    if Advance(cfg, s, reply).Continue? {
      GrudgingRunMisses(store, cfg, victim, k + 1, Advance(cfg, s, reply).next);
    }
  }

  /**
    The converse of NothingLostWhenUncrowded: in a crowded range some conforming
    server lets a run end without error although a stored entry was never emitted.
   */
  lemma SomethingLostWhenCrowded(store: set<Entry>, cfg: Config) returns (server: Server, victim: Entry)
    requires CanEnd(cfg, cfg.start) && !Uncrowded(store, cfg)
    ensures GoodServer(store, cfg.limit, server) && NeverFails(server)
    ensures victim in store && InWindow(victim, cfg.start, cfg.end)
    ensures var run := RunFrom(store, cfg, server, 0, cfg.start); run.ok && victim !in run.emitted
  {
    var t :| cfg.start <= t < cfg.end && |At(store, t)| > cfg.limit;
    victim :| victim in At(store, t);
    server := Grudging(store, cfg.limit, victim);
    forall k: nat, s, e
      ensures var reply := server(k, s, e);
              GoodReply(store, cfg.limit, s, e, reply) && Succeeds(reply)
    {
      GrudgingReply(store, cfg.limit, victim, k, s, e);
    }
    forall k: nat, s, e ensures Sane(server(k, s, e)) {
      GrudgingReply(store, cfg.limit, victim, k, s, e);
      SaneParses(server(k, s, e).streams);
    }
    GrudgingRunMisses(store, cfg, victim, 0, cfg.start);
  }

  // ---------- bounded duplication ----------

  ghost function Copies(run: Run, x: Entry): nat {
    multiset(run.emitted)[x]
  }

  lemma EmittedOnce(store: set<Entry>, cfg: Config, s: int, reply: Reply, x: Entry)
    requires GoodReply(store, cfg.limit, s, WindowEnd(s, cfg.end, cfg.window), reply)
    ensures multiset(EmittedBy(reply))[x] == if x in EmittedBy(reply) then 1 else 0
    ensures x in EmittedBy(reply) ==> x in store && InWindow(x, s, WindowEnd(s, cfg.end, cfg.window))
  {
    DistinctCount(EmittedBy(reply), x);
  }

  /** Nothing from before a start is emitted after it, and an entry at the start at most once. */
  lemma {:induction false} CopiesFromStart(store: set<Entry>, cfg: Config, server: Server, k: nat, s: int, x: Entry)
    requires CanEnd(cfg, s) && GoodServer(store, cfg.limit, server)
    requires x.ts <= s
    ensures Copies(RunFrom(store, cfg, server, k, s), x) <= if x.ts == s then 1 else 0
    decreases if s < cfg.end then cfg.end - s else 0
  {
    var reply := server(k, s, WindowEnd(s, cfg.end, cfg.window));
    StartsIncrease(store, cfg, s, reply);
    EmittedOnce(store, cfg, s, reply, x);
    if Advance(cfg, s, reply).Continue? {
      CopiesFromStart(store, cfg, server, k + 1, Advance(cfg, s, reply).next, x);
    }
  }

  /** A request whose full response ended exactly at x, so that the next request starts there. */
  ghost predicate EndsAt(r: Request, x: Entry) {
    r.full && r.start < x.ts && r.latest == x.ts
  }

  ghost predicate SomeEndsAt(requests: seq<Request>, x: Entry) {
    exists r :: r in requests && EndsAt(r, x)
  }

  lemma CopiesAfter(r: Request, lines: seq<Entry>, rest: Run, x: Entry)
    ensures Copies(After([r], lines, rest), x) == multiset(lines)[x] + Copies(rest, x)
    ensures SomeEndsAt(rest.requests, x) || EndsAt(r, x) ==> SomeEndsAt(After([r], lines, rest).requests, x)
  {
    if EndsAt(r, x) {
      assert r in ([r] + rest.requests);
    } else if y :| y in rest.requests && EndsAt(y, x) {
      assert y in ([r] + rest.requests);
    }
  }

  /** The loop never goes on before an entry it just emitted, and goes on at it only if the response ended there. */
  lemma GoesOnPast(store: set<Entry>, cfg: Config, s: int, reply: Reply, x: Entry)
    requires CanEnd(cfg, s)
    requires GoodReply(store, cfg.limit, s, WindowEnd(s, cfg.end, cfg.window), reply)
    requires Advance(cfg, s, reply).Continue? && x in EmittedBy(reply)
    ensures var next := Advance(cfg, s, reply).next;
            x.ts <= next && (x.ts == next ==> EndsAt(RequestFor(cfg, s, reply), x))
  {
    var lines := EmittedBy(reply);
    if |lines| == cfg.limit {
      var last := LatestIsMax(lines);
    }
  }

  /** No entry is emitted more than twice, and only one at which a full response ended is emitted twice. */
  lemma {:induction false} AtMostTwice(store: set<Entry>, cfg: Config, server: Server, k: nat, s: int, x: Entry)
    requires CanEnd(cfg, s) && GoodServer(store, cfg.limit, server)
    ensures var run := RunFrom(store, cfg, server, k, s);
            Copies(run, x) <= 2 && (Copies(run, x) == 2 ==> SomeEndsAt(run.requests, x))
    decreases if s < cfg.end then cfg.end - s else 0
  {
    var reply := server(k, s, WindowEnd(s, cfg.end, cfg.window));
    StartsIncrease(store, cfg, s, reply);
    EmittedOnce(store, cfg, s, reply, x);
    if Advance(cfg, s, reply).Continue? {
      var next := Advance(cfg, s, reply).next;
      CopiesAfter(RequestFor(cfg, s, reply), EmittedBy(reply), RunFrom(store, cfg, server, k + 1, next), x);
      if x !in EmittedBy(reply) {
        AtMostTwice(store, cfg, server, k + 1, next, x);
      } else {
        GoesOnPast(store, cfg, s, reply, x);
        CopiesFromStart(store, cfg, server, k + 1, next, x);
      }
    }
  }

  // ---------- how many requests ----------

  /** The distinct timestamps the store carries in a range. */
  ghost function Stamps(store: set<Entry>, s: int, e: int): set<int> {
    set x | x in store && s <= x.ts < e :: x.ts as int
  }

  lemma StampsShrink(store: set<Entry>, s: int, next: int, e: int)
    requires s <= next
    ensures |Stamps(store, next, e)| <= |Stamps(store, s, e)|
    ensures s < next && s in Stamps(store, s, e) ==> |Stamps(store, next, e)| < |Stamps(store, s, e)|
  {
    SubsetIsNoLarger(Stamps(store, next, e), Stamps(store, s, e));
    if s < next && s in Stamps(store, s, e) {
      SubsetIsNoLarger(Stamps(store, next, e), Stamps(store, s, e) - {s});
    }
  }

  /** What a round from s may still cost: timestamps to jump to, timestamps to step off, and windows. */
  ghost function Jumps(store: set<Entry>, cfg: Config, s: int): nat {
    |Stamps(store, s + 1, cfg.end)| + |Stamps(store, s, cfg.end)|
  }

  lemma JumpsShrink(store: set<Entry>, cfg: Config, s: int, next: int)
    requires s < next
    ensures Jumps(store, cfg, next) <= Jumps(store, cfg, s)
    ensures s in Stamps(store, s, cfg.end) || next in Stamps(store, s + 1, cfg.end)
            ==> Jumps(store, cfg, next) < Jumps(store, cfg, s)
  {
    StampsShrink(store, s, next, cfg.end);
    StampsShrink(store, s + 1, next, cfg.end);
    StampsShrink(store, next, next + 1, cfg.end);
    if next in Stamps(store, s + 1, cfg.end) {
      assert next in Stamps(store, next, cfg.end);
    }
  }

  lemma RoundCost(store: set<Entry>, cfg: Config, s: int, reply: Reply)
    requires CanEnd(cfg, s)
    requires GoodReply(store, cfg.limit, s, WindowEnd(s, cfg.end, cfg.window), reply)
    requires Advance(cfg, s, reply).Continue?
    ensures var next := Advance(cfg, s, reply).next;
            || (next == s + cfg.window && Jumps(store, cfg, next) <= Jumps(store, cfg, s))
            || Jumps(store, cfg, next) < Jumps(store, cfg, s)
  {
    var next := Advance(cfg, s, reply).next;
    StartsIncrease(store, cfg, s, reply);
    JumpsShrink(store, cfg, s, next);
    if |EmittedBy(reply)| == cfg.limit {
      FullRoundMeetsStamp(store, cfg, s, reply);
    }
  }

  /** A full response either ended at its own start or at the stored timestamp the loop jumps to. */
  lemma FullRoundMeetsStamp(store: set<Entry>, cfg: Config, s: int, reply: Reply)
    requires CanEnd(cfg, s) && |EmittedBy(reply)| == cfg.limit
    requires GoodReply(store, cfg.limit, s, WindowEnd(s, cfg.end, cfg.window), reply)
    requires Advance(cfg, s, reply).Continue?
    ensures s in Stamps(store, s, cfg.end) || Advance(cfg, s, reply).next in Stamps(store, s + 1, cfg.end)
  {
    var lines := EmittedBy(reply);
    var last := LatestIsMax(lines);
    assert last in store && s <= last.ts < cfg.end;
  }

  lemma ChargeOne(m: int, n: int, w: nat, s: int, next: int, e: int)
    requires n * w <= e - next
    requires (m <= n + 1 && next == s + w) || (m <= n && s <= next)
    ensures m * w <= e - s
  {
    if m <= n {
      MulMonotone(m, n, w);
    } else {
      assert m * w == n * w + w;
    }
  }

  lemma {:induction false} RequestsCharged(store: set<Entry>, cfg: Config, server: Server, k: nat, s: int)
    requires CanEnd(cfg, s) && GoodServer(store, cfg.limit, server) && cfg.window > 0 && s <= cfg.end
    ensures (|RunFrom(store, cfg, server, k, s).requests| - 1 - Jumps(store, cfg, s)) * cfg.window <= cfg.end - s
    decreases cfg.end - s
  {
    var reply := server(k, s, WindowEnd(s, cfg.end, cfg.window));
    StartsIncrease(store, cfg, s, reply);
    var m := |RunFrom(store, cfg, server, k, s).requests| - 1 - Jumps(store, cfg, s);
    if Advance(cfg, s, reply).Continue? {
      var next := Advance(cfg, s, reply).next;
      RequestsCharged(store, cfg, server, k + 1, next);
      RoundCost(store, cfg, s, reply);
      var n := |RunFrom(store, cfg, server, k + 1, next).requests| - 1 - Jumps(store, cfg, next);
      ChargeOne(m, n, cfg.window, s, next, cfg.end);
    } else {
      MulMonotone(m, 0, cfg.window);
    }
  }

  /** The number of requests is bounded by the windows and the distinct timestamps of the range. */
  lemma RequestBound(store: set<Entry>, cfg: Config, server: Server)
    requires CanEnd(cfg, cfg.start) && GoodServer(store, cfg.limit, server)
    requires cfg.window > 0 && cfg.start <= cfg.end
    ensures |RunFrom(store, cfg, server, 0, cfg.start).requests|
         <= (cfg.end - cfg.start) / cfg.window + 2 * |Stamps(store, cfg.start, cfg.end)| + 1
  {
    RequestsCharged(store, cfg, server, 0, cfg.start);
    StampsShrink(store, cfg.start, cfg.start + 1, cfg.end);
    var n := |RunFrom(store, cfg, server, 0, cfg.start).requests| - 1 - Jumps(store, cfg, cfg.start);
    QuotientBound(n, cfg.window, cfg.end - cfg.start);
  }

  // ---------- exactly when the loop ends ----------

  /** The start of request number k + n, if the loop has not been left before it. */
  ghost function StartOf(cfg: Config, server: Server, k: nat, s: int, n: nat): Option<int>
    decreases n
  {
    if n == 0 then Some(s)
    else
      match Advance(cfg, s, server(k, s, WindowEnd(s, cfg.end, cfg.window)))
      case Continue(next) => StartOf(cfg, server, k + 1, next, n - 1)
      case _ => None
  }

  lemma {:induction false} EndsAfterItsRequests(store: set<Entry>, cfg: Config, server: Server, k: nat, s: int)
    requires CanEnd(cfg, s) && GoodServer(store, cfg.limit, server)
    ensures StartOf(cfg, server, k, s, |RunFrom(store, cfg, server, k, s).requests|).None?
    decreases if s < cfg.end then cfg.end - s else 0
  {
    var reply := server(k, s, WindowEnd(s, cfg.end, cfg.window));
    StartsIncrease(store, cfg, s, reply);
    if Advance(cfg, s, reply).Continue? {
      EndsAfterItsRequests(store, cfg, server, k + 1, Advance(cfg, s, reply).next);
    }
  }

  lemma {:induction false} NeverEnds(store: set<Entry>, cfg: Config, server: Server, k: nat, s: int, n: nat)
    requires !CanEnd(cfg, s) && GoodServer(store, cfg.limit, server) && NeverFails(server)
    ensures StartOf(cfg, server, k, s, n).Some?
    decreases n
  {
    if n > 0 {
      var e := WindowEnd(s, cfg.end, cfg.window);
      var reply := server(k, s, e);
      var lines := EmittedBy(reply);
      assert GoodReply(store, cfg.limit, s, e, reply) && Sane(reply);
      SaneParses(reply.streams);
      DistinctSize(lines);
      assert Elements(lines) == {};
      NeverEnds(store, cfg, server, k + 1, Advance(cfg, s, reply).next, n - 1);
    }
  }

  /** Against a server that never fails the loop ends if and only if CanEnd holds at its start. */
  lemma EndsIff(store: set<Entry>, cfg: Config, server: Server)
    requires GoodServer(store, cfg.limit, server) && NeverFails(server)
    ensures (exists n: nat :: StartOf(cfg, server, 0, cfg.start, n).None?) <==> CanEnd(cfg, cfg.start)
  {
    if CanEnd(cfg, cfg.start) {
      EndsAfterItsRequests(store, cfg, server, 0, cfg.start);
    } else {
      forall n: nat ensures StartOf(cfg, server, 0, cfg.start, n).Some? {
        NeverEnds(store, cfg, server, 0, cfg.start, n);
      }
    }
  }
}
