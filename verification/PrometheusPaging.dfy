/**
  The paged range queries of the Prometheus adapter (pkg/adapter/prometheus/v1/api.go),
  seen as arithmetic on the evaluation grid start, start + step, start + 2*step, ...
 */
module PrometheusPaging {
  import opened Arithmetic
  import opened Collections

  /** A value of the series of one node at one instant. */
  datatype Sample = Sample(node: string, time: int, value: real)

  datatype Series = Series(node: string, points: seq<(int, real)>)

  datatype Reply = Failed | NotAMatrix | Matrix(series: seq<Series>)

  datatype Config = Config(start: int, end: int, step: int, size: int)

  datatype Page = Page(start: int, end: int)

  /** Answers page request number k for the closed range from s to e. */
  type Server = (nat, int, int) -> Reply

  /** What an unpaged query sees: the value of a node's series at an instant, if it has one. */
  type Metrics = (string, int) -> Option<real>

  // ---------- one page ----------

  function PointsOf(node: string, points: seq<(int, real)>): seq<Sample> {
    seq(|points|, i requires 0 <= i < |points| => Sample(node, points[i].0, points[i].1))
  }

  function SamplesOf(matrix: seq<Series>): seq<Sample> {
    if matrix == [] then []
    else
      var n := |matrix| - 1;
      SamplesOf(matrix[..n]) + PointsOf(matrix[n].node, matrix[n].points)
  }

  /** Point j of series i. */
  function PointAt(matrix: seq<Series>, i: nat, j: nat): Sample
    requires i < |matrix| && j < |matrix[i].points|
  {
    Sample(matrix[i].node, matrix[i].points[j].0, matrix[i].points[j].1)
  }

  /** How many points the first i series have together. */
  function PointsBefore(matrix: seq<Series>, i: nat): nat
    requires i <= |matrix|
  {
    if i == 0 then 0 else PointsBefore(matrix, i - 1) + |matrix[i - 1].points|
  }

  lemma {:induction false} PointsBeforePrefix(matrix: seq<Series>, n: nat, i: nat)
    requires i <= n <= |matrix|
    ensures PointsBefore(matrix[..n], i) == PointsBefore(matrix, i)
  {
    if i > 0 {
      PointsBeforePrefix(matrix, n, i - 1);
    }
  }

  /** Nothing is left out or added: there are as many samples as points ... */
  lemma {:induction false} AsManyAsPoints(matrix: seq<Series>)
    ensures |SamplesOf(matrix)| == PointsBefore(matrix, |matrix|)
  {
    if matrix != [] {
      var n := |matrix| - 1;
      AsManyAsPoints(matrix[..n]);
      PointsBeforePrefix(matrix, n, n);
    }
  }

  /** ... and each point is at its place, series after series. */
  lemma {:induction false} EveryPointIsWritten(matrix: seq<Series>, i: nat, j: nat)
    requires i < |matrix| && j < |matrix[i].points|
    ensures PointsBefore(matrix, i) + j < |SamplesOf(matrix)|
    ensures SamplesOf(matrix)[PointsBefore(matrix, i) + j] == PointAt(matrix, i, j)
  {
    var n := |matrix| - 1;
    PointsBeforePrefix(matrix, n, i);
    if i < n {
      EveryPointIsWritten(matrix[..n], i, j);
    } else {
      AsManyAsPoints(matrix[..n]);
    }
  }

  ghost predicate IsPoint(matrix: seq<Series>, x: Sample) {
    exists i: nat, j: nat :: i < |matrix| && j < |matrix[i].points| && PointAt(matrix, i, j) == x
  }

  lemma {:induction false} SamplesArePoints(matrix: seq<Series>, x: Sample)
    ensures x in SamplesOf(matrix) <==> IsPoint(matrix, x)
  {
    if matrix != [] {
      var n := |matrix| - 1;
      var last := PointsOf(matrix[n].node, matrix[n].points);
      SamplesArePoints(matrix[..n], x);
      if IsPoint(matrix[..n], x) {
        var i: nat, j: nat :| i < n && j < |matrix[..n][i].points| && PointAt(matrix[..n], i, j) == x;
        assert PointAt(matrix, i, j) == x;
      }
      if x in last {
        var j: nat :| j < |last| && last[j] == x;
        assert PointAt(matrix, n, j) == x;
      }
      if IsPoint(matrix, x) {
        var i: nat, j: nat :| i < |matrix| && j < |matrix[i].points| && PointAt(matrix, i, j) == x;
        if i < n {
          assert PointAt(matrix[..n], i, j) == x;
        } else {
          assert last[j] == x;
        }
      }
    }
  }

  /** No two points of a matrix are the same. */
  ghost predicate NoPointTwice(matrix: seq<Series>) {
    forall i: nat, j: nat, i': nat, j': nat | i < |matrix| && j < |matrix[i].points| && i' < |matrix| && j' < |matrix[i'].points| ::
      PointAt(matrix, i, j) == PointAt(matrix, i', j') ==> i == i' && j == j'
  }

  lemma {:induction false} SamplesAreDistinct(matrix: seq<Series>)
    requires NoPointTwice(matrix)
    ensures Distinct(SamplesOf(matrix))
  {
    if matrix != [] {
      var n := |matrix| - 1;
      var early, last := SamplesOf(matrix[..n]), PointsOf(matrix[n].node, matrix[n].points);
      forall i: nat, j: nat | i < n && j < |matrix[i].points| ensures PointAt(matrix[..n], i, j) == PointAt(matrix, i, j) {
      }
      SamplesAreDistinct(matrix[..n]);
      forall j: nat | j < |last| ensures last[j] !in early && last[j] == PointAt(matrix, n, j) {
        SamplesArePoints(matrix[..n], last[j]);
        assert last[j] == PointAt(matrix, n, j);
      }
      forall a, b | 0 <= a < b < |early + last| ensures (early + last)[a] != (early + last)[b] {
        if a < |early| <= b {
          assert (early + last)[b] == last[b - |early|] && (early + last)[a] in early;
        } else if a >= |early| {
          assert last[a - |early|] == PointAt(matrix, n, a - |early|);
          assert last[b - |early|] == PointAt(matrix, n, b - |early|);
        }
      }
    }
  }

  method WriteMatrixToChannel(reply: Reply) returns (emitted: seq<Sample>, ok: bool)
    requires !reply.Failed?
    ensures ok <==> reply.Matrix?
    ensures emitted == if reply.Matrix? then SamplesOf(reply.series) else []
  {
    emitted := [];
    if reply.NotAMatrix? {
      return emitted, false;
    }
    var matrix := reply.series;
    for i := 0 to |matrix|
      invariant emitted == SamplesOf(matrix[..i])
    {
      var stream := matrix[i];
      for j := 0 to |stream.points|
        invariant emitted == SamplesOf(matrix[..i]) + PointsOf(stream.node, stream.points)[..j]
      {
        emitted := emitted + [Sample(stream.node, stream.points[j].0, stream.points[j].1)];
      }
      assert matrix[..i + 1][..i] == matrix[..i];
    }
    assert matrix[..|matrix|] == matrix;
    ok := true;
  }

  /** The instants at which a range query from s to e is evaluated. */
  ghost predicate OnGrid(s: int, e: int, step: int, t: int)
    requires step > 0
  {
    s <= t <= e && (t - s) % step == 0
  }

  /** A range query is rejected without a positive step, and if its range ends before it starts. */
  predicate Valid(step: int, s: int, e: int) {
    step > 0 && s <= e
  }

  ghost predicate Strict(step: int, server: Server) {
    forall k: nat, s, e {:trigger server(k, s, e)} :: !Valid(step, s, e) ==> server(k, s, e).Failed?
  }

  /** A range query answers with a point for every sample of its instants, with none twice, and with no other. */
  ghost predicate GoodReply(metrics: Metrics, step: int, s: int, e: int, reply: Reply) {
    step > 0 && reply.Matrix? ==>
      && NoPointTwice(reply.series)
      && forall x :: IsPoint(reply.series, x)
           <==> metrics(x.node, x.time) == Some(x.value) && OnGrid(s, e, step, x.time)
  }

  ghost predicate GoodServer(metrics: Metrics, step: int, server: Server) {
    && Strict(step, server)
    && forall k: nat, s, e {:trigger GoodReply(metrics, step, s, e, server(k, s, e))} ::
      GoodReply(metrics, step, s, e, server(k, s, e))
  }

  // ---------- whole runs ----------

  function Span(cfg: Config): int {
    cfg.step * cfg.size
  }

  function PageEnd(cfg: Config, s: int): int {
    if s + Span(cfg) >= cfg.end then cfg.end else s + Span(cfg)
  }

  /** The loop is left, from a page that starts at s, unless its pages are empty and the server takes them. */
  predicate CanEnd(cfg: Config, s: int) {
    !(cfg.step > 0 && cfg.size == 0 && s < cfg.end)
  }

  /** If a page was answered and is not the last, the next one starts later. */
  lemma PagesAdvance(cfg: Config, s: int)
    requires CanEnd(cfg, s) && s + Span(cfg) < cfg.end && Valid(cfg.step, s, PageEnd(cfg, s))
    ensures Span(cfg) > 0 && cfg.size > 0 && CanEnd(cfg, s + Span(cfg))
  {
  }

  datatype Run = Run(pages: seq<Page>, emitted: seq<Sample>, ok: bool)

  ghost function Before(page: Page, samples: seq<Sample>, rest: Run): Run {
    rest.(pages := [page] + rest.pages, emitted := samples + rest.emitted)
  }

  ghost function RunFrom(cfg: Config, server: Server, k: nat, s: int): Run
    requires CanEnd(cfg, s) && Strict(cfg.step, server)
    decreases if s < cfg.end then cfg.end - s else 0
  {
    var e := PageEnd(cfg, s);
    var reply := server(k, s, e);
    if !reply.Matrix? then Run([Page(s, e)], [], false)
    else if s + Span(cfg) >= cfg.end then Run([Page(s, e)], SamplesOf(reply.series), true)
    else
      PagesAdvance(cfg, s);
      Before(Page(s, e), SamplesOf(reply.series), RunFrom(cfg, server, k + 1, e))
  }

  ghost function Resumed(pages: seq<Page>, emitted: seq<Sample>, rest: Run): Run {
    rest.(pages := pages + rest.pages, emitted := emitted + rest.emitted)
  }

  lemma ResumedBefore(pages: seq<Page>, emitted: seq<Sample>, page: Page, samples: seq<Sample>, rest: Run)
    ensures Resumed(pages, emitted, Before(page, samples, rest)) == Resumed(pages + [page], emitted + samples, rest)
  {
    assert pages + ([page] + rest.pages) == pages + [page] + rest.pages;
    assert emitted + (samples + rest.emitted) == emitted + samples + rest.emitted;
  }

  /** `known`: the metric has a query. */
  method QueryRange(cfg: Config, known: bool, server: Server)
    returns (pages: seq<Page>, emitted: seq<Sample>, ok: bool)
    requires CanEnd(cfg, cfg.start) && Strict(cfg.step, server)
    ensures !known ==> pages == [] && emitted == [] && !ok
    ensures known ==> Run(pages, emitted, ok) == RunFrom(cfg, server, 0, cfg.start)
  {
    ghost var run := RunFrom(cfg, server, 0, cfg.start);
    pages, emitted := [], [];
    var pageStart := cfg.start;
    var lastPage := false;
    while true
      invariant CanEnd(cfg, pageStart) && !lastPage
      invariant run == Resumed(pages, emitted, RunFrom(cfg, server, |pages|, pageStart))
      invariant known || (pages == [] && emitted == [])
      decreases if pageStart < cfg.end then cfg.end - pageStart else 0
    {
      var pageEnd := pageStart + Span(cfg);
      if pageEnd >= cfg.end {
        pageEnd := cfg.end;
        lastPage := true;
      }
      if !known {
        return pages, emitted, false;
      }
      var reply := server(|pages|, pageStart, pageEnd);
      ghost var page := Page(pageStart, pageEnd);
      if !lastPage && reply.Matrix? {
        PagesAdvance(cfg, pageStart);
        ResumedBefore(pages, emitted, page, SamplesOf(reply.series), RunFrom(cfg, server, |pages| + 1, pageEnd));
      }
      pages := pages + [Page(pageStart, pageEnd)];
      if reply.Failed? {
        return pages, emitted, false;
      }
      var samples, isMatrix := WriteMatrixToChannel(reply);
      emitted := emitted + samples;
      if !isMatrix {
        return pages, emitted, false;
      }
      if lastPage {
        return pages, emitted, true;
      }
      pageStart := pageEnd;
    }
  }

  // ---------- the pages refine one unpaged query ----------

  /** How often the pages from s on evaluate instant t: page boundaries strictly inside the range twice. */
  ghost function Times(cfg: Config, s: int, t: int): nat
    requires cfg.step > 0 && cfg.size > 0
  {
    SpanPositive(cfg);
    if !OnGrid(s, cfg.end, cfg.step, t) then 0
    else if s < t < cfg.end && (t - s) % Span(cfg) == 0 then 2
    else 1
  }

  lemma SpanPositive(cfg: Config)
    requires cfg.step > 0 && cfg.size > 0
    ensures Span(cfg) >= cfg.step
  {
    assert cfg.step * cfg.size == cfg.step * (cfg.size - 1) + cfg.step;
  }

  /** One page before the last takes over exactly the evaluations that the later pages do not make. */
  lemma PageSplitsTimes(cfg: Config, s: int, t: int)
    requires cfg.step > 0 && cfg.size > 0 && s + Span(cfg) < cfg.end
    ensures Times(cfg, s, t)
         == OnPage(cfg, s, s + Span(cfg), t) + Times(cfg, s + Span(cfg), t)
  {
    SpanPositive(cfg);
    var next := s + Span(cfg);
    assert (t - next) % cfg.step == (t - s) % cfg.step by {
      ModShift(t - s, cfg.step, cfg.size);
      assert t - next == t - s - cfg.step * cfg.size;
    }
    assert (t - next) % Span(cfg) == (t - s) % Span(cfg) by {
      ModOnce(t - s, Span(cfg));
    }
    if s < t < next {
      SmallRemainder(t - s, Span(cfg));
    } else if t == next {
      SmallRemainder(0, Span(cfg));
      SmallRemainder(0, cfg.step);
    }
  }

  lemma SmallRemainder(a: nat, d: int)
    requires a < d
    ensures a % d == a
  {
    RemainderUnique(a, d, 0, a);
  }

  lemma LastPageTimes(cfg: Config, s: int, t: int)
    requires cfg.step > 0 && cfg.size > 0 && s + Span(cfg) >= cfg.end
    ensures Times(cfg, s, t) == OnPage(cfg, s, cfg.end, t)
  {
    SpanPositive(cfg);
    if s < t < cfg.end {
      SmallRemainder(t - s, Span(cfg));
    }
  }

  /** The unpaged query, seen from one sample: how often it is returned for n evaluations of its instant. */
  ghost function Returned(metrics: Metrics, x: Sample, n: nat): nat {
    if metrics(x.node, x.time) == Some(x.value) then n else 0
  }

  ghost function Copies(samples: seq<Sample>, x: Sample): nat {
    multiset(samples)[x]
  }

  ghost function OnPage(cfg: Config, s: int, e: int, t: int): nat
    requires cfg.step > 0
  {
    if OnGrid(s, e, cfg.step, t) then 1 else 0
  }

  lemma PageEmits(metrics: Metrics, cfg: Config, server: Server, k: nat, s: int, e: int, x: Sample)
    requires cfg.step > 0 && GoodServer(metrics, cfg.step, server)
    requires server(k, s, e).Matrix?
    ensures Copies(SamplesOf(server(k, s, e).series), x) == Returned(metrics, x, OnPage(cfg, s, e, x.time))
  {
    assert GoodReply(metrics, cfg.step, s, e, server(k, s, e));
    SamplesAreDistinct(server(k, s, e).series);
    SamplesArePoints(server(k, s, e).series, x);
    DistinctCount(SamplesOf(server(k, s, e).series), x);
  }

  lemma CopiesBefore(page: Page, samples: seq<Sample>, rest: Run, x: Sample)
    ensures Copies(Before(page, samples, rest).emitted, x) == Copies(samples, x) + Copies(rest.emitted, x)
  {
  }

  /**
    Refinement of one unpaged range query: a run without error emits each sample
    of the metric exactly as often as its instant is evaluated, that is once per
    grid instant of the whole range, twice on interior page boundaries, and
    nothing off the grid.
   */
  lemma {:induction false} PagesRefineOneQuery(metrics: Metrics, cfg: Config, server: Server, k: nat, s: int, x: Sample)
    requires cfg.step > 0 && cfg.size > 0 && CanEnd(cfg, s)
    requires GoodServer(metrics, cfg.step, server)
    requires RunFrom(cfg, server, k, s).ok
    ensures Copies(RunFrom(cfg, server, k, s).emitted, x) == Returned(metrics, x, Times(cfg, s, x.time))
    decreases if s < cfg.end then cfg.end - s else 0
  {
    var e := PageEnd(cfg, s);
    PageEmits(metrics, cfg, server, k, s, e, x);
    if s + Span(cfg) >= cfg.end {
      LastPageTimes(cfg, s, x.time);
    } else {
      var rest := RunFrom(cfg, server, k + 1, e);
      var samples := SamplesOf(server(k, s, e).series);
      assert RunFrom(cfg, server, k, s) == Before(Page(s, e), samples, rest);
      CopiesBefore(Page(s, e), samples, rest, x);
      PagesRefineOneQuery(metrics, cfg, server, k + 1, e, x);
      PageSplitsTimes(cfg, s, x.time);
    }
  }

  // ---------- number and size of the pages ----------

  lemma {:induction false} PageCount(cfg: Config, server: Server, k: nat, s: int)
    requires cfg.step > 0 && cfg.size > 0 && s <= cfg.end && Strict(cfg.step, server)
    requires RunFrom(cfg, server, k, s).ok
    ensures var n, m := |RunFrom(cfg, server, k, s).pages|, CeilDiv(cfg.end - s, Span(cfg));
            && n == (if m == 0 then 1 else m)
            && n >= 1 && cfg.end - s <= n * Span(cfg)
            && (s < cfg.end ==> (n - 1) * Span(cfg) < cfg.end - s)
    decreases cfg.end - s
  {
    var p := Span(cfg);
    SpanPositive(cfg);
    if s + p < cfg.end {
      CeilDivStep(cfg.end - s, p);
      PageCount(cfg, server, k + 1, s + p);
      var rest := |RunFrom(cfg, server, k + 1, s + p).pages|;
      assert (rest - 1) * p + p == rest * p && rest * p + p == (rest + 1) * p;
    } else {
      CeilDivSmall(cfg.end - s, p);
    }
  }

  ghost function InstantsOf(page: Page, step: int): set<int>
    requires step > 0
  {
    set t | page.start <= t <= page.end && OnGrid(page.start, page.end, step, t)
  }

  lemma LastInstant(step: int, n: nat, extra: nat, a: int)
    requires step > 0 && extra < step
    requires step * n + extra - step < a <= step * n + extra && a % step == 0
    ensures a == step * n
  {
    var d := a - step * n;
    ModShift(a, step, n);
    if d < 0 {
      RemainderUnique(d, step, -1, d + step);
    } else {
      SmallRemainder(d, step);
    }
  }

  lemma OneInstantMore(s: int, step: int, n: nat, extra: nat)
    requires step > 0 && extra < step
    ensures InstantsOf(Page(s, s + step * n + extra), step)
         == InstantsOf(Page(s, s + step * n + extra - step), step) + {s + step * n}
  {
    var e := s + step * n + extra;
    assert OnGrid(s, e, step, s + step * n) by {
      assert step * n >= 0;
      ModShift(step * n, step, n);
      SmallRemainder(0, step);
    }
    forall t | t in InstantsOf(Page(s, e), step) && t > e - step ensures t == s + step * n {
      LastInstant(step, n, extra, t - s);
    }
  }

  lemma {:induction false} InstantCount(s: int, step: int, n: nat, extra: nat)
    requires step > 0 && extra < step
    ensures |InstantsOf(Page(s, s + step * n + extra), step)| == n + 1
    decreases n
  {
    OneInstantMore(s, step, n, extra);
    var fewer := Page(s, s + step * n + extra - step);
    if n == 0 {
      assert InstantsOf(fewer, step) == {};
    } else {
      assert fewer.end == s + step * (n - 1) + extra;
      InstantCount(s, step, n - 1, extra);
    }
    assert s + step * n !in InstantsOf(fewer, step);
  }

  /**
    The pages tile the range, none spans more than `size` steps, and every page
    before the last is evaluated at exactly `size + 1` instants.
   */
  lemma {:induction false} PagesTile(cfg: Config, server: Server, k: nat, s: int, i: nat)
    requires cfg.step > 0 && cfg.size > 0 && s <= cfg.end && Strict(cfg.step, server)
    requires i < |RunFrom(cfg, server, k, s).pages|
    ensures var run := RunFrom(cfg, server, k, s);
            && run.pages[0].start == s
            && run.pages[i].end - run.pages[i].start <= Span(cfg)
            && (i + 1 < |run.pages| ==>
                  && run.pages[i + 1].start == run.pages[i].end < cfg.end
                  && |InstantsOf(run.pages[i], cfg.step)| == cfg.size + 1)
            && (run.ok ==> run.pages[|run.pages| - 1].end == cfg.end)
    decreases cfg.end - s
  {
    var run := RunFrom(cfg, server, k, s);
    if |run.pages| > 1 {
      var next := s + Span(cfg);
      var rest := RunFrom(cfg, server, k + 1, next);
      assert run.pages == [Page(s, next)] + rest.pages;
      PagesTile(cfg, server, k + 1, next, if i == 0 then 0 else i - 1);
      if i == 0 {
        InstantCount(s, cfg.step, cfg.size, 0);
      }
    }
  }

  // ---------- the run, page by page ----------

  /** What the answers to these pages bring together; the first page is request number k. */
  ghost function Gathered(server: Server, k: nat, pages: seq<Page>): seq<Sample>
    decreases |pages|
  {
    if pages == [] then []
    else
      var reply := server(k, pages[0].start, pages[0].end);
      (if reply.Matrix? then SamplesOf(reply.series) else []) + Gathered(server, k + 1, pages[1..])
  }

  ghost predicate Answered(server: Server, k: nat, page: Page) {
    server(k, page.start, page.end).Matrix?
  }

  lemma LaterPages(cfg: Config, server: Server, k: nat, s: int)
    requires CanEnd(cfg, s) && Strict(cfg.step, server)
    requires |RunFrom(cfg, server, k, s).pages| > 1
    ensures s + Span(cfg) < cfg.end && Answered(server, k, Page(s, s + Span(cfg))) && CanEnd(cfg, s + Span(cfg))
    ensures s < s + Span(cfg)
    ensures var run, rest := RunFrom(cfg, server, k, s), RunFrom(cfg, server, k + 1, s + Span(cfg));
            run.pages == [Page(s, s + Span(cfg))] + rest.pages && run.ok == rest.ok && rest.pages != []
            && run.emitted == SamplesOf(server(k, s, s + Span(cfg)).series) + rest.emitted
  {
    PagesAdvance(cfg, s);
  }

  /**
    Every page of a run: it starts where the one before ended, ends after `size` steps or at the end of the
    range, and is the last exactly if it reaches that end or is not answered with a matrix; the run succeeds
    exactly if the last page is answered with one.
   */
  lemma {:induction false} PageByPage(cfg: Config, server: Server, k: nat, s: int, i: nat)
    requires CanEnd(cfg, s) && Strict(cfg.step, server)
    requires i < |RunFrom(cfg, server, k, s).pages|
    ensures var run := RunFrom(cfg, server, k, s);
            var page, full := run.pages[i], run.pages[i].start + cfg.step * cfg.size;
            && run.pages[0].start == s
            && page.end == (if full < cfg.end then full else cfg.end)
            && (i + 1 < |run.pages| <==> full < cfg.end && Answered(server, k + i, page))
            && (i + 1 < |run.pages| ==> run.pages[i + 1].start == page.end)
            && (i + 1 == |run.pages| ==> (run.ok <==> Answered(server, k + i, page)))
    decreases if s < cfg.end then cfg.end - s else 0
  {
    var run := RunFrom(cfg, server, k, s);
    if |run.pages| > 1 {
      LaterPages(cfg, server, k, s);
      PageByPage(cfg, server, k + 1, s + Span(cfg), if i == 0 then 0 else i - 1);
    }
  }

  /** The run writes what the answers to its pages bring, in order, and succeeds exactly if all are matrices. */
  lemma {:induction false} RunGathers(cfg: Config, server: Server, k: nat, s: int)
    requires CanEnd(cfg, s) && Strict(cfg.step, server)
    ensures var run := RunFrom(cfg, server, k, s);
            && run.emitted == Gathered(server, k, run.pages)
            && (run.ok <==> AllAnswered(server, k, run.pages))
    decreases if s < cfg.end then cfg.end - s else 0
  {
    var run := RunFrom(cfg, server, k, s);
    if |run.pages| > 1 {
      LaterPages(cfg, server, k, s);
      RunGathers(cfg, server, k + 1, s + Span(cfg));
      assert run.pages[1..] == RunFrom(cfg, server, k + 1, s + Span(cfg)).pages;
    } else {
      assert run.pages[1..] == [] && run.emitted + [] == run.emitted;
    }
  }

  ghost predicate AllAnswered(server: Server, k: nat, pages: seq<Page>)
    decreases |pages|
  {
    pages == [] || (Answered(server, k, pages[0]) && AllAnswered(server, k + 1, pages[1..]))
  }

  // ---------- exactly when the loop ends ----------

  ghost function StartOf(cfg: Config, server: Server, k: nat, s: int, n: nat): Option<int>
    decreases n
  {
    if n == 0 then Some(s)
    else if !server(k, s, PageEnd(cfg, s)).Matrix? || s + Span(cfg) >= cfg.end then None
    else StartOf(cfg, server, k + 1, PageEnd(cfg, s), n - 1)
  }

  lemma {:induction false} EndsAfterItsPages(cfg: Config, server: Server, k: nat, s: int)
    requires CanEnd(cfg, s) && Strict(cfg.step, server)
    ensures StartOf(cfg, server, k, s, |RunFrom(cfg, server, k, s).pages|).None?
    decreases if s < cfg.end then cfg.end - s else 0
  {
    if server(k, s, PageEnd(cfg, s)).Matrix? && s + Span(cfg) < cfg.end {
      PagesAdvance(cfg, s);
      EndsAfterItsPages(cfg, server, k + 1, PageEnd(cfg, s));
    }
  }

  /** The server fails no valid query. */
  ghost predicate Generous(step: int, server: Server) {
    forall k: nat, s, e {:trigger server(k, s, e)} :: Valid(step, s, e) ==> server(k, s, e).Matrix?
  }

  lemma {:induction false} NeverEnds(cfg: Config, server: Server, k: nat, n: nat)
    requires !CanEnd(cfg, cfg.start) && Generous(cfg.step, server)
    ensures StartOf(cfg, server, k, cfg.start, n) == Some(cfg.start)
    decreases n
  {
    assert Span(cfg) == 0;
    if n > 0 {
      NeverEnds(cfg, server, k + 1, n - 1);
    }
  }

  /** A step or a size that is not positive otherwise ends the loop with its first page. */
  lemma EndsAtOnce(cfg: Config, server: Server)
    requires Strict(cfg.step, server) && CanEnd(cfg, cfg.start) && (cfg.step <= 0 || cfg.size <= 0)
    ensures |RunFrom(cfg, server, 0, cfg.start).pages| == 1
  {
  }

  /**
    Against a server that fails exactly the invalid queries the loop ends unless step is positive, size is
    zero and the range is not empty; then it asks for its first instant again and again.
   */
  lemma EndsIff(metrics: Metrics, cfg: Config, server: Server)
    requires GoodServer(metrics, cfg.step, server) && Generous(cfg.step, server)
    ensures (exists n: nat :: StartOf(cfg, server, 0, cfg.start, n).None?)
       <==> !(cfg.step > 0 && cfg.size == 0 && cfg.start < cfg.end)
  {
    if CanEnd(cfg, cfg.start) {
      EndsAfterItsPages(cfg, server, 0, cfg.start);
    } else {
      forall n: nat ensures StartOf(cfg, server, 0, cfg.start, n).Some? {
        NeverEnds(cfg, server, 0, n);
      }
    }
  }
}
