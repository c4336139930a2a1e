/**
 * Distributed traces: spans grouped by trace id, the per-trace summary
 * (start, duration, services, error count, root span) recomputed after
 * every span, trace search, and the service dependency graph.
 *
 * A trace's `start_time` is kept as the signed nanosecond count it is
 * built from; RFC 3339 parsing of the `since` parameter is not modelled
 * (the parsed instant is the parameter). Where the source iterates over
 * a `HashMap`, the order of the values is an argument of the model.
 */
module Traces {
  import opened Wrappers
  import opened Widths
  import opened Text
  import opened SeqOps

  datatype SpanStatus = SpanUnset | SpanOk | SpanError(message: string)

  /** A span; its attribute map is not modelled. */
  datatype Span = Span(
    traceId: string,
    spanId: string,
    parentSpanId: Option<string>,
    name: string,
    serviceName: string,
    startNs: u64,
    endNs: u64,
    status: SpanStatus)

  datatype Trace = Trace(
    traceId: string,
    spans: seq<Span>,
    rootSpan: Option<Span>,
    startTime: int,
    durationMs: u64,
    services: set<string>,
    errorCount: nat)

  const U64_MAX: u64 := U64_MODULUS - 1
  const NANOS_PER_MS: nat := 1_000_000

  /** `n as i64`: values of 2^63 and above wrap to negative ones. */
  function NanosAsI64(n: u64): (r: int)
    ensures -0x8000_0000_0000_0000 <= r < 0x8000_0000_0000_0000
    ensures r % U64_MODULUS == n
  {
    if n < 0x8000_0000_0000_0000 then n else n - U64_MODULUS
  }

  // ---------------------------------------------------------------------------
  // The summary of a trace, as functions of its spans
  // ---------------------------------------------------------------------------

  /** The smallest start among the spans (`u64::MAX` for none). */
  function MinStart(spans: seq<Span>): (r: u64)
    decreases |spans|
  {
    if |spans| == 0 then U64_MAX
    else
      var m := MinStart(spans[..|spans| - 1]);
      if spans[|spans| - 1].startNs < m then spans[|spans| - 1].startNs else m
  }

  /** The largest end among the spans (0 for none). */
  function MaxEnd(spans: seq<Span>): (r: u64)
    decreases |spans|
  {
    if |spans| == 0 then 0
    else
      var m := MaxEnd(spans[..|spans| - 1]);
      if spans[|spans| - 1].endNs > m then spans[|spans| - 1].endNs else m
  }

  /** The service names of the spans. */
  function Services(spans: seq<Span>): set<string>
  {
    set i | 0 <= i < |spans| :: spans[i].serviceName
  }

  predicate IsErrorSpan(s: Span)
  {
    s.status.SpanError?
  }

  /** The number of spans with an error status. */
  function ErrorCount(spans: seq<Span>): (r: nat)
    ensures r <= |spans|
  {
    |Filter(IsErrorSpan, spans)|
  }

  predicate IsRoot(s: Span)
  {
    s.parentSpanId.None?
  }

  /** The first span without a parent, or else the first span. */
  function Root(spans: seq<Span>): (r: Option<Span>)
  {
    match FindFirst(spans, IsRoot)
    case Some(s) => Some(s)
    case None => if |spans| > 0 then Some(spans[0]) else None
  }

  /** `max_end.saturating_sub(min_start) / 1_000_000`. */
  function DurationMs(spans: seq<Span>): (r: u64)
  {
    var maxEnd, minStart := MaxEnd(spans), MinStart(spans);
    (if maxEnd >= minStart then maxEnd - minStart else 0) / NANOS_PER_MS
  }

  /** The trace with its summary fields recomputed from its spans. */
  function Summarized(t: Trace): (r: Trace)
    ensures r.traceId == t.traceId && r.spans == t.spans
  {
    if |t.spans| == 0 then
      t.(durationMs := 0, errorCount := 0, services := {}, rootSpan := None)
    else
      t.(startTime := NanosAsI64(MinStart(t.spans)), durationMs := DurationMs(t.spans),
         services := Services(t.spans), errorCount := ErrorCount(t.spans), rootSpan := Root(t.spans))
  }

  /** The summary depends only on the spans, so recomputing it twice changes nothing more. */
  lemma SummarizedIdempotent(t: Trace)
    ensures Summarized(Summarized(t)) == Summarized(t)
  {
  }

  /** The minimum start is a lower bound attained by some span. */
  lemma {:induction false} MinStartIsMinimum(spans: seq<Span>)
    ensures forall i :: 0 <= i < |spans| ==> MinStart(spans) <= spans[i].startNs
    ensures |spans| > 0 ==> exists i :: 0 <= i < |spans| && MinStart(spans) == spans[i].startNs
    decreases |spans|
  {
    if |spans| > 0 {
      var init := spans[..|spans| - 1];
      MinStartIsMinimum(init);
      assert forall i :: 0 <= i < |init| ==> init[i] == spans[i];
      if MinStart(spans) == spans[|spans| - 1].startNs {
      } else {
        var j :| 0 <= j < |init| && MinStart(init) == init[j].startNs;
        assert MinStart(spans) == spans[j].startNs;
      }
    }
  }

  /** The maximum end is an upper bound, attained by some span when there is one with a positive end. */
  lemma {:induction false} MaxEndIsMaximum(spans: seq<Span>)
    ensures forall i :: 0 <= i < |spans| ==> spans[i].endNs <= MaxEnd(spans)
    ensures MaxEnd(spans) == 0 || exists i :: 0 <= i < |spans| && MaxEnd(spans) == spans[i].endNs
    decreases |spans|
  {
    if |spans| > 0 {
      var init := spans[..|spans| - 1];
      MaxEndIsMaximum(init);
      assert forall i :: 0 <= i < |init| ==> init[i] == spans[i];
      if MaxEnd(spans) != spans[|spans| - 1].endNs && MaxEnd(spans) != 0 {
        var j :| 0 <= j < |init| && MaxEnd(init) == init[j].endNs;
        assert MaxEnd(spans) == spans[j].endNs;
      }
    }
  }

  /**
   * The root is the first parentless span when there is one, and the
   * first span otherwise; only an empty trace has none.
   */
  lemma RootIsFirstParentless(spans: seq<Span>)
    ensures Root(spans).None? <==> |spans| == 0
    ensures forall i :: 0 <= i < |spans| && IsRoot(spans[i]) && (forall j :: 0 <= j < i ==> !IsRoot(spans[j])) ==>
      Root(spans) == Some(spans[i])
    ensures (forall i :: 0 <= i < |spans| ==> !IsRoot(spans[i])) && |spans| > 0 ==> Root(spans) == Some(spans[0])
  {
    forall i | 0 <= i < |spans| && IsRoot(spans[i]) && (forall j :: 0 <= j < i ==> !IsRoot(spans[j]))
      ensures Root(spans) == Some(spans[i])
    {
      FirstWhereIs(spans, IsRoot, i);
    }
  }

  /** The error count is zero exactly when no span has an error status. */
  lemma {:induction false} ErrorCountZero(spans: seq<Span>)
    ensures ErrorCount(spans) == 0 <==> forall i :: 0 <= i < |spans| ==> !IsErrorSpan(spans[i])
  {
    FilterMembers(IsErrorSpan, spans);
    if ErrorCount(spans) == 0 {
      forall i | 0 <= i < |spans|
        ensures !IsErrorSpan(spans[i])
      {
        assert spans[i] in spans;
      }
    } else {
      var f := Filter(IsErrorSpan, spans);
      assert f[0] in f;
    }
  }

  /** The summary fields after appending one span, from those before. */
  lemma SummaryStep(spans: seq<Span>, i: nat)
    requires i < |spans|
    ensures var pre, s := spans[..i], spans[i];
      && MinStart(spans[..i + 1]) == (if s.startNs < MinStart(pre) then s.startNs else MinStart(pre))
      && MaxEnd(spans[..i + 1]) == (if s.endNs > MaxEnd(pre) then s.endNs else MaxEnd(pre))
      && Services(spans[..i + 1]) == Services(pre) + {s.serviceName}
      && ErrorCount(spans[..i + 1]) == ErrorCount(pre) + (if IsErrorSpan(s) then 1 else 0)
      && FindFirst(spans[..i + 1], IsRoot) == (if FindFirst(pre, IsRoot).None? && IsRoot(s) then Some(s) else FindFirst(pre, IsRoot))
  {
    var pre, s := spans[..i], spans[i];
    var next := spans[..i + 1];
    assert next == pre + [s];
    assert next[..i] == pre;
    FilterAppend(IsErrorSpan, pre, [s]);
    FirstWhereAppend(pre, s, IsRoot);
    assert Services(next) == Services(pre) + {s.serviceName} by {
      forall n | n in Services(next)
        ensures n in Services(pre) + {s.serviceName}
      {
        var k :| 0 <= k < |next| && next[k].serviceName == n;
        if k < i {
          assert next[k] == pre[k];
        }
      }
      forall n | n in Services(pre)
        ensures n in Services(next)
      {
        var k :| 0 <= k < |pre| && pre[k].serviceName == n;
        assert next[k] == pre[k];
      }
      assert next[i] == s;
    }
  }

  /**
   * `recompute_trace_summary`: one pass over the spans accumulating the
   * minimum start, maximum end, service names, error count and first
   * parentless span; a trace without spans has its summary cleared.
   */
  method RecomputeSummary(t: Trace) returns (u: Trace)
    ensures u == Summarized(t)
  {
    if |t.spans| == 0 {
      u := t.(durationMs := 0, errorCount := 0, services := {}, rootSpan := None);
      return;
    }
    var minStart: u64 := U64_MAX;
    var maxEnd: u64 := 0;
    var services: set<string> := {};
    var errorCount: nat := 0;
    var root: Option<Span> := None;
    var i := 0;
    while i < |t.spans|
      invariant i <= |t.spans|
      invariant minStart == MinStart(t.spans[..i]) && maxEnd == MaxEnd(t.spans[..i])
      invariant services == Services(t.spans[..i]) && errorCount == ErrorCount(t.spans[..i])
      invariant root == FindFirst(t.spans[..i], IsRoot)
    {
      var span := t.spans[i];
      SummaryStep(t.spans, i);
      if span.startNs < minStart {
        minStart := span.startNs;
      }
      if span.endNs > maxEnd {
        maxEnd := span.endNs;
      }
      services := services + {span.serviceName};
      if span.status.SpanError? {
        errorCount := errorCount + 1;
      }
      if span.parentSpanId.None? && root.None? {
        root := Some(span);
      }
      i := i + 1;
    }
    assert t.spans[..i] == t.spans;
    var duration := (if maxEnd >= minStart then maxEnd - minStart else 0) / NANOS_PER_MS;
    var rootSpan := if root.Some? then root else Some(t.spans[0]);
    u := t.(startTime := NanosAsI64(minStart), durationMs := duration, services := services,
            errorCount := errorCount, rootSpan := rootSpan);
  }

  // ---------------------------------------------------------------------------
  // The store
  // ---------------------------------------------------------------------------

  /** The trace `ingest` creates for the first span of an unknown trace id. */
  function NewTrace(span: Span): (r: Trace)
    ensures r.traceId == span.traceId && r.spans == [] && r.rootSpan == None
    ensures r.durationMs == 0 && r.services == {} && r.errorCount == 0
  {
    Trace(span.traceId, [], None, NanosAsI64(span.startNs), 0, {}, 0)
  }

  /** The store after one span: appended to its trace (created if absent), whose summary is recomputed. */
  function AddSpan(store: map<string, Trace>, span: Span): (r: map<string, Trace>)
    ensures r.Keys == store.Keys + {span.traceId}
  {
    var base := if span.traceId in store then store[span.traceId] else NewTrace(span);
    store[span.traceId := Summarized(base.(spans := base.spans + [span]))]
  }

  /** The store after a batch of spans, taken in order. */
  function AddSpans(store: map<string, Trace>, spans: seq<Span>): (r: map<string, Trace>)
    decreases |spans|
  {
    if |spans| == 0 then store else AddSpan(AddSpans(store, spans[..|spans| - 1]), spans[|spans| - 1])
  }

  /** Spans of trace `id`. */
  function OfTrace(id: string): Span -> bool
  {
    (s: Span) => s.traceId == id
  }

  /** One span changes only its own trace: it is appended to that trace's spans. */
  lemma AddSpanAppends(store: map<string, Trace>, span: Span, id: string)
    ensures id in AddSpan(store, span) <==> id in store || span.traceId == id
    ensures id in AddSpan(store, span) ==>
      AddSpan(store, span)[id].spans == (if id in store then store[id].spans else []) + (if span.traceId == id then [span] else [])
  {
    var base := if span.traceId in store then store[span.traceId] else NewTrace(span);
    var grown := base.(spans := base.spans + [span]);
    var after := store[span.traceId := Summarized(grown)];
    assert AddSpan(store, span) == after;
    if id == span.traceId {
      assert after[id].spans == grown.spans;
    } else if id in store {
      assert after[id] == store[id];
      assert store[id].spans + [] == store[id].spans;
    }
  }

  /** `AddSpans` of one more span is `AddSpan` of it. */
  lemma AddSpansStep(store: map<string, Trace>, spans: seq<Span>, i: nat)
    requires i < |spans|
    ensures AddSpans(store, spans[..i + 1]) == AddSpan(AddSpans(store, spans[..i]), spans[i])
  {
    assert spans[..i + 1] == spans[..i] + [spans[i]];
    AddSpansSnoc(store, spans[..i], spans[i]);
  }

  /** `AddSpans` of a batch with one more span at the end. */
  lemma AddSpansSnoc(store: map<string, Trace>, init: seq<Span>, last: Span)
    ensures AddSpans(store, init + [last]) == AddSpan(AddSpans(store, init), last)
  {
    assert (init + [last])[..|init|] == init;
  }

  /**
   * Ingesting a batch appends, to every trace, exactly the batch's spans
   * of that trace id in batch order, and creates the traces that were
   * absent; no trace disappears.
   */
  lemma {:induction false} AddSpansAppends(store: map<string, Trace>, spans: seq<Span>, id: string)
    ensures id in AddSpans(store, spans) <==> id in store || Filter(OfTrace(id), spans) != []
    ensures id in AddSpans(store, spans) ==>
      AddSpans(store, spans)[id].spans == (if id in store then store[id].spans else []) + Filter(OfTrace(id), spans)
    decreases |spans|
  {
    if |spans| > 0 {
      var init, last := spans[..|spans| - 1], spans[|spans| - 1];
      var before := AddSpans(store, init);
      InitLast(spans);
      assert AddSpans(store, spans) == AddSpan(before, last);
      AddSpansAppends(store, init, id);
      AddSpanAppends(before, last, id);
      FilterAppend(OfTrace(id), init, [last]);
      assert Filter(OfTrace(id), [last]) == (if last.traceId == id then [last] else []);
      var mine := if id in store then store[id].spans else [];
      if id in AddSpans(store, spans) && id in before {
        SeqOps.AppendAssoc(mine, Filter(OfTrace(id), init), Filter(OfTrace(id), [last]));
      }
    }
  }

  /** A store whose traces are filed under their own ids, are non-empty, and carry their current summary. */
  predicate Summarizes(store: map<string, Trace>)
  {
    forall k :: k in store ==> store[k].traceId == k && store[k].spans != [] && store[k] == Summarized(store[k])
  }

  /** Dropping a trace keeps the others filed under their ids and summarised. */
  lemma DropKeepsSummaries(store: map<string, Trace>, k: string)
    requires Summarizes(store)
    ensures Summarizes(store - {k})
  {
  }

  /** Adding a span keeps every trace filed under its id and summarised. */
  lemma AddSpanSummarizes(store: map<string, Trace>, span: Span)
    requires Summarizes(store)
    ensures Summarizes(AddSpan(store, span))
  {
    var base := if span.traceId in store then store[span.traceId] else NewTrace(span);
    var grown := base.(spans := base.spans + [span]);
    var r := store[span.traceId := Summarized(grown)];
    assert AddSpan(store, span) == r;
    forall k | k in r
      ensures r[k].traceId == k && r[k].spans != [] && r[k] == Summarized(r[k])
    {
      if k == span.traceId {
        SummarizedIdempotent(grown);
        assert r[k] == Summarized(grown);
      } else {
        assert r[k] == store[k];
      }
    }
  }

  class TraceStore {
    /** `traces`, by trace id. */
    var traces: map<string, Trace>
    const maxTraces: nat

    ghost predicate Valid()
      reads this
    {
      Summarizes(traces)
    }

    constructor (maxTraces: nat)
      ensures Valid() && traces == map[] && this.maxTraces == maxTraces
    {
      traces := map[];
      this.maxTraces := maxTraces;
    }

    /**
     * `ingest`: every span joins its trace in order, and the trace's
     * summary is recomputed; afterwards, if the store holds more than
     * `max_traces` traces, one of them (which one is left open) is dropped.
     */
    method Ingest(spans: seq<Span>)
      requires Valid()
      modifies this`traces
      ensures Valid()
      ensures |AddSpans(old(traces), spans)| <= maxTraces ==> traces == AddSpans(old(traces), spans)
      ensures |AddSpans(old(traces), spans)| > maxTraces ==>
        exists k :: k in AddSpans(old(traces), spans) && traces == AddSpans(old(traces), spans) - {k}
    {
      var store := traces;
      var i := 0;
      while i < |spans|
        invariant i <= |spans|
        invariant store == AddSpans(old(traces), spans[..i])
        invariant Summarizes(store)
      {
        var span := spans[i];
        var base := if span.traceId in store then store[span.traceId] else NewTrace(span);
        var updated := RecomputeSummary(base.(spans := base.spans + [span]));
        IngestStep(old(traces), spans, i, store);
        store := store[span.traceId := updated];
        i := i + 1;
      }
      ghost var full := store;
      assert full == AddSpans(old(traces), spans) by {
        assert spans[..i] == spans;
      }
      if |store| > maxTraces {
        var k :| k in store;
        DropKeepsSummaries(store, k);
        store := store - {k};
        assert k in full && store == full - {k};
      }
      traces := store;
    }

    /** One turn of the ingest loop keeps the store summarised and equal to the prefix added so far. */
    static lemma IngestStep(start: map<string, Trace>, spans: seq<Span>, i: nat, store: map<string, Trace>)
      requires i < |spans| && store == AddSpans(start, spans[..i]) && Summarizes(store)
      ensures var span := spans[i];
        var base := if span.traceId in store then store[span.traceId] else NewTrace(span);
        var next := store[span.traceId := Summarized(base.(spans := base.spans + [span]))];
        next == AddSpans(start, spans[..i + 1]) && Summarizes(next)
    {
      AddSpanSummarizes(store, spans[i]);
      AddSpansStep(start, spans, i);
    }

    /** `get_trace`. */
    function GetTrace(id: string): (r: Option<Trace>)
      reads this
      ensures r.Some? <==> id in traces
      ensures r.Some? ==> r.value == traces[id]
    {
      if id in traces then Some(traces[id]) else None
    }
  }

  // ---------------------------------------------------------------------------
  // Search
  // ---------------------------------------------------------------------------

  datatype SearchParams = SearchParams(
    service: Option<string>,
    operation: Option<string>,
    minDurationMs: Option<u64>,
    limit: Option<nat>,
    since: Option<int>)

  const DEFAULT_SEARCH_LIMIT: nat := 50

  /** The search filter: every given criterion holds (the operation matched case-insensitively). */
  predicate Matches(params: SearchParams, t: Trace)
  {
    (params.service.Some? ==> params.service.value in t.services)
    && (params.operation.Some? ==>
          exists i :: 0 <= i < |t.spans| && Contains(ToLower(t.spans[i].name), ToLower(params.operation.value)))
    && (params.since.Some? ==> t.startTime >= params.since.value)
    && (params.minDurationMs.Some? ==> t.durationMs >= params.minDurationMs.value)
  }

  function MatchesParams(params: SearchParams): Trace -> bool
  {
    (t: Trace) => Matches(params, t)
  }

  /** Newest first. */
  predicate SortedByStartDesc(ts: seq<Trace>)
  {
    forall i, j :: 0 <= i < j < |ts| ==> ts[i].startTime >= ts[j].startTime
  }

  /** Insert after every trace that starts no earlier (so equal starts keep their order). */
  function InsertByStart(t: Trace, sorted: seq<Trace>): (r: seq<Trace>)
    ensures multiset(r) == multiset(sorted) + multiset{t}
    ensures |r| == |sorted| + 1 && (r[0] == t || (|sorted| > 0 && r[0] == sorted[0]))
    decreases |sorted|
  {
    if |sorted| == 0 then [t]
    else if sorted[0].startTime >= t.startTime then
      assert sorted == [sorted[0]] + sorted[1..];
      [sorted[0]] + InsertByStart(t, sorted[1..])
    else [t] + sorted
  }

  /** Inserting into a newest-first list keeps it newest first. */
  lemma {:induction false} InsertByStartSorted(t: Trace, sorted: seq<Trace>)
    requires SortedByStartDesc(sorted)
    ensures SortedByStartDesc(InsertByStart(t, sorted))
    decreases |sorted|
  {
    if |sorted| > 0 && sorted[0].startTime >= t.startTime {
      var tail := sorted[1..];
      assert SortedByStartDesc(tail);
      InsertByStartSorted(t, tail);
      var rest := InsertByStart(t, tail);
      assert sorted[0].startTime >= rest[0].startTime;
      assert InsertByStart(t, sorted) == [sorted[0]] + rest;
      ConsSorted(sorted[0], rest);
    }
  }

  /** A trace that starts no earlier than the head of a newest-first list can go in front of it. */
  lemma ConsSorted(h: Trace, rest: seq<Trace>)
    requires SortedByStartDesc(rest) && (|rest| > 0 ==> h.startTime >= rest[0].startTime)
    ensures SortedByStartDesc([h] + rest)
  {
    var r := [h] + rest;
    forall i, j | 0 <= i < j < |r|
      ensures r[i].startTime >= r[j].startTime
    {
      assert r[j] == rest[j - 1];
      if i > 0 {
        assert r[i] == rest[i - 1];
      } else if j > 1 {
        assert rest[0].startTime >= rest[j - 1].startTime;
      }
    }
  }

  /** `sort_by(|a, b| b.start_time.cmp(&a.start_time))`, a stable sort, newest first. */
  function SortByStartDesc(ts: seq<Trace>): (r: seq<Trace>)
    ensures SortedByStartDesc(r)
    ensures multiset(r) == multiset(ts) && |r| == |ts|
    decreases |ts|
  {
    if |ts| == 0 then []
    else
      var sorted := SortByStartDesc(ts[..|ts| - 1]);
      InsertByStartSorted(ts[|ts| - 1], sorted);
      InitLast(ts);
      InsertByStart(ts[|ts| - 1], sorted)
  }

  /**
   * `search` over the store's traces (given in the map's iteration order):
   * the matching traces, newest first, at most `limit` (default 50) of them.
   */
  function Search(traces: seq<Trace>, params: SearchParams): (r: seq<Trace>)
  {
    var limit := if params.limit.Some? then params.limit.value else DEFAULT_SEARCH_LIMIT;
    var sorted := SortByStartDesc(Filter(MatchesParams(params), traces));
    if limit < |sorted| then sorted[..limit] else sorted
  }

  /**
   * The results are matching traces of the store, newest first: exactly
   * the limit of them, or every match when there are fewer; none appears
   * more often than among the matches, and no match left out starts later
   * than one returned.
   */
  lemma SearchMeaning(traces: seq<Trace>, params: SearchParams)
    ensures var r := Search(traces, params);
      var limit := if params.limit.Some? then params.limit.value else DEFAULT_SEARCH_LIMIT;
      var matches := Filter(MatchesParams(params), traces);
      && |r| == Min(limit, |matches|) && SortedByStartDesc(r)
      && (forall k :: 0 <= k < |r| ==> r[k] in traces && Matches(params, r[k]))
      && multiset(r) <= multiset(matches)
      && (|r| < limit ==> multiset(r) == multiset(matches))
      && (forall t :: multiset(r)[t] < multiset(matches)[t] ==>
            forall k :: 0 <= k < |r| ==> t.startTime <= r[k].startTime)
  {
    SearchResultsMatch(traces, params);
    SearchCutsSorted(traces, params);
    var limit := if params.limit.Some? then params.limit.value else DEFAULT_SEARCH_LIMIT;
    var matches := Filter(MatchesParams(params), traces);
    CutMeaning(Search(traces, params), SortByStartDesc(matches), matches, limit);
  }

  /** What a newest-first cut of the matches at `limit` keeps and leaves out. */
  lemma CutMeaning(r: seq<Trace>, sorted: seq<Trace>, matches: seq<Trace>, limit: nat)
    requires SortedByStartDesc(sorted) && multiset(sorted) == multiset(matches) && |sorted| == |matches|
    requires r == sorted[..Min(limit, |matches|)]
    ensures |r| == Min(limit, |matches|) && SortedByStartDesc(r)
    ensures multiset(r) <= multiset(matches)
    ensures |r| < limit ==> multiset(r) == multiset(matches)
    ensures forall t :: multiset(r)[t] < multiset(matches)[t] ==>
      forall k :: 0 <= k < |r| ==> t.startTime <= r[k].startTime
  {
    LeftOutAreOlder(sorted, |r|);
  }

  /** `search` cuts the sorted matches at the limit. */
  lemma SearchCutsSorted(traces: seq<Trace>, params: SearchParams)
    ensures var limit := if params.limit.Some? then params.limit.value else DEFAULT_SEARCH_LIMIT;
      var matches := Filter(MatchesParams(params), traces);
      var sorted := SortByStartDesc(matches);
      && Search(traces, params) == sorted[..Min(limit, |matches|)]
      && multiset(sorted) == multiset(matches) && |sorted| == |matches|
  {
    var limit := if params.limit.Some? then params.limit.value else DEFAULT_SEARCH_LIMIT;
    var matches := Filter(MatchesParams(params), traces);
    var sorted := SortByStartDesc(matches);
    var r := Search(traces, params);
    if limit < |sorted| {
      assert r == sorted[..limit];
    } else {
      assert r == sorted == sorted[..|sorted|];
    }
  }

  /** Cutting a newest-first list keeps a part of it, and what is cut off is no newer. */
  lemma LeftOutAreOlder(sorted: seq<Trace>, n: nat)
    requires SortedByStartDesc(sorted) && n <= |sorted|
    ensures SortedByStartDesc(sorted[..n])
    ensures multiset(sorted[..n]) <= multiset(sorted)
    ensures n == |sorted| ==> sorted[..n] == sorted
    ensures forall t :: multiset(sorted[..n])[t] < multiset(sorted)[t] ==>
      forall k :: 0 <= k < n ==> t.startTime <= sorted[k].startTime
  {
    assert sorted == sorted[..n] + sorted[n..];
    forall t | multiset(sorted[..n])[t] < multiset(sorted)[t]
      ensures forall k :: 0 <= k < n ==> t.startTime <= sorted[k].startTime
    {
      assert t in multiset(sorted[n..]);
      var j :| 0 <= j < |sorted| - n && sorted[n..][j] == t;
      assert sorted[n + j] == t;
    }
  }

  /** Every trace `search` returns is a trace of the store that matches. */
  lemma SearchResultsMatch(traces: seq<Trace>, params: SearchParams)
    ensures var r := Search(traces, params);
      forall k :: 0 <= k < |r| ==> r[k] in traces && Matches(params, r[k])
  {
    var matching := Filter(MatchesParams(params), traces);
    var sorted := SortByStartDesc(matching);
    var r := Search(traces, params);
    FilterMembers(MatchesParams(params), traces);
    forall k | 0 <= k < |r|
      ensures r[k] in traces && Matches(params, r[k])
    {
      assert r[k] == sorted[k];
      assert sorted[k] in multiset(matching);
    }
  }

  // ---------------------------------------------------------------------------
  // Service dependency graph
  // ---------------------------------------------------------------------------

  /**
   * The span a `span_id → span` map built from `spans` holds for `id`:
   * collecting into a map keeps the last span with that id.
   */
  function LastWithSpanId(spans: seq<Span>, id: string): (r: Option<Span>)
    ensures r.Some? ==> r.value in spans && r.value.spanId == id
    ensures r.None? ==> forall i :: 0 <= i < |spans| ==> spans[i].spanId != id
    decreases |spans|
  {
    if |spans| == 0 then None
    else if spans[|spans| - 1].spanId == id then Some(spans[|spans| - 1])
    else LastWithSpanId(spans[..|spans| - 1], id)
  }

  /** The span found is the last one with the id: no later span has it. */
  lemma {:induction false} LastWithSpanIdIsLast(spans: seq<Span>, id: string)
    ensures var r := LastWithSpanId(spans, id);
      r.Some? ==> exists j :: 0 <= j < |spans| && spans[j] == r.value &&
                    (forall k :: j < k < |spans| ==> spans[k].spanId != id)
    decreases |spans|
  {
    var n := |spans|;
    if n > 0 {
      if spans[n - 1].spanId == id {
        assert spans[n - 1] == LastWithSpanId(spans, id).value;
      } else {
        var init := spans[..n - 1];
        LastWithSpanIdIsLast(init, id);
        if LastWithSpanId(init, id).Some? {
          var j :| 0 <= j < |init| && init[j] == LastWithSpanId(init, id).value &&
                   (forall k :: j < k < |init| ==> init[k].spanId != id);
          assert spans[j] == init[j];
          assert forall k :: j < k < n ==> spans[k].spanId != id by {
            forall k | j < k < n ensures spans[k].spanId != id {
              if k < n - 1 {
                assert spans[k] == init[k];
              }
            }
          }
        }
      }
    }
  }

  /**
   * The edge a span contributes within its trace: from its parent's
   * service to its own, when the parent is a span of the same trace and
   * the two services differ.
   */
  function LinkedEdge(all: seq<Span>, s: Span): (r: Option<(string, string)>)
    ensures r.Some? ==> r.value.0 != r.value.1 && r.value.1 == s.serviceName && s.parentSpanId.Some?
    ensures r.Some? ==> exists p :: p in all && Some(p.spanId) == s.parentSpanId && p.serviceName == r.value.0
  {
    if s.parentSpanId.None? then None
    else match LastWithSpanId(all, s.parentSpanId.value)
      case None => None
      case Some(p) => if p.serviceName != s.serviceName then Some((p.serviceName, s.serviceName)) else None
  }

  function LinksTo(all: seq<Span>, e: (string, string)): Span -> bool
  {
    (s: Span) => LinkedEdge(all, s) == Some(e)
  }

  /** A count in the edge map, 0 when absent. */
  function CountOf(m: map<(string, string), nat>, e: (string, string)): nat
  {
    if e in m then m[e] else 0
  }

  /** The edge counts after the spans `spans` of a trace whose spans are `all`. */
  function CountTraceEdges(acc: map<(string, string), nat>, all: seq<Span>, spans: seq<Span>): map<(string, string), nat>
    decreases |spans|
  {
    if |spans| == 0 then acc
    else
      var before := CountTraceEdges(acc, all, spans[..|spans| - 1]);
      match LinkedEdge(all, spans[|spans| - 1])
      case None => before
      case Some(e) => before[e := CountOf(before, e) + 1]
  }

  /** `get_service_graph`'s counting loop over the traces (in the map's iteration order). */
  function EdgeCounts(traces: seq<Trace>): map<(string, string), nat>
    decreases |traces|
  {
    if |traces| == 0 then map[]
    else
      var t := traces[|traces| - 1];
      CountTraceEdges(EdgeCounts(traces[..|traces| - 1]), t.spans, t.spans)
  }

  /** Each edge's count grows by the number of the trace's spans linked along it. */
  lemma {:induction false} CountTraceEdgesCounts(acc: map<(string, string), nat>, all: seq<Span>, spans: seq<Span>, e: (string, string))
    ensures CountOf(CountTraceEdges(acc, all, spans), e) == CountOf(acc, e) + |Filter(LinksTo(all, e), spans)|
    ensures e in CountTraceEdges(acc, all, spans) ==> e in acc || Filter(LinksTo(all, e), spans) != []
    decreases |spans|
  {
    if |spans| > 0 {
      var init, last := spans[..|spans| - 1], spans[|spans| - 1];
      InitLast(spans);
      CountTraceEdgesCounts(acc, all, init, e);
      FilterAppend(LinksTo(all, e), init, [last]);
    }
  }

  /** The number of spans linked along `e`, summed over the traces: the reference count. */
  function LinkedCount(traces: seq<Trace>, e: (string, string)): nat
    decreases |traces|
  {
    if |traces| == 0 then 0
    else
      var t := traces[|traces| - 1];
      LinkedCount(traces[..|traces| - 1], e) + |Filter(LinksTo(t.spans, e), t.spans)|
  }

  /** The edge map's count of `e` is the reference count, and `e` is a key exactly when it is positive. */
  lemma {:induction false} EdgeCountsExact(traces: seq<Trace>, e: (string, string))
    ensures CountOf(EdgeCounts(traces), e) == LinkedCount(traces, e)
    ensures e in EdgeCounts(traces) <==> LinkedCount(traces, e) >= 1
    decreases |traces|
  {
    if |traces| > 0 {
      var init, t := traces[..|traces| - 1], traces[|traces| - 1];
      EdgeCountsExact(init, e);
      CountTraceEdgesCounts(EdgeCounts(init), t.spans, t.spans, e);
    }
  }

  /** A positive reference count of `e` has a span of some trace linking along `e`. */
  lemma {:induction false} LinkedCountWitness(traces: seq<Trace>, e: (string, string))
    ensures LinkedCount(traces, e) >= 1 ==>
      exists k, s :: 0 <= k < |traces| && s in traces[k].spans && LinkedEdge(traces[k].spans, s) == Some(e)
    decreases |traces|
  {
    if |traces| > 0 && LinkedCount(traces, e) >= 1 {
      var init, t := traces[..|traces| - 1], traces[|traces| - 1];
      var links := Filter(LinksTo(t.spans, e), t.spans);
      if links != [] {
        FilterMembers(LinksTo(t.spans, e), t.spans);
        assert links[0] in links;
        assert LinkedEdge(t.spans, links[0]) == Some(e);
        assert traces[|traces| - 1] == t;
      } else {
        LinkedCountWitness(init, e);
        var k, s :| 0 <= k < |init| && s in init[k].spans && LinkedEdge(init[k].spans, s) == Some(e);
        assert traces[k] == init[k];
      }
    }
  }

  /** A span of trace `k` linking along `e` is counted. */
  lemma {:induction false} LinkedSpanCounted(traces: seq<Trace>, e: (string, string), k: nat, s: Span)
    requires k < |traces| && s in traces[k].spans && LinkedEdge(traces[k].spans, s) == Some(e)
    ensures LinkedCount(traces, e) >= 1
    decreases |traces|
  {
    var init, t := traces[..|traces| - 1], traces[|traces| - 1];
    if k == |traces| - 1 {
      FilterMembers(LinksTo(t.spans, e), t.spans);
      assert LinksTo(t.spans, e)(s);
      assert s in Filter(LinksTo(t.spans, e), t.spans);
    } else {
      assert init[k] == traces[k];
      LinkedSpanCounted(init, e, k, s);
    }
  }

  /**
   * The service graph counts, for every edge, the spans linked along it
   * over all traces; an edge appears exactly when some span links two
   * different services of the same trace.
   */
  lemma EdgeCountsMeaning(traces: seq<Trace>, e: (string, string))
    ensures CountOf(EdgeCounts(traces), e) == LinkedCount(traces, e)
    ensures e in EdgeCounts(traces) <==> LinkedCount(traces, e) >= 1
    ensures e in EdgeCounts(traces) ==> e.0 != e.1
    ensures e in EdgeCounts(traces) <==>
      exists k, s :: 0 <= k < |traces| && s in traces[k].spans && LinkedEdge(traces[k].spans, s) == Some(e)
  {
    EdgeCountsExact(traces, e);
    LinkedCountWitness(traces, e);
    if exists k, s :: 0 <= k < |traces| && s in traces[k].spans && LinkedEdge(traces[k].spans, s) == Some(e) {
      var k, s :| 0 <= k < |traces| && s in traces[k].spans && LinkedEdge(traces[k].spans, s) == Some(e);
      LinkedSpanCounted(traces, e, k, s);
    }
  }
}
