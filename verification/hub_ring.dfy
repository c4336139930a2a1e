/**
 * The hub's handlers that walk the index ring of a journal through its
 * cursor: listing events in the occupied window, writing simulated events
 * at the head, and replaying a range of one journal's slots into another.
 */
module HubRing {
  import opened Wrappers
  import opened Widths
  import opened SeqOps
  import opened CausalEvents
  import opened JournalStore
  import opened RingCursor
  import opened HubRoutes

  // ---------------------------------------------------------------------------
  // Runs of ring positions
  // ---------------------------------------------------------------------------

  /** A ring position `x` past the start, wrapped once at `cap`. */
  function Wrap(x: nat, cap: nat): (r: nat)
    requires x < 2 * cap
    ensures r < cap
  {
    if x < cap then x else x - cap
  }

  /** Slot `k` of a run of positions that starts at `start`. */
  function RunSlot(start: nat, k: nat, cap: nat): (r: nat)
    requires start < cap && k < cap
    ensures r < cap
  {
    Wrap(start + k, cap)
  }

  /** Slot `k` of a run is the source's `(start + k) % cap`. */
  lemma RunSlotIsMod(start: nat, k: nat, cap: nat)
    requires start < cap && k < cap
    ensures RunSlot(start, k, cap) == (start + k) % cap
  {
    if start + k >= cap {
      ModOnce(start + k, cap);
    } else {
      ModSmall(start + k, cap);
    }
  }

  lemma ModSmall(x: nat, c: nat)
    requires x < c
    ensures x % c == x
  {
  }

  lemma ModOnce(x: nat, c: nat)
    requires 0 < c <= x < 2 * c
    ensures x % c == x - c
  {
    var q := x / c;
    assert x == q * c + x % c;
  }

  /** The next slot of a run is one cursor step (`next_pos`) from the current one. */
  lemma RunSlotStep(start: nat, k: nat, cap: nat)
    requires start < cap && k + 1 < cap
    ensures RunSlot(start, k + 1, cap) == if RunSlot(start, k, cap) + 1 < cap then RunSlot(start, k, cap) + 1 else 0
  {
  }

  /** Fewer than `cap` steps never revisit a slot. */
  lemma RunSlotsDistinct(start: nat, cap: nat, j: nat, k: nat)
    requires start < cap && j < k < cap
    ensures RunSlot(start, j, cap) != RunSlot(start, k, cap)
  {
  }

  // ---------------------------------------------------------------------------
  // Reading and writing runs of the ring
  // ---------------------------------------------------------------------------

  /**
   * The `n` slots from `tail` onwards, wrapping at the end of the ring,
   * each with the event it holds: the order in which the ring is read.
   */
  function Window(ring: seq<CausalEvent>, tail: nat, n: nat): (r: seq<(nat, CausalEvent)>)
    requires tail < |ring| && n <= |ring|
    ensures |r| == n
  {
    if n == 0 then []
    else
      var slot := RunSlot(tail, n - 1, |ring|);
      Window(ring, tail, n - 1) + [(slot, ring[slot])]
  }

  /** Element `i` of the window is slot `(tail + i) % cap` with its event. */
  lemma {:induction false} WindowAt(ring: seq<CausalEvent>, tail: nat, n: nat, i: nat)
    requires tail < |ring| && i < n <= |ring|
    ensures Window(ring, tail, n)[i] == (RunSlot(tail, i, |ring|), ring[RunSlot(tail, i, |ring|)])
  {
    if i < n - 1 {
      WindowAt(ring, tail, n - 1, i);
    }
  }

  /**
   * The ring after writing `es[k]` into slot `(head + k) % cap` for each
   * `k` in turn: what a run of `advance_head` + `write_event_at` leaves.
   */
  function WriteRun(ring: seq<CausalEvent>, head: nat, es: seq<CausalEvent>): (r: seq<CausalEvent>)
    requires head < |ring| && |es| <= |ring|
    ensures |r| == |ring|
  {
    if |es| == 0 then ring
    else WriteRun(ring, head, es[..|es| - 1])[RunSlot(head, |es| - 1, |ring|) := es[|es| - 1]]
  }

  lemma WriteRunSnoc(ring: seq<CausalEvent>, head: nat, es: seq<CausalEvent>, e: CausalEvent)
    requires head < |ring| && |es| < |ring|
    ensures WriteRun(ring, head, es + [e]) == WriteRun(ring, head, es)[RunSlot(head, |es|, |ring|) := e]
  {
    assert (es + [e])[..|es|] == es;
  }

  /** After a run of writes, slot `k` of the run holds `es[k]`. */
  lemma {:induction false} WriteRunHit(ring: seq<CausalEvent>, head: nat, es: seq<CausalEvent>, k: nat)
    requires head < |ring| && k < |es| <= |ring|
    ensures WriteRun(ring, head, es)[RunSlot(head, k, |ring|)] == es[k]
  {
    var n := |es| - 1;
    if k < n {
      WriteRunHit(ring, head, es[..n], k);
      RunSlotsDistinct(head, |ring|, k, n);
    }
  }

  /** A slot outside the run keeps its event. */
  lemma {:induction false} WriteRunMiss(ring: seq<CausalEvent>, head: nat, es: seq<CausalEvent>, slot: nat)
    requires head < |ring| && |es| <= |ring| && slot < |ring|
    requires forall k :: 0 <= k < |es| ==> RunSlot(head, k, |ring|) != slot
    ensures WriteRun(ring, head, es)[slot] == ring[slot]
  {
    if |es| > 0 {
      var n := |es| - 1;
      assert RunSlot(head, n, |ring|) != slot;
      WriteRunMiss(ring, head, es[..n], slot);
    }
  }

  /** A shorter window is a prefix of a longer one. */
  lemma {:induction false} WindowPrefix(ring: seq<CausalEvent>, tail: nat, n: nat, i: nat)
    requires tail < |ring| && i <= n <= |ring|
    ensures Window(ring, tail, n)[..i] == Window(ring, tail, i)
  {
    if i < n {
      WindowPrefix(ring, tail, n - 1, i);
      assert Window(ring, tail, n)[..n - 1] == Window(ring, tail, n - 1);
    }
  }

  /**
   * Reading back a run from where it was written, for as many slots as
   * were written, lists exactly the events written, in order.
   */
  lemma ReadBackRun(ring: seq<CausalEvent>, head: nat, es: seq<CausalEvent>, k: nat)
    requires head < |ring| && k < |es| <= |ring|
    ensures Window(WriteRun(ring, head, es), head, |es|)[k] == (RunSlot(head, k, |ring|), es[k])
  {
    WindowAt(WriteRun(ring, head, es), head, |es|, k);
    WriteRunHit(ring, head, es, k);
  }

  // ---------------------------------------------------------------------------
  // api_events
  // ---------------------------------------------------------------------------

  const DEFAULT_EVENT_LIMIT: nat := 50
  const MAX_EVENT_LIMIT: nat := 500

  datatype EventQueryParams = EventQueryParams(
    offset: Option<nat>,
    limit: Option<nat>,
    nodeId: Option<u32>,
    streamId: Option<u16>,
    tsMin: Option<u64>,
    tsMax: Option<u64>,
    query: Option<string>)

  /** `limit.unwrap_or(50).min(500)`. */
  function EffectiveLimit(limit: Option<nat>): (r: nat)
    ensures r <= MAX_EVENT_LIMIT
    ensures limit.None? ==> r == DEFAULT_EVENT_LIMIT
    ensures limit.Some? ==> r == Min(limit.value, MAX_EVENT_LIMIT)
  {
    match limit
    case None => DEFAULT_EVENT_LIMIT
    case Some(l) => if l < MAX_EVENT_LIMIT then l else MAX_EVENT_LIMIT
  }

  /** An occupied slot the request keeps: not empty, and passing each filter that is set. */
  predicate Selected(p: EventQueryParams, e: CausalEvent)
  {
    !IsEmptyEvent(e)
    && (p.nodeId.None? || e.nodeId == p.nodeId.value)
    && (p.streamId.None? || e.streamId == p.streamId.value)
    && (p.tsMin.None? || e.lamportTs >= p.tsMin.value)
    && (p.tsMax.None? || e.lamportTs <= p.tsMax.value)
    && (p.query.None? || EvaluateDsl(p.query.value, e))
  }

  function Keeps(p: EventQueryParams): ((nat, CausalEvent)) -> bool
  {
    (x: (nat, CausalEvent)) => Selected(p, x.1)
  }

  datatype EventRecord = EventRecord(
    slot: nat,
    lamportTs: u64,
    nodeId: u32,
    streamId: u16,
    payloadOffset: u64,
    checksum: u32,
    checkpoint: bool)

  /** The listed form of a slot's event. */
  function ToRecord(x: (nat, CausalEvent)): (r: EventRecord)
    ensures r.slot == x.0 && r.lamportTs == x.1.lamportTs && r.nodeId == x.1.nodeId
    ensures r.streamId == x.1.streamId && r.payloadOffset == x.1.payloadOffset && r.checksum == x.1.checksum
    ensures r.checkpoint == IsCheckpoint(x.1)
  {
    EventRecord(x.0, x.1.lamportTs, x.1.nodeId, x.1.streamId, x.1.payloadOffset, x.1.checksum, IsCheckpoint(x.1))
  }

  /** The listed form of each slot's event, in order. */
  function Records(xs: seq<(nat, CausalEvent)>): (r: seq<EventRecord>)
    ensures |r| == |xs|
  {
    if |xs| == 0 then [] else Records(xs[..|xs| - 1]) + [ToRecord(xs[|xs| - 1])]
  }

  lemma {:induction false} RecordsAt(xs: seq<(nat, CausalEvent)>, i: nat)
    requires i < |xs|
    ensures Records(xs)[i] == ToRecord(xs[i])
  {
    if i < |xs| - 1 {
      RecordsAt(xs[..|xs| - 1], i);
    }
  }

  lemma RecordsSnoc(xs: seq<(nat, CausalEvent)>, x: (nat, CausalEvent))
    ensures Records(xs + [x]) == Records(xs) + [ToRecord(x)]
  {
    assert (xs + [x])[..|xs|] == xs;
  }

  /** What `api_events` lists: the page of selected events in the window from the tail. */
  function Listed(ring: seq<CausalEvent>, tail: nat, total: nat, p: EventQueryParams, offset: nat, limit: nat)
    : (r: seq<(nat, CausalEvent)>)
    requires tail < |ring| && total <= |ring|
    ensures |r| <= limit
  {
    Page(Filter(Keeps(p), Window(ring, tail, total)), offset, limit)
  }

  /**
   * Once a full page has been collected from the first `i` slots, the
   * remaining slots cannot change the page: the scan may stop there.
   */
  lemma ListedStopsWhenFull(ring: seq<CausalEvent>, tail: nat, total: nat, i: nat, p: EventQueryParams,
                            offset: nat, limit: nat)
    requires tail < |ring| && i <= total <= |ring|
    requires |Listed(ring, tail, i, p, offset, limit)| >= limit
    ensures Listed(ring, tail, total, p, offset, limit) == Listed(ring, tail, i, p, offset, limit)
  {
    if limit > 0 {
      var w := Window(ring, tail, total);
      WindowPrefix(ring, tail, total, i);
      assert w == w[..i] + w[i..];
      FilterAppend(Keeps(p), w[..i], w[i..]);
      PageFull(Filter(Keeps(p), w[..i]), Filter(Keeps(p), w[i..]), offset, limit);
    }
  }

  /** Scanning one more slot appends its entry to the matches, and to the page while it has room. */
  lemma ListedStep(ring: seq<CausalEvent>, tail: nat, i: nat, p: EventQueryParams, offset: nat, limit: nat)
    requires tail < |ring| && i < |ring|
    requires |Listed(ring, tail, i, p, offset, limit)| < limit
    ensures var item := (RunSlot(tail, i, |ring|), ring[RunSlot(tail, i, |ring|)]);
            var before := Filter(Keeps(p), Window(ring, tail, i));
            Filter(Keeps(p), Window(ring, tail, i + 1)) == before + (if Selected(p, item.1) then [item] else [])
            && Listed(ring, tail, i + 1, p, offset, limit)
               == Listed(ring, tail, i, p, offset, limit) + (if Selected(p, item.1) && |before| >= offset then [item] else [])
  {
    var item := (RunSlot(tail, i, |ring|), ring[RunSlot(tail, i, |ring|)]);
    var before := Filter(Keeps(p), Window(ring, tail, i));
    assert Window(ring, tail, i + 1) == Window(ring, tail, i) + [item];
    FilterAppend(Keeps(p), Window(ring, tail, i), [item]);
    assert Filter(Keeps(p), [item]) == if Selected(p, item.1) then [item] else [];
    if Selected(p, item.1) {
      PageSnoc(before, item, offset, limit);
    }
  }

  /**
   * Every listed event sits in one of the `total` slots from the tail, is
   * the event that slot holds, and passes the request's filters.
   */
  lemma ListedAreSelected(ring: seq<CausalEvent>, tail: nat, total: nat, p: EventQueryParams, offset: nat, limit: nat,
                          i: nat)
    requires tail < |ring| && total <= |ring|
    requires i < |Listed(ring, tail, total, p, offset, limit)|
    ensures var x := Listed(ring, tail, total, p, offset, limit)[i];
            (exists k :: 0 <= k < total && x.0 == RunSlot(tail, k, |ring|))
            && x.0 < |ring| && x.1 == ring[x.0] && Selected(p, x.1)
  {
    var w := Window(ring, tail, total);
    var kept := Filter(Keeps(p), w);
    var x := Listed(ring, tail, total, p, offset, limit)[i];
    assert x == kept[offset + i];
    FilterMembers(Keeps(p), w);
    assert x in kept;
    var k :| 0 <= k < |w| && w[k] == x;
    WindowAt(ring, tail, total, k);
  }

  /**
   * `api_events`: scans the `len` occupied slots from `tail`, skips empty
   * and filtered-out events, skips the first `offset` matches and returns at
   * most `limit` of the rest in ring order; `total` is the cursor's length.
   */
  method ApiEvents(journal: Journal, cursor: Cursor, p: EventQueryParams)
    returns (records: seq<EventRecord>, total: nat, offset: nat, limit: nat)
    requires journal.Valid() && cursor.Valid()
    requires cursor.capacity == journal.RingCapacity()
    ensures total == cursor.Len()
    ensures offset == (if p.offset.Some? then p.offset.value else 0)
    ensures limit == EffectiveLimit(p.limit)
    ensures records == Records(Listed(journal.ring, cursor.tail, total, p, offset, limit))
  {
    offset := if p.offset.Some? then p.offset.value else 0;
    limit := EffectiveLimit(p.limit);
    records, total := ScanEvents(journal, cursor, p, offset, limit);
  }

  /** The scan of `api_events` for a given `offset` and `limit`. */
  method ScanEvents(journal: Journal, cursor: Cursor, p: EventQueryParams, offset: nat, limit: nat)
    returns (records: seq<EventRecord>, total: nat)
    requires journal.Valid() && cursor.Valid()
    requires cursor.capacity == journal.RingCapacity()
    ensures total == cursor.Len()
    ensures records == Records(Listed(journal.ring, cursor.tail, total, p, offset, limit))
  {
    total := cursor.Len();
    ghost var ring := journal.ring;
    var tail := cursor.tail;
    records := [];
    var skipped := 0;
    var i := 0;
    while i < total && |records| < limit
      invariant i <= total
      invariant skipped == Min(offset, |Filter(Keeps(p), Window(ring, tail, i))|)
      invariant records == Records(Listed(ring, tail, i, p, offset, limit))
    {
      skipped, records := ScanSlot(journal, tail, i, p, offset, limit, skipped, records);
      i := i + 1;
    }
    if i < total {
      ListedStopsWhenFull(ring, tail, total, i, p, offset, limit);
    } else {
      assert i == total;
    }
  }

  /**
   * One iteration of the `api_events` scan: slot `(tail + i) % cap` is read,
   * and a selected event is either skipped (while fewer than `offset` were)
   * or appended to the page. With `skipped` and `records` right for the
   * first `i` slots, the results are right for the first `i + 1`.
   */
  method ScanSlot(journal: Journal, tail: nat, i: nat, p: EventQueryParams, offset: nat, limit: nat,
                  skipped: nat, records: seq<EventRecord>)
    returns (skipped': nat, records': seq<EventRecord>)
    requires journal.Valid() && tail < journal.RingCapacity() && i < journal.RingCapacity()
    requires skipped == Min(offset, |Filter(Keeps(p), Window(journal.ring, tail, i))|)
    requires records == Records(Listed(journal.ring, tail, i, p, offset, limit)) && |records| < limit
    ensures skipped' == Min(offset, |Filter(Keeps(p), Window(journal.ring, tail, i + 1))|)
    ensures records' == Records(Listed(journal.ring, tail, i + 1, p, offset, limit))
  {
    ghost var ring := journal.ring;
    var slot: nat := (tail + i) % journal.RingCapacity();
    RunSlotIsMod(tail, i, |ring|);
    var event := journal.ReadEventAt(slot);
    ghost var page := Listed(ring, tail, i, p, offset, limit);
    ListedStep(ring, tail, i, p, offset, limit);
    skipped', records' := skipped, records;
    if Selected(p, event) {
      if skipped < offset {
        skipped' := skipped + 1;
      } else {
        RecordsSnoc(page, (slot, event));
        records' := records + [ToRecord((slot, event))];
      }
    }
    if records' == records {
      assert page + [] == page;
    }
  }

  // ---------------------------------------------------------------------------
  // api_simulate
  // ---------------------------------------------------------------------------

  const DEFAULT_SIMULATE_COUNT: nat := 100
  const MAX_SIMULATE_COUNT: nat := 10000

  /** `count.unwrap_or(100).min(10000)`. */
  function SimulateCount(count: Option<nat>): (r: nat)
    ensures r <= MAX_SIMULATE_COUNT
    ensures count.None? ==> r == DEFAULT_SIMULATE_COUNT
    ensures count.Some? ==> r == Min(count.value, MAX_SIMULATE_COUNT)
  {
    match count
    case None => DEFAULT_SIMULATE_COUNT
    case Some(c) => if c < MAX_SIMULATE_COUNT then c else MAX_SIMULATE_COUNT
  }

  /**
   * The `i`-th simulated event, written into `slot`: Lamport value
   * `base_ts + i + 1`, nodes cycling through five values from `base_node`,
   * streams through three from `base_stream` (each addition wrapping at its
   * width), the slot's byte offset as payload offset and checksum 0.
   */
  function SimulatedEvent(baseTs: u64, baseNode: u32, baseStream: u16, i: nat, slot: nat): (e: CausalEvent)
    requires i < MAX_SIMULATE_COUNT && slot * EVENT_SIZE < U64_MODULUS
    ensures e.flags == 0 && e.checksum == 0 && e.payloadOffset == slot * EVENT_SIZE
    ensures e.lamportTs == (baseTs + i + 1) % U64_MODULUS
  {
    New(WrapAdd64(baseTs, i + 1), WrapAdd32(baseNode, i % 5), WrapAdd16(baseStream, i % 3), slot * EVENT_SIZE, 0)
  }

  /** The first `n` simulated events, the `k`-th destined for slot `(head + k) % cap`. */
  function SimulatedRun(baseTs: u64, baseNode: u32, baseStream: u16, head: nat, cap: nat, n: nat): (r: seq<CausalEvent>)
    requires head < cap && cap * EVENT_SIZE < U64_MODULUS && n <= cap && n <= MAX_SIMULATE_COUNT
    ensures |r| == n
  {
    if n == 0 then []
    else SimulatedRun(baseTs, baseNode, baseStream, head, cap, n - 1)
         + [SimulatedEvent(baseTs, baseNode, baseStream, n - 1, RunSlot(head, n - 1, cap))]
  }

  lemma {:induction false} SimulatedRunAt(baseTs: u64, baseNode: u32, baseStream: u16, head: nat, cap: nat, n: nat, k: nat)
    requires head < cap && cap * EVENT_SIZE < U64_MODULUS && n <= cap && n <= MAX_SIMULATE_COUNT && k < n
    ensures SimulatedRun(baseTs, baseNode, baseStream, head, cap, n)[k]
            == SimulatedEvent(baseTs, baseNode, baseStream, k, RunSlot(head, k, cap))
  {
    if k < n - 1 {
      SimulatedRunAt(baseTs, baseNode, baseStream, head, cap, n - 1, k);
    }
  }

  /**
   * Simulated timestamps count up from `base_ts + 1` with no gap, so unless
   * they wrap past `u64::MAX` they increase and no simulated event reads as
   * an empty slot.
   */
  lemma SimulatedEventsIncrease(baseTs: u64, baseNode: u32, baseStream: u16, head: nat, cap: nat, n: nat, j: nat, k: nat)
    requires head < cap && cap * EVENT_SIZE < U64_MODULUS && n <= cap && n <= MAX_SIMULATE_COUNT
    requires baseTs + n < U64_MODULUS
    requires j < k < n
    ensures var r := SimulatedRun(baseTs, baseNode, baseStream, head, cap, n);
            r[k].lamportTs == baseTs + k + 1 && !IsEmptyEvent(r[k]) && r[j].lamportTs < r[k].lamportTs
  {
    SimulatedRunAt(baseTs, baseNode, baseStream, head, cap, n, j);
    SimulatedRunAt(baseTs, baseNode, baseStream, head, cap, n, k);
  }

  /**
   * `api_simulate`: up to `count` times, stops at a full cursor, otherwise
   * claims the head slot and writes the next simulated event into it; then
   * bumps the global event and byte counters by what it created.
   * `base_ts` is the event counter's value on entry.
   */
  method ApiSimulate(journal: Journal, cursor: Cursor, count: Option<nat>, nodeId: Option<u32>, streamId: Option<u16>,
                     eventsProcessed: u64, bytesProcessed: u64)
    returns (created: nat, headAfter: nat, eventsAfter: u64, bytesAfter: u64)
    requires journal.Valid() && cursor.Valid()
    requires cursor.capacity == journal.RingCapacity()
    modifies journal`ring, journal.mmap, cursor
    ensures journal.Valid() && cursor.Valid() && cursor.tail == old(cursor.tail)
    ensures created == Min(SimulateCount(count), cursor.capacity - 1 - old(cursor.Len()))
    ensures cursor.head == RunSlot(old(cursor.head), created, cursor.capacity) && headAfter == cursor.head
    ensures cursor.Len() == old(cursor.Len()) + created
    ensures journal.ring == WriteRun(old(journal.ring), old(cursor.head),
              SimulatedRun(eventsProcessed, if nodeId.Some? then nodeId.value else 1,
                           if streamId.Some? then streamId.value else 0,
                           old(cursor.head), cursor.capacity, created))
    ensures journal.BlobStorage() == old(journal.BlobStorage())
    ensures eventsAfter == WrapAdd64(eventsProcessed, created)
    ensures bytesAfter == WrapAdd64(bytesProcessed, created * EVENT_SIZE)
  {
    var baseNode: u32 := if nodeId.Some? then nodeId.value else 1;
    var baseStream: u16 := if streamId.Some? then streamId.value else 0;
    created := WriteSimulated(journal, cursor, SimulateCount(count), eventsProcessed, baseNode, baseStream);
    headAfter := cursor.head;
    eventsAfter := WrapAdd64(eventsProcessed, created);
    bytesAfter := WrapAdd64(bytesProcessed, created * EVENT_SIZE);
  }

  /** The loop of `api_simulate`: at most `n` simulated events written at the head. */
  method WriteSimulated(journal: Journal, cursor: Cursor, n: nat, baseTs: u64, baseNode: u32, baseStream: u16)
    returns (created: nat)
    requires journal.Valid() && cursor.Valid()
    requires cursor.capacity == journal.RingCapacity() && n <= MAX_SIMULATE_COUNT
    modifies journal`ring, journal.mmap, cursor
    ensures journal.Valid() && cursor.Valid() && cursor.tail == old(cursor.tail)
    ensures created == Min(n, cursor.capacity - 1 - old(cursor.Len()))
    ensures cursor.head == RunSlot(old(cursor.head), created, cursor.capacity)
    ensures cursor.Len() == old(cursor.Len()) + created
    ensures journal.ring == WriteRun(old(journal.ring), old(cursor.head),
              SimulatedRun(baseTs, baseNode, baseStream, old(cursor.head), cursor.capacity, created))
    ensures journal.BlobStorage() == old(journal.BlobStorage())
  {
    var cap := cursor.capacity;
    ghost var ring0 := journal.ring;
    ghost var blob0 := journal.BlobStorage();
    ghost var head0 := cursor.head;
    ghost var len0 := cursor.Len();
    ghost var free := cap - 1 - len0;
    assert cap * EVENT_SIZE < U64_MODULUS;
    created := 0;
    var i := 0;
    while i < n
      invariant i == created <= n && created <= free
      invariant journal.Valid() && journal.BlobStorage() == blob0
      invariant cursor.Valid() && cursor.capacity == cap && cursor.tail == old(cursor.tail)
      invariant cursor.head == RunSlot(head0, created, cap) && cursor.Len() == len0 + created
      invariant journal.ring == WriteRun(ring0, head0, SimulatedRun(baseTs, baseNode, baseStream, head0, cap, created))
    {
      if cursor.IsFull() {
        break;
      }
      AppendSimulated(journal, cursor, baseTs, baseNode, baseStream, created, ring0, head0, len0);
      created := created + 1;
      i := i + 1;
    }
  }

  /** One iteration of the `api_simulate` loop while the ring has room: the `created`-th simulated event at the head. */
  method AppendSimulated(journal: Journal, cursor: Cursor, baseTs: u64, baseNode: u32, baseStream: u16, created: nat,
                         ghost ring0: seq<CausalEvent>, ghost head0: nat, ghost len0: nat)
    requires journal.Valid() && cursor.Valid() && !cursor.IsFull()
    requires cursor.capacity == journal.RingCapacity() && created < MAX_SIMULATE_COUNT
    requires head0 < cursor.capacity && |ring0| == cursor.capacity && created <= cursor.capacity - 1 - len0
    requires cursor.head == RunSlot(head0, created, cursor.capacity) && cursor.Len() == len0 + created
    requires journal.ring == WriteRun(ring0, head0, SimulatedRun(baseTs, baseNode, baseStream, head0, cursor.capacity, created))
    modifies journal`ring, journal.mmap, cursor
    ensures journal.Valid() && cursor.Valid() && cursor.tail == old(cursor.tail)
    ensures journal.BlobStorage() == old(journal.BlobStorage())
    ensures created + 1 <= cursor.capacity - 1 - len0
    ensures cursor.head == RunSlot(head0, created + 1, cursor.capacity) && cursor.Len() == len0 + created + 1
    ensures journal.ring == WriteRun(ring0, head0, SimulatedRun(baseTs, baseNode, baseStream, head0, cursor.capacity, created + 1))
  {
    var cap := cursor.capacity;
    RunSlotStep(head0, created, cap);
    var event := SimulatedEvent(baseTs, baseNode, baseStream, created, cursor.head);
    ghost var run := SimulatedRun(baseTs, baseNode, baseStream, head0, cap, created);
    WriteRunSnoc(ring0, head0, run, event);
    assert SimulatedRun(baseTs, baseNode, baseStream, head0, cap, created + 1) == run + [event];
    AppendAtHead(journal, cursor, event);
  }

  // ---------------------------------------------------------------------------
  // api_replay
  // ---------------------------------------------------------------------------

  /** `slot.min(INDEX_RING_CAPACITY.saturating_sub(1))`. */
  function ClampSlot(slot: nat, cap: nat): (r: nat)
    ensures cap > 0 ==> r < cap
    ensures slot < cap ==> r == slot
    ensures cap > 0 && slot >= cap ==> r == cap - 1
  {
    var last := if cap == 0 then 0 else cap - 1;
    if slot < last then slot else last
  }

  /** A slot worth replaying. */
  predicate NotEmpty(e: CausalEvent)
  {
    !IsEmptyEvent(e)
  }

  /**
   * The events the replay loop copies from slots `lo..hi` of `ring`, slot
   * by slot: a non-empty event is appended while fewer than `room` have
   * been copied.
   */
  function Copied(ring: seq<CausalEvent>, lo: nat, hi: nat, room: nat): (r: seq<CausalEvent>)
    requires lo <= hi <= |ring|
    ensures |r| <= room
    decreases hi
  {
    if hi == lo then []
    else
      var before := Copied(ring, lo, hi - 1, room);
      if |before| < room && !IsEmptyEvent(ring[hi - 1]) then before + [ring[hi - 1]] else before
  }

  /** The loop's slot-by-slot copy is the declarative one: the first `room` non-empty events. */
  lemma {:induction false} CopiedIsReplayed(ring: seq<CausalEvent>, lo: nat, hi: nat, room: nat)
    requires lo <= hi <= |ring|
    ensures Copied(ring, lo, hi, room) == Page(Filter(NotEmpty, ring[lo..hi]), 0, room)
    decreases hi
  {
    if hi > lo {
      var init, e := ring[lo..hi - 1], ring[hi - 1];
      assert ring[lo..hi] == init + [e];
      CopiedIsReplayed(ring, lo, hi - 1, room);
      FilterAppend(NotEmpty, init, [e]);
      assert Filter(NotEmpty, [e]) == if IsEmptyEvent(e) then [] else [e];
      var before := Filter(NotEmpty, init);
      if |Copied(ring, lo, hi - 1, room)| < room {
        if !IsEmptyEvent(e) {
          PageSnoc(before, e, 0, room);
        } else {
          assert before + [] == before;
        }
      } else if room > 0 {
        PageFull(before, Filter(NotEmpty, [e]), 0, room);
      }
    }
  }

  /** Once `room` events are copied, nothing later in the range is. */
  lemma {:induction false} CopiedFull(ring: seq<CausalEvent>, lo: nat, mid: nat, hi: nat, room: nat)
    requires lo <= mid <= hi <= |ring|
    requires |Copied(ring, lo, mid, room)| >= room
    ensures Copied(ring, lo, hi, room) == Copied(ring, lo, mid, room)
    decreases hi
  {
    if hi > mid {
      CopiedFull(ring, lo, mid, hi - 1, room);
    }
  }

  /** Replay copies only non-empty events, each taken from a slot in the range, in slot order. */
  lemma CopiedAreFromRange(ring: seq<CausalEvent>, lo: nat, hi: nat, room: nat, i: nat)
    requires lo <= hi <= |ring| && i < |Copied(ring, lo, hi, room)|
    ensures !IsEmptyEvent(Copied(ring, lo, hi, room)[i])
    ensures exists s :: lo <= s < hi && ring[s] == Copied(ring, lo, hi, room)[i]
  {
    var range := ring[lo..hi];
    var picked := Filter(NotEmpty, range);
    CopiedIsReplayed(ring, lo, hi, room);
    var x := Copied(ring, lo, hi, room)[i];
    assert x == picked[i];
    FilterMembers(NotEmpty, range);
    assert x in picked;
    var k :| 0 <= k < |range| && range[k] == x;
    assert ring[lo + k] == x;
  }

  /** The two events lists agree on a window: `events` holds the slots `lo..lo + m` of `ring`. */
  lemma {:induction false} CopiedWindow(ring: seq<CausalEvent>, events: seq<CausalEvent>, lo: nat, m: nat, room: nat)
    requires lo + m <= |ring| && m <= |events|
    requires forall i :: 0 <= i < m ==> events[i] == ring[lo + i]
    ensures Copied(events, 0, m, room) == Copied(ring, lo, lo + m, room)
    decreases m
  {
    if m > 0 {
      CopiedWindow(ring, events, lo, m - 1, room);
      assert events[m - 1] == ring[lo + m - 1];
    }
  }

  // ---------------------------------------------------------------------------
  // Replay: resolving the journals and taking their locks
  // ---------------------------------------------------------------------------

  const NOT_FOUND: nat := 404
  const BAD_REQUEST: nat := 400

  /** A handler's error reply: the HTTP status and the `ApiError` message. */
  datatype ApiError = ApiError(status: nat, message: string)

  /**
   * `get_journal`: the journal registered under `path`, or, with no path,
   * the first one the registry yields; `paths` lists the registry's keys in
   * its iteration order.
   */
  function GetJournal(paths: seq<string>, path: Option<string>): (r: Option<string>)
    ensures r.Some? ==> r.value in paths
    ensures path.Some? ==> (r.Some? <==> path.value in paths) && (r.Some? ==> r.value == path.value)
    ensures path.None? ==> (r.Some? <==> |paths| > 0) && (r.Some? ==> r.value == paths[0])
  {
    if path.Some? then (if path.value in paths then path else None)
    else if |paths| > 0 then Some(paths[0])
    else None
  }

  /** The journals `api_replay` reads from and writes to, or its 404 reply. */
  function ResolveReplay(paths: seq<string>, source: Option<string>, target: Option<string>): (r: Result<(string, string), ApiError>)
    ensures GetJournal(paths, source).None? ==> r == Err(ApiError(NOT_FOUND, "Source journal not found"))
    ensures GetJournal(paths, source).Some? && GetJournal(paths, target).None? ==>
              r == Err(ApiError(NOT_FOUND, "Target journal not found"))
    ensures r.Ok? <==> GetJournal(paths, source).Some? && GetJournal(paths, target).Some?
    ensures r.Ok? ==> r.value == (GetJournal(paths, source).value, GetJournal(paths, target).value)
  {
    match GetJournal(paths, source)
    case None => Err(ApiError(NOT_FOUND, "Source journal not found"))
    case Some(s) =>
      match GetJournal(paths, target)
      case None => Err(ApiError(NOT_FOUND, "Target journal not found"))
      case Some(t) => Ok((s, t))
  }

  /** A request naming neither journal replays the registry's first journal into itself. */
  lemma DefaultReplayIsOneJournal(paths: seq<string>)
    requires |paths| > 0
    ensures ResolveReplay(paths, None, None) == Ok((paths[0], paths[0]))
  {
  }

  /** A `tokio::sync::RwLock`: the read guards held, and whether the write guard is. */
  datatype RwLock = RwLock(readers: nat, writer: bool)

  /** `read()` proceeds unless the write guard is held. */
  predicate CanRead(l: RwLock) { !l.writer }

  /** `write()` proceeds only when no guard at all is held. */
  predicate CanWrite(l: RwLock) { !l.writer && l.readers == 0 }

  function AcquireRead(l: RwLock): (r: RwLock)
    requires CanRead(l)
    ensures CanRead(r) && !CanWrite(r)
  {
    l.(readers := l.readers + 1)
  }

  function ReleaseRead(l: RwLock): (r: RwLock)
    requires l.readers > 0
    ensures r.readers < l.readers
  {
    l.(readers := l.readers - 1)
  }

  /**
   * `api_replay` as written takes the source journal's read guard and,
   * still holding it, asks for the target journal's write guard; both
   * guards live until the handler returns. When the two journals are one,
   * the write guard waits for a read guard that only the waiting handler
   * can release, so the handler never proceeds; distinct journals leave
   * the target's lock as it was.
   */
  lemma SameJournalReplayBlocks(locks: map<string, RwLock>, source: string, target: string)
    requires source in locks && target in locks && CanRead(locks[source])
    ensures var held := locks[source := AcquireRead(locks[source])];
      && (source == target ==> !CanWrite(held[target]))
      && (source != target ==> held[target] == locks[target])
  {
  }

  /** The default replay request, on any state of the first journal's lock, waits on itself. */
  lemma DefaultReplayBlocks(paths: seq<string>, locks: map<string, RwLock>)
    requires |paths| > 0 && paths[0] in locks && CanRead(locks[paths[0]])
    ensures ResolveReplay(paths, None, None).Ok?
    ensures var (source, target) := ResolveReplay(paths, None, None).value;
      source == target && !CanWrite(locks[source := AcquireRead(locks[source])][target])
  {
    DefaultReplayIsOneJournal(paths);
    SameJournalReplayBlocks(locks, paths[0], paths[0]);
  }

  /**
   * Reading the range into a snapshot under the read guard and releasing it
   * before the write guard is taken leaves the lock as it was found, so the
   * write guard is as available as it was before the read.
   */
  lemma SnapshotThenWrite(l: RwLock)
    requires CanRead(l)
    ensures ReleaseRead(AcquireRead(l)) == l
    ensures CanWrite(ReleaseRead(AcquireRead(l))) <==> CanWrite(l)
  {
  }

  // ---------------------------------------------------------------------------
  // Replay: copying the range
  // ---------------------------------------------------------------------------

  /**
   * `api_replay` once its journals are resolved: both bounds are clamped to
   * the last slot; a start past the end is a 400 reply before anything is
   * written. Otherwise the source slots from `start` to `end` are read into
   * a snapshot and its non-empty events, in increasing slot order, are
   * copied unchanged into successive head slots of the target until the
   * target is full; the global counters grow by what was copied. Source
   * and target may be the same journal.
   */
  method ApiReplay(source: Journal, target: Journal, cursor: Cursor, startSlot: nat, endSlot: nat,
                   eventsProcessed: u64, bytesProcessed: u64)
    returns (r: Result<(nat, nat), ApiError>, eventsAfter: u64, bytesAfter: u64)
    requires source.Valid() && target.Valid() && cursor.Valid()
    requires source.RingCapacity() == target.RingCapacity() == cursor.capacity
    modifies target`ring, target.mmap, cursor
    ensures target.Valid() && cursor.Valid() && cursor.tail == old(cursor.tail)
    ensures target.BlobStorage() == old(target.BlobStorage())
    ensures r.Err? <==> ClampSlot(startSlot, cursor.capacity) > ClampSlot(endSlot, cursor.capacity)
    ensures r.Err? ==> (r.error == ApiError(BAD_REQUEST, "start_slot must be <= end_slot")
              && eventsAfter == eventsProcessed && bytesAfter == bytesProcessed
              && cursor.head == old(cursor.head) && unchanged(target.mmap) && target.ring == old(target.ring))
    ensures r.Ok? ==>
              var copied := Copied(old(source.ring), ClampSlot(startSlot, cursor.capacity),
                                   ClampSlot(endSlot, cursor.capacity) + 1, cursor.capacity - 1 - old(cursor.Len()));
              r.value == (|copied|, cursor.head)
              && cursor.head == RunSlot(old(cursor.head), |copied|, cursor.capacity)
              && cursor.Len() == old(cursor.Len()) + |copied|
              && target.ring == WriteRun(old(target.ring), old(cursor.head), copied)
              && eventsAfter == WrapAdd64(eventsProcessed, |copied|)
              && bytesAfter == WrapAdd64(bytesProcessed, |copied| * EVENT_SIZE)
  {
    var cap := cursor.capacity;
    var start, end := ClampSlot(startSlot, cap), ClampSlot(endSlot, cap);
    if start > end {
      return Err(ApiError(BAD_REQUEST, "start_slot must be <= end_slot")), eventsProcessed, bytesProcessed;
    }
    ghost var room := cap - 1 - cursor.Len();
    ghost var copied := Copied(source.ring, start, end + 1, room);
    var events := ReadRange(source, start, end);
    CopiedWindow(source.ring, events, start, |events|, room);
    assert Copied(events, 0, |events|, room) == copied;
    var replayed, headAfter;
    replayed, headAfter, eventsAfter, bytesAfter := ReplayRange(target, cursor, events, eventsProcessed, bytesProcessed);
    r := Ok((replayed, headAfter));
  }

  /** The snapshot of the source slots `start..=end`, read slot by slot. */
  method ReadRange(journal: Journal, start: nat, end: nat) returns (events: seq<CausalEvent>)
    requires journal.Valid() && start <= end < journal.RingCapacity()
    ensures |events| == end + 1 - start
    ensures forall i :: 0 <= i < |events| ==> events[i] == journal.ring[start + i]
  {
    events := [];
    var slot := start;
    while slot <= end
      invariant start <= slot <= end + 1
      invariant |events| == slot - start
      invariant forall i :: 0 <= i < |events| ==> events[i] == journal.ring[start + i]
    {
      events := events + [journal.ReadEventAt(slot)];
      slot := slot + 1;
    }
  }

  /** The accepted case of `api_replay`: the snapshot's copy written at the head, the counters advanced. */
  method ReplayRange(target: Journal, cursor: Cursor, events: seq<CausalEvent>,
                     eventsProcessed: u64, bytesProcessed: u64)
    returns (replayed: nat, headAfter: nat, eventsAfter: u64, bytesAfter: u64)
    requires target.Valid() && cursor.Valid()
    requires target.RingCapacity() == cursor.capacity
    modifies target`ring, target.mmap, cursor
    ensures target.Valid() && cursor.Valid() && cursor.tail == old(cursor.tail)
    ensures target.BlobStorage() == old(target.BlobStorage())
    ensures var copied := Copied(events, 0, |events|, cursor.capacity - 1 - old(cursor.Len()));
            replayed == |copied| && headAfter == cursor.head
            && cursor.head == RunSlot(old(cursor.head), |copied|, cursor.capacity)
            && cursor.Len() == old(cursor.Len()) + |copied|
            && target.ring == WriteRun(old(target.ring), old(cursor.head), copied)
            && eventsAfter == WrapAdd64(eventsProcessed, |copied|)
            && bytesAfter == WrapAdd64(bytesProcessed, |copied| * EVENT_SIZE)
  {
    replayed := CopyNonEmpty(target, cursor, events, cursor.capacity - 1 - cursor.Len());
    headAfter := cursor.head;
    eventsAfter := WrapAdd64(eventsProcessed, replayed);
    bytesAfter := WrapAdd64(bytesProcessed, replayed * EVENT_SIZE);
  }

  /**
   * The loop of `api_replay`: the snapshot's non-empty events, in order,
   * copied into successive head slots of the target until it is full.
   */
  method CopyNonEmpty(target: Journal, cursor: Cursor, events: seq<CausalEvent>, ghost room: nat)
    returns (replayed: nat)
    requires target.Valid() && cursor.Valid()
    requires target.RingCapacity() == cursor.capacity
    requires room == cursor.capacity - 1 - cursor.Len()
    modifies target`ring, target.mmap, cursor
    ensures target.Valid() && cursor.Valid() && cursor.tail == old(cursor.tail)
    ensures target.BlobStorage() == old(target.BlobStorage())
    ensures replayed == |Copied(events, 0, |events|, room)|
    ensures cursor.head == RunSlot(old(cursor.head), replayed, cursor.capacity)
    ensures cursor.Len() == old(cursor.Len()) + replayed
    ensures target.ring == WriteRun(old(target.ring), old(cursor.head), Copied(events, 0, |events|, room))
  {
    var cap := cursor.capacity;
    ghost var ring0 := target.ring;
    ghost var blob0 := target.BlobStorage();
    ghost var head0 := cursor.head;
    ghost var len0 := cursor.Len();
    replayed := 0;
    var i := 0;
    while i < |events|
      invariant 0 <= i <= |events|
      invariant replayed == |Copied(events, 0, i, room)|
      invariant target.Valid() && target.BlobStorage() == blob0
      invariant cursor.Valid() && cursor.capacity == cap && cursor.tail == old(cursor.tail)
      invariant cursor.head == RunSlot(head0, replayed, cap) && cursor.Len() == len0 + replayed
      invariant target.ring == WriteRun(ring0, head0, Copied(events, 0, i, room))
    {
      if cursor.IsFull() {
        CopiedFull(events, 0, i, |events|, room);
        return;
      }
      replayed := CopySlot(target, cursor, events, i, replayed, room, ring0, head0, len0);
      i := i + 1;
    }
  }

  /** One iteration of the replay loop while the target has room: copy event `i` if it is not empty. */
  method CopySlot(target: Journal, cursor: Cursor, events: seq<CausalEvent>, i: nat, replayed: nat,
                  ghost room: nat, ghost ring0: seq<CausalEvent>, ghost head0: nat, ghost len0: nat)
    returns (next: nat)
    requires target.Valid() && cursor.Valid() && !cursor.IsFull()
    requires target.RingCapacity() == cursor.capacity
    requires i < |events|
    requires head0 < cursor.capacity && |ring0| == cursor.capacity && room == cursor.capacity - 1 - len0
    requires replayed == |Copied(events, 0, i, room)|
    requires cursor.head == RunSlot(head0, replayed, cursor.capacity) && cursor.Len() == len0 + replayed
    requires target.ring == WriteRun(ring0, head0, Copied(events, 0, i, room))
    modifies target`ring, target.mmap, cursor
    ensures target.Valid() && cursor.Valid() && cursor.tail == old(cursor.tail)
    ensures target.BlobStorage() == old(target.BlobStorage())
    ensures next == |Copied(events, 0, i + 1, room)|
    ensures cursor.head == RunSlot(head0, next, cursor.capacity) && cursor.Len() == len0 + next
    ensures target.ring == WriteRun(ring0, head0, Copied(events, 0, i + 1, room))
  {
    ghost var done := Copied(events, 0, i, room);
    var event := events[i];
    next := replayed;
    if !IsEmptyEvent(event) {
      RunSlotStep(head0, replayed, cursor.capacity);
      WriteRunSnoc(ring0, head0, done, event);
      AppendAtHead(target, cursor, event);
      next := replayed + 1;
    }
  }

  /**
   * Claim the head slot (the ring is not full) and write `event` there:
   * the step both `api_simulate` and `api_replay` repeat.
   */
  method AppendAtHead(journal: Journal, cursor: Cursor, event: CausalEvent)
    requires journal.Valid() && cursor.Valid() && !cursor.IsFull()
    requires journal.RingCapacity() == cursor.capacity
    modifies journal`ring, journal.mmap, cursor
    ensures journal.Valid() && cursor.Valid() && cursor.tail == old(cursor.tail)
    ensures journal.BlobStorage() == old(journal.BlobStorage())
    ensures cursor.head == (if old(cursor.head) + 1 < cursor.capacity then old(cursor.head) + 1 else 0)
    ensures cursor.Len() == old(cursor.Len()) + 1
    ensures journal.ring == old(journal.ring)[old(cursor.head) := event]
  {
    var claimed := cursor.AdvanceHead();
    journal.WriteEventAt(claimed.value, event);
  }
}
