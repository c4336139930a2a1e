/**
 * The ingest loop of the sequencer: receive slots in blob storage are handed
 * out to in-flight receives, and each completed receive is checked, stamped
 * with the next Lamport value and written into the next index-ring slot.
 *
 * The io_uring queues and the socket are not modelled: a completion arrives
 * as `(slotIdx, result)` and the datagram's bytes are already in the blob
 * region of the journal at the receive's offset. The process-wide counters
 * `LAMPORT_COUNTER`, `EVENTS_PROCESSED` and `BYTES_PROCESSED` are fields of
 * the loop object, since one loop runs per process.
 */
module IngestLoop {
  import opened Wrappers
  import opened Widths
  import opened CausalEvents
  import opened EventLayout
  import opened Crc32
  import opened RingCursor
  import opened JournalStore

  /** Largest datagram a receive asks for. */
  const MAX_PACKET_SIZE: nat := 65535

  /** Number of receives kept in flight. */
  const PIPELINE_DEPTH: nat := 16

  /** The `i32` result of a completion: a byte count, or a negated errno. */
  type i32 = x: int | -0x8000_0000 <= x < 0x8000_0000

  // ---------------------------------------------------------------------------
  // Receive-offset allocation
  // ---------------------------------------------------------------------------

  /**
   * The offset `submit_recv` settles on, starting from `offset`, followed for
   * at most `fuel` calls: a receive that would run past the end of a blob of
   * `blobLen` bytes restarts from offset 0 by calling itself again.
   */
  function Allocate(offset: nat, blobLen: nat, fuel: nat): Option<nat>
    decreases fuel
  {
    if fuel == 0 then None
    else if offset + MAX_PACKET_SIZE > blobLen then Allocate(0, blobLen, fuel - 1)
    else Some(offset)
  }

  /** With a blob of at least one packet, allocation ends within two calls at an offset that fits. */
  lemma AllocateTerminates(offset: nat, blobLen: nat)
    requires MAX_PACKET_SIZE <= blobLen
    ensures Allocate(offset, blobLen, 2).Some?
    ensures Allocate(offset, blobLen, 2).value + MAX_PACKET_SIZE <= blobLen
    ensures offset + MAX_PACKET_SIZE <= blobLen ==> Allocate(offset, blobLen, 2) == Some(offset)
    ensures offset + MAX_PACKET_SIZE > blobLen ==> Allocate(offset, blobLen, 2) == Some(0)
  {
  }

  /** With a blob smaller than one packet the restart never ends, however many calls are allowed. */
  lemma {:induction false} AllocateDivergesOnSmallBlob(offset: nat, blobLen: nat, fuel: nat)
    requires blobLen < MAX_PACKET_SIZE
    ensures Allocate(offset, blobLen, fuel) == None
    decreases fuel
  {
    if fuel > 0 {
      AllocateDivergesOnSmallBlob(0, blobLen, fuel - 1);
    }
  }

  // ---------------------------------------------------------------------------
  // What a completion means
  // ---------------------------------------------------------------------------

  datatype Outcome =
    | RecvFailed                      // negative result: an error, nothing was received
    | TooShort                        // fewer bytes than a header
    | ChecksumMismatch                // header checksum differs from the payload's CRC-32
    | Accepted(header: CausalEvent)   // the sender's header, read from the first 32 bytes

  /**
   * How the loop treats a completion with `result` for the receive at
   * `offset` of `blob`.
   */
  function Classify(result: int, blob: seq<u8>, offset: nat): (r: Outcome)
    requires result >= 0 ==> offset + result <= |blob|
    ensures r == RecvFailed <==> result < 0
    ensures r == TooShort <==> 0 <= result < EVENT_SIZE
    ensures r.Accepted? ==> result >= EVENT_SIZE
  {
    if result < 0 then RecvFailed
    else if result < EVENT_SIZE then TooShort
    else
      var packet := blob[offset..offset + result];
      var header := DecodeEvent(packet[..EVENT_SIZE]);
      assert packet[..EVENT_SIZE] == blob[offset..offset + EVENT_SIZE];
      assert packet[EVENT_SIZE..] == blob[offset + EVENT_SIZE..offset + result];
      if Checksum(packet[EVENT_SIZE..]) == header.checksum then Accepted(header) else ChecksumMismatch
  }

  /**
   * A datagram is accepted exactly when it is long enough to hold a header
   * and the checksum of the bytes after the header matches the one the
   * header carries; the accepted header is the decoded first 32 bytes.
   */
  lemma ClassifyAccepts(result: int, blob: seq<u8>, offset: nat)
    requires result >= 0 ==> offset + result <= |blob|
    ensures Classify(result, blob, offset).Accepted? ==>
      Classify(result, blob, offset).header == DecodeEvent(blob[offset..offset + EVENT_SIZE])
    ensures Classify(result, blob, offset).Accepted? <==> (result >= EVENT_SIZE
      && Checksum(blob[offset + EVENT_SIZE..offset + result]) == DecodeEvent(blob[offset..offset + EVENT_SIZE]).checksum)
  {
    if result >= EVENT_SIZE {
      var packet := blob[offset..offset + result];
      assert packet[..EVENT_SIZE] == blob[offset..offset + EVENT_SIZE];
      assert packet[EVENT_SIZE..] == blob[offset + EVENT_SIZE..offset + result];
    }
  }

  /** The event the loop journals for an accepted header. */
  function Sequenced(header: CausalEvent, ts: u64, offset: u64): (e: CausalEvent)
  {
    New(ts, header.nodeId, header.streamId, offset, header.checksum)
  }

  /**
   * The journaled event depends on the sender's header only through its node,
   * stream and checksum: the sender's timestamp, flags and offset are discarded,
   * and the result is never a checkpoint.
   */
  lemma SequencedDiscardsSenderFields(h1: CausalEvent, h2: CausalEvent, ts: u64, offset: u64)
    requires h1.nodeId == h2.nodeId && h1.streamId == h2.streamId && h1.checksum == h2.checksum
    ensures Sequenced(h1, ts, offset) == Sequenced(h2, ts, offset)
    ensures Sequenced(h1, ts, offset).lamportTs == ts && Sequenced(h1, ts, offset).payloadOffset == offset
    ensures !IsCheckpoint(Sequenced(h1, ts, offset))
  {
    CheckpointBit(ts, h1.nodeId, h1.streamId, offset, h1.checksum, 0);
  }

  /**
   * A datagram that is exactly a header with node 0, stream 0 and checksum 0
   * has an empty payload whose CRC-32 is 0, so it is accepted.
   */
  lemma ZeroHeaderAccepted(blob: seq<u8>, offset: nat, header: CausalEvent)
    requires offset + EVENT_SIZE <= |blob|
    requires blob[offset..offset + EVENT_SIZE] == EncodeEvent(header)
    requires header.checksum == 0
    ensures Classify(EVENT_SIZE, blob, offset) == Accepted(header)
  {
    DecodeEncodeEvent(header);
    ClassifyAccepts(EVENT_SIZE, blob, offset);
    assert blob[offset + EVENT_SIZE..offset + EVENT_SIZE] == [];
  }

  /**
   * Timestamps handed out so far, strictly increasing, all below `bound`:
   * the last one is below `bound` and the others below the last one.
   */
  ghost predicate StrictlyIncreasingBelow(ts: seq<nat>, bound: nat)
  {
    |ts| == 0 || (ts[|ts| - 1] < bound && StrictlyIncreasingBelow(ts[..|ts| - 1], ts[|ts| - 1]))
  }

  /** The recursive form says what it promises: every pair in order, every value below the bound. */
  lemma {:induction false} IncreasingBelowIsSorted(ts: seq<nat>, bound: nat)
    requires StrictlyIncreasingBelow(ts, bound)
    ensures forall i, j :: 0 <= i < j < |ts| ==> ts[i] < ts[j]
    ensures forall i :: 0 <= i < |ts| ==> ts[i] < bound
  {
    if |ts| > 0 {
      var init, last := ts[..|ts| - 1], ts[|ts| - 1];
      IncreasingBelowIsSorted(init, last);
      assert forall i :: 0 <= i < |init| ==> ts[i] == init[i];
    }
  }

  /** Counting one more, then reducing, is one wrapping increment of the reduced count. */
  lemma WrapSucc(n: nat)
    ensures (n + 1) % U64_MODULUS == WrapAdd64(n % U64_MODULUS, 1)
  {
    var q, r := n / U64_MODULUS, n % U64_MODULUS;
    assert n == q * U64_MODULUS + r;
    if r + 1 < U64_MODULUS {
      assert n + 1 == q * U64_MODULUS + (r + 1);
    } else {
      assert n + 1 == (q + 1) * U64_MODULUS + 0;
    }
  }

  lemma AppendKeepsIncreasing(ts: seq<nat>, next: nat)
    requires StrictlyIncreasingBelow(ts, next)
    ensures StrictlyIncreasingBelow(ts + [next], next + 1)
  {
    assert (ts + [next])[..|ts|] == ts;
  }

  /**
   * The wrapped counters agree with the unwrapped history: the Lamport
   * counter is the number of values issued and the event counter the
   * number journaled, both modulo 2^64.
   */
  ghost predicate Agree(lamport: u64, events: u64, issued: nat, journaled: seq<nat>)
  {
    lamport == issued % U64_MODULUS &&
    events == |journaled| % U64_MODULUS &&
    StrictlyIncreasingBelow(journaled, issued)
  }

  /** Issuing one Lamport value, and journaling it or not, keeps the counters in agreement. */
  lemma AgreeStep(lamport: u64, events: u64, issued: nat, journaled: seq<nat>, append: bool)
    requires Agree(lamport, events, issued, journaled)
    ensures Agree(WrapAdd64(lamport, 1), if append then WrapAdd64(events, 1) else events,
                  issued + 1, if append then journaled + [issued] else journaled)
  {
    WrapSucc(issued);
    WrapSucc(|journaled|);
    AppendKeepsIncreasing(journaled, issued);
  }

  // ---------------------------------------------------------------------------
  // The loop as a function on values
  // ---------------------------------------------------------------------------

  /**
   * Everything one iteration of the processing loop reads or changes:
   * the loop's fields and counters, the cursor's head, and the journal's
   * bytes.
   */
  datatype LoopState = LoopState(nextBlobOffset: nat, offsets: seq<nat>, lamport: u64, events: u64, bytes: u64,
                                 issued: nat, journaled: seq<nat>, head: nat, mmap: seq<u8>)

  /** `next_pos` of a ring of `cap` slots. */
  function NextSlot(pos: nat, cap: nat): (r: nat)
    requires pos < cap
    ensures r < cap
  {
    if pos + 1 < cap then pos + 1 else 0
  }

  /**
   * A state the loop can run in over `blob`: every in-flight receive has
   * room for a packet, the head is a slot of a ring of `cap` slots that the
   * journal's bytes hold, and `tail` is a slot too.
   */
  ghost predicate Fits(s: LoopState, blob: seq<u8>, cap: nat, tail: nat)
  {
    && |s.offsets| == PIPELINE_DEPTH
    && (forall i :: 0 <= i < PIPELINE_DEPTH ==> s.offsets[i] + MAX_PACKET_SIZE <= |blob|)
    && MAX_PACKET_SIZE <= |blob| < U64_MODULUS
    && 2 <= cap && s.head < cap && tail < cap && cap * EVENT_SIZE <= |s.mmap|
  }

  /** Completions the loop can be handed: a pipeline slot and at most a packet's bytes. */
  ghost predicate CompletionsFit(cs: seq<(nat, i32)>)
  {
    forall k :: 0 <= k < |cs| ==> cs[k].0 < PIPELINE_DEPTH && cs[k].1 <= MAX_PACKET_SIZE
  }

  /**
   * One completion `(slot, result)` from state `s`: the receive is always
   * resubmitted; an accepted datagram takes a Lamport value and, unless the
   * ring is full, is written at the head, which moves on, and counted. The
   * second component is the ring slot written.
   */
  ghost function CompletionStep(s: LoopState, blob: seq<u8>, cap: nat, tail: nat, c: (nat, i32)): (r: (LoopState, Option<nat>))
    requires Fits(s, blob, cap, tail) && c.0 < PIPELINE_DEPTH && c.1 <= MAX_PACKET_SIZE
    ensures Fits(r.0, blob, cap, tail) && |r.0.mmap| == |s.mmap|
    ensures s.issued <= r.0.issued <= s.issued + 1
    ensures r.1.Some? ==> (r.1.value == s.head && r.0.head == NextSlot(s.head, cap)
                           && r.0.journaled == s.journaled + [s.issued] && r.0.events == WrapAdd64(s.events, 1))
    ensures r.1.None? ==> r.0.head == s.head && r.0.journaled == s.journaled && r.0.events == s.events
  {
    var slot, result := c.0, c.1;
    var offset := s.offsets[slot];
    var outcome := Classify(result, blob, offset);
    AllocateTerminates(s.nextBlobOffset, |blob|);
    var next := Allocate(s.nextBlobOffset, |blob|, 2).value;
    var resubmitted := s.(nextBlobOffset := next + MAX_PACKET_SIZE, offsets := s.offsets[slot := next]);
    if !outcome.Accepted? then (resubmitted, None)
    else
      var stamped := resubmitted.(lamport := WrapAdd64(s.lamport, 1), issued := s.issued + 1);
      if NextSlot(s.head, cap) == tail then (stamped, None)
      else
        (stamped.(mmap := WriteSlot(s.mmap, s.head, Sequenced(outcome.header, s.lamport, offset)),
                  head := NextSlot(s.head, cap), journaled := s.journaled + [s.issued],
                  events := WrapAdd64(s.events, 1), bytes := WrapAdd64(s.bytes, result)),
         Some(s.head))
  }

  /** The completions `cs` processed in order from `s`, with the ring slots written, in order. */
  ghost function Run(s: LoopState, blob: seq<u8>, cap: nat, tail: nat, cs: seq<(nat, i32)>): (r: (LoopState, seq<nat>))
    requires Fits(s, blob, cap, tail) && CompletionsFit(cs)
    ensures Fits(r.0, blob, cap, tail) && |r.0.mmap| == |s.mmap|
    decreases |cs|
  {
    if |cs| == 0 then (s, [])
    else
      var before := Run(s, blob, cap, tail, cs[..|cs| - 1]);
      var after := CompletionStep(before.0, blob, cap, tail, cs[|cs| - 1]);
      (after.0, if after.1.Some? then before.1 + [after.1.value] else before.1)
  }

  /**
   * From `s` to `t`, `m` completions wrote the slots `w`: the first at the
   * starting head, each next one the slot after the one before, and the
   * head ends just past the last. Each written slot journals one event and
   * counts it, and at most one Lamport value goes to each completion.
   */
  ghost predicate WritesSuccessive(s: LoopState, t: LoopState, w: seq<nat>, cap: nat, m: nat)
  {
    && (forall k :: 0 <= k < |w| ==> w[k] < cap)
    && (|w| == 0 ==> t.head == s.head)
    && (|w| > 0 ==> w[0] == s.head && t.head == NextSlot(w[|w| - 1], cap))
    && (forall k :: 0 <= k < |w| - 1 ==> w[k + 1] == NextSlot(w[k], cap))
    && |t.journaled| == |s.journaled| + |w| && s.journaled <= t.journaled
    && t.events == (s.events + |w|) % U64_MODULUS
    && s.issued <= t.issued <= s.issued + m
  }

  /** A batch writes successive head slots, journaling and counting one event for each. */
  lemma {:induction false} RunWritesSuccessiveSlots(s: LoopState, blob: seq<u8>, cap: nat, tail: nat, cs: seq<(nat, i32)>)
    requires Fits(s, blob, cap, tail) && CompletionsFit(cs)
    ensures WritesSuccessive(s, Run(s, blob, cap, tail, cs).0, Run(s, blob, cap, tail, cs).1, cap, |cs|)
    decreases |cs|
  {
    if |cs| > 0 {
      var init := cs[..|cs| - 1];
      assert CompletionsFit(init) by {
        forall k | 0 <= k < |init| ensures init[k] == cs[k] { }
      }
      RunWritesSuccessiveSlots(s, blob, cap, tail, init);
      var before := Run(s, blob, cap, tail, init);
      var after := CompletionStep(before.0, blob, cap, tail, cs[|cs| - 1]);
      SuccessiveStep(s, before.0, before.1, after.0, after.1, cap, |init|);
    }
  }

  /** One more step keeps the written slots successive. */
  lemma SuccessiveStep(s: LoopState, mid: LoopState, w: seq<nat>, t: LoopState, slot: Option<nat>, cap: nat, m: nat)
    requires WritesSuccessive(s, mid, w, cap, m) && mid.head < cap
    requires mid.issued <= t.issued <= mid.issued + 1
    requires slot.Some? ==> (slot.value == mid.head && t.head == NextSlot(mid.head, cap)
                             && t.journaled == mid.journaled + [mid.issued] && t.events == WrapAdd64(mid.events, 1))
    requires slot.None? ==> t.head == mid.head && t.journaled == mid.journaled && t.events == mid.events
    ensures WritesSuccessive(s, t, if slot.Some? then w + [slot.value] else w, cap, m + 1)
  {
    if slot.Some? {
      WrapSucc(s.events + |w|);
    }
  }

  // ---------------------------------------------------------------------------
  // The loop state
  // ---------------------------------------------------------------------------

  class EventLoop {
    /** `next_blob_offset`. */
    var nextBlobOffset: nat
    /** `in_flight_offsets`: the blob offset each in-flight receive writes to. */
    const inFlightOffsets: array<nat>
    /** `LAMPORT_COUNTER`. */
    var lamportCounter: u64
    /** `EVENTS_PROCESSED`. */
    var eventsProcessed: u64
    /** `BYTES_PROCESSED`. */
    var bytesProcessed: u64

    /** Number of Lamport values consumed, without wrap-around. */
    ghost var issued: nat
    /** The (unwrapped) timestamps of the journaled events, in order of writing. */
    ghost var journaled: seq<nat>

    ghost predicate Valid(blobLen: nat)
      reads this, inFlightOffsets
    {
      OffsetsFit(blobLen) && CountersAgree()
    }

    /** Every in-flight receive has room for a whole packet inside the blob. */
    ghost predicate OffsetsFit(blobLen: nat)
      reads inFlightOffsets
    {
      inFlightOffsets.Length == PIPELINE_DEPTH &&
      forall i :: 0 <= i < PIPELINE_DEPTH ==> inFlightOffsets[i] + MAX_PACKET_SIZE <= blobLen
    }

    /** The counters agree with the history of stamped and journaled events. */
    ghost predicate CountersAgree()
      reads this
    {
      Agree(lamportCounter, eventsProcessed, issued, journaled)
    }

    /** The loop's state, with the cursor's head and the journal's bytes, as a value. */
    ghost function Snapshot(journal: Journal, cursor: Cursor): LoopState
      reads this, inFlightOffsets, journal.mmap, cursor
    {
      LoopState(nextBlobOffset, inFlightOffsets[..], lamportCounter, eventsProcessed, bytesProcessed,
                issued, journaled, cursor.head, journal.mmap[..])
    }

    /** `EventLoop::new` with fresh counters and the offsets array of `run`. */
    constructor (blobLen: nat)
      requires MAX_PACKET_SIZE <= blobLen
      ensures Valid(blobLen)
      ensures nextBlobOffset == 0 && lamportCounter == 0 && eventsProcessed == 0 && bytesProcessed == 0
      ensures journaled == [] && fresh(inFlightOffsets)
    {
      nextBlobOffset := 0;
      inFlightOffsets := new nat[PIPELINE_DEPTH](_ => 0);
      lamportCounter := 0;
      eventsProcessed := 0;
      bytesProcessed := 0;
      issued := 0;
      journaled := [];
    }

    /**
     * `submit_recv`: record the next receive offset for `slotIdx`, restarting
     * from 0 when a packet would not fit, and move past it.
     */
    method SubmitRecv(blobLen: nat, slotIdx: nat)
      requires Valid(blobLen) && MAX_PACKET_SIZE <= blobLen && slotIdx < PIPELINE_DEPTH
      modifies this`nextBlobOffset, inFlightOffsets
      ensures Valid(blobLen)
      ensures Allocate(old(nextBlobOffset), blobLen, 2) == Some(inFlightOffsets[slotIdx])
      ensures inFlightOffsets[..] == old(inFlightOffsets[..])[slotIdx := inFlightOffsets[slotIdx]]
      ensures nextBlobOffset == inFlightOffsets[slotIdx] + MAX_PACKET_SIZE
      decreases nextBlobOffset
    {
      var offset := nextBlobOffset;
      if offset + MAX_PACKET_SIZE > blobLen {
        nextBlobOffset := 0;
        SubmitRecv(blobLen, slotIdx);
        return;
      }
      inFlightOffsets[slotIdx] := offset;
      nextBlobOffset := offset + MAX_PACKET_SIZE;
    }

    /**
     * The initial submission of `run`: one receive per pipeline slot. From a
     * fresh loop over a blob of at least 16 packets, slot `i` receives at
     * `i * MAX_PACKET_SIZE`.
     */
    method FillPipeline(blobLen: nat)
      requires Valid(blobLen) && MAX_PACKET_SIZE <= blobLen
      modifies this`nextBlobOffset, inFlightOffsets
      ensures Valid(blobLen)
      ensures old(nextBlobOffset) == 0 && PIPELINE_DEPTH * MAX_PACKET_SIZE <= blobLen ==>
        (forall i :: 0 <= i < PIPELINE_DEPTH ==> inFlightOffsets[i] == i * MAX_PACKET_SIZE)
    {
      ghost var fromZero := nextBlobOffset == 0 && PIPELINE_DEPTH * MAX_PACKET_SIZE <= blobLen;
      for i := 0 to PIPELINE_DEPTH
        invariant Valid(blobLen)
        invariant fromZero ==> nextBlobOffset == i * MAX_PACKET_SIZE
        invariant fromZero ==> forall j :: 0 <= j < i ==> inFlightOffsets[j] == j * MAX_PACKET_SIZE
      {
        SubmitRecv(blobLen, i);
      }
    }

    /**
     * The accepted branch of one completion: take the next Lamport value,
     * claim the head slot, and if one was free write the sequenced event
     * there and count the datagram's bytes.
     */
    method SequenceAccepted(journal: Journal, cursor: Cursor, header: CausalEvent, offset: u64, bytesReceived: u64)
      returns (written: Option<nat>)
      requires journal.Valid() && cursor.Valid() && CountersAgree()
      requires cursor.capacity <= journal.RingCapacity()
      modifies this`lamportCounter, this`issued, this`eventsProcessed, this`bytesProcessed, this`journaled
      modifies journal`ring, journal.mmap, cursor
      ensures journal.Valid() && cursor.Valid() && CountersAgree()
      ensures journal.BlobStorage() == old(journal.BlobStorage())
      ensures issued == old(issued) + 1 && lamportCounter == WrapAdd64(old(lamportCounter), 1)
      ensures cursor.tail == old(cursor.tail)
      ensures old(cursor.IsFull()) ==> (written == None && journaled == old(journaled)
        && eventsProcessed == old(eventsProcessed) && bytesProcessed == old(bytesProcessed)
        && cursor.head == old(cursor.head) && journal.mmap[..] == old(journal.mmap[..]))
      ensures !old(cursor.IsFull()) ==> (written == Some(old(cursor.head))
        && cursor.head == cursor.NextPos(old(cursor.head))
        && journal.mmap[..] == WriteSlot(old(journal.mmap[..]), old(cursor.head), Sequenced(header, old(lamportCounter), offset))
        && journaled == old(journaled) + [old(issued)]
        && eventsProcessed == WrapAdd64(old(eventsProcessed), 1)
        && bytesProcessed == WrapAdd64(old(bytesProcessed), bytesReceived))
    {
      written := None;
      var ts := lamportCounter;
      ghost var events0, issued0, journaled0 := eventsProcessed, issued, journaled;
      lamportCounter := WrapAdd64(lamportCounter, 1);
      issued := issued + 1;
      var event := Sequenced(header, ts, offset);
      var ringSlot := cursor.AdvanceHead();
      if ringSlot.Some? {
        journal.WriteEventAt(ringSlot.value, event);
        eventsProcessed := WrapAdd64(eventsProcessed, 1);
        bytesProcessed := WrapAdd64(bytesProcessed, bytesReceived);
        journaled := journaled + [issued0];
        written := ringSlot;
        AgreeStep(ts, events0, issued0, journaled0, true);
      } else {
        AgreeStep(ts, events0, issued0, journaled0, false);
      }
    }

    /**
     * One iteration of the processing loop of `run` for the completion
     * `(slotIdx, result)`: validate, stamp, claim a ring slot, write it, bump
     * the counters, and resubmit the receive. Returns the ring slot written.
     */
    method ProcessCompletion(journal: Journal, cursor: Cursor, slotIdx: nat, result: i32)
      returns (outcome: Outcome, written: Option<nat>)
      requires journal.Valid() && cursor.Valid()
      requires Valid(journal.BlobCapacity()) && MAX_PACKET_SIZE <= journal.BlobCapacity()
      requires cursor.capacity <= journal.RingCapacity()
      requires slotIdx < PIPELINE_DEPTH
      requires result <= MAX_PACKET_SIZE
      modifies this, inFlightOffsets, journal`ring, journal.mmap, cursor
      ensures journal.Valid() && cursor.Valid() && Valid(journal.BlobCapacity())
      ensures journal.BlobStorage() == old(journal.BlobStorage())
      ensures outcome == Classify(result, old(journal.BlobStorage()), old(inFlightOffsets[slotIdx]))
      // the receive is always resubmitted
      ensures Allocate(old(nextBlobOffset), journal.BlobCapacity(), 2) == Some(inFlightOffsets[slotIdx])
      ensures inFlightOffsets[..] == old(inFlightOffsets[..])[slotIdx := inFlightOffsets[slotIdx]]
      ensures nextBlobOffset == inFlightOffsets[slotIdx] + MAX_PACKET_SIZE
      // anything but an accepted datagram changes nothing else
      ensures !outcome.Accepted? ==> (written == None && issued == old(issued)
        && lamportCounter == old(lamportCounter) && journaled == old(journaled)
        && eventsProcessed == old(eventsProcessed) && bytesProcessed == old(bytesProcessed)
        && cursor.head == old(cursor.head) && cursor.tail == old(cursor.tail)
        && journal.mmap[..] == old(journal.mmap[..]))
      // an accepted datagram always consumes one Lamport value ...
      ensures outcome.Accepted? ==> (issued == old(issued) + 1
        && lamportCounter == WrapAdd64(old(lamportCounter), 1) && cursor.tail == old(cursor.tail))
      // ... but is dropped, with nothing else changed, when the ring is full
      ensures outcome.Accepted? && old(cursor.IsFull()) ==> (written == None
        && journaled == old(journaled) && eventsProcessed == old(eventsProcessed)
        && bytesProcessed == old(bytesProcessed) && cursor.head == old(cursor.head)
        && journal.mmap[..] == old(journal.mmap[..]))
      // ... and otherwise is written into the claimed slot, and counted
      ensures outcome.Accepted? && !old(cursor.IsFull()) ==> (written == Some(old(cursor.head))
        && cursor.head == cursor.NextPos(old(cursor.head))
        && journal.mmap[..] == WriteSlot(old(journal.mmap[..]), old(cursor.head),
             Sequenced(outcome.header, old(lamportCounter), old(inFlightOffsets[slotIdx])))
        && journaled == old(journaled) + [old(issued)]
        && eventsProcessed == WrapAdd64(old(eventsProcessed), 1)
        && bytesProcessed == WrapAdd64(old(bytesProcessed), result))
      // in short: a slot is reported exactly when the event was journaled
      ensures old(issued) <= issued <= old(issued) + 1
      ensures written.Some? ==> written.value < cursor.capacity && journaled == old(journaled) + [old(issued)]
      ensures written.None? ==> journaled == old(journaled)
    {
      var blobLen := journal.BlobCapacity();
      written := None;
      if result < 0 {
        outcome := RecvFailed;
        SubmitRecv(blobLen, slotIdx);
        return;
      }
      var offset := inFlightOffsets[slotIdx];
      outcome := Classify(result, journal.BlobStorage(), offset);
      if outcome.Accepted? {
        written := SequenceAccepted(journal, cursor, outcome.header, offset, result);
        SubmitRecv(blobLen, slotIdx);
      } else {
        SubmitRecv(blobLen, slotIdx);
      }
    }

    /**
     * The body of the outer loop of `run` for one batch of completions: at
     * most `PIPELINE_DEPTH` of them are collected, then processed in order.
     */
    method ProcessBatch(journal: Journal, cursor: Cursor, completions: seq<(nat, i32)>)
      returns (written: seq<nat>)
      requires journal.Valid() && cursor.Valid()
      requires Valid(journal.BlobCapacity()) && MAX_PACKET_SIZE <= journal.BlobCapacity()
      requires cursor.capacity <= journal.RingCapacity()
      requires forall k :: 0 <= k < |completions| ==> completions[k].0 < PIPELINE_DEPTH
      requires forall k :: 0 <= k < |completions| ==> completions[k].1 <= MAX_PACKET_SIZE
      modifies this, inFlightOffsets, journal`ring, journal.mmap, cursor
      ensures journal.Valid() && cursor.Valid() && Valid(journal.BlobCapacity())
      ensures journal.BlobStorage() == old(journal.BlobStorage())
      ensures old(issued) <= issued <= old(issued) + Min(|completions|, PIPELINE_DEPTH)
      ensures old(journaled) <= journaled && |journaled| == |old(journaled)| + |written|
      ensures forall k :: 0 <= k < |written| ==> written[k] < cursor.capacity
      ensures cursor.tail == old(cursor.tail)
      ensures var run := Run(old(Snapshot(journal, cursor)), journal.BlobStorage(), cursor.capacity, cursor.tail,
                             completions[..Min(|completions|, PIPELINE_DEPTH)]);
              Snapshot(journal, cursor) == run.0 && written == run.1
    {
      var count := if |completions| < PIPELINE_DEPTH then |completions| else PIPELINE_DEPTH;
      written := [];
      ghost var journaled0 := journaled;
      ghost var start := Snapshot(journal, cursor);
      ghost var blob := journal.BlobStorage();
      for i := 0 to count
        invariant journal.Valid() && cursor.Valid() && Valid(journal.BlobCapacity())
        invariant journal.BlobStorage() == blob
        invariant cursor.tail == old(cursor.tail)
        invariant old(issued) <= issued <= old(issued) + i
        invariant journaled0 <= journaled && |journaled| == |journaled0| + |written|
        invariant forall k :: 0 <= k < |written| ==> written[k] < cursor.capacity
        invariant CompletionsFit(completions[..i])
        invariant Snapshot(journal, cursor) == Run(start, blob, cursor.capacity, cursor.tail, completions[..i]).0
        invariant written == Run(start, blob, cursor.capacity, cursor.tail, completions[..i]).1
      {
        assert completions[..i + 1][..i] == completions[..i];
        written := BatchStep(journal, cursor, completions[i].0, completions[i].1, written, journaled0);
      }
    }

    /** One completion of a batch: processed, and the ring slot it filled, if any, appended to `written`. */
    method BatchStep(journal: Journal, cursor: Cursor, slotIdx: nat, result: i32, written: seq<nat>,
                     ghost journaled0: seq<nat>)
      returns (written': seq<nat>)
      requires journal.Valid() && cursor.Valid()
      requires Valid(journal.BlobCapacity()) && MAX_PACKET_SIZE <= journal.BlobCapacity()
      requires cursor.capacity <= journal.RingCapacity()
      requires slotIdx < PIPELINE_DEPTH && result <= MAX_PACKET_SIZE
      requires journaled0 <= journaled && |journaled| == |journaled0| + |written|
      requires forall k :: 0 <= k < |written| ==> written[k] < cursor.capacity
      modifies this, inFlightOffsets, journal`ring, journal.mmap, cursor
      ensures journal.Valid() && cursor.Valid() && Valid(journal.BlobCapacity())
      ensures journal.BlobStorage() == old(journal.BlobStorage())
      ensures old(issued) <= issued <= old(issued) + 1
      ensures journaled0 <= journaled && |journaled| == |journaled0| + |written'|
      ensures forall k :: 0 <= k < |written'| ==> written'[k] < cursor.capacity
      ensures cursor.tail == old(cursor.tail)
      ensures var after := CompletionStep(old(Snapshot(journal, cursor)), journal.BlobStorage(), cursor.capacity, cursor.tail,
                                (slotIdx, result));
              Snapshot(journal, cursor) == after.0 && written' == (if after.1.Some? then written + [after.1.value] else written)
    {
      var outcome, slot := ProcessCompletion(journal, cursor, slotIdx, result);
      written' := written;
      if slot.Some? {
        written' := written + [slot.value];
      }
    }
  }
}
