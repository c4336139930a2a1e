/**
 * The fixed 32-byte event record of the sequencer (`CausalEvent`) and its
 * total order on the key `(lamport_ts, node_id, stream_id)`.
 */
module CausalEvents {
  import opened Widths

  /** Size of one record in bytes (`CausalEvent::size_bytes()`). */
  const EVENT_SIZE: nat := 32

  /** Bit 0 of `flags` marks a checkpoint (`FLAG_CHECKPOINT`). */
  const FLAG_CHECKPOINT: bv16 := 0x1

  datatype CausalEvent = CausalEvent(
    lamportTs: u64,
    nodeId: u32,
    streamId: u16,
    flags: u16,
    payloadOffset: u64,
    checksum: u32)

  /** `core::cmp::Ordering`. */
  datatype Ordering = Less | Equal | Greater

  /** Three-way comparison of two integers (`u64::cmp` and friends). */
  function CmpInt(a: int, b: int): (r: Ordering)
    ensures r == Less <==> a < b
    ensures r == Equal <==> a == b
    ensures r == Greater <==> a > b
  {
    if a < b then Less else if a == b then Equal else Greater
  }

  /** `Ord::cmp`: the tuple comparison of `(lamport_ts, node_id, stream_id)`. */
  function Cmp(a: CausalEvent, b: CausalEvent): Ordering
  {
    match CmpInt(a.lamportTs, b.lamportTs)
    case Equal =>
      (match CmpInt(a.nodeId, b.nodeId)
       case Equal => CmpInt(a.streamId, b.streamId)
       case other => other)
    case other => other
  }

  /** The ordering key. */
  function Key(e: CausalEvent): (int, int, int)
  {
    (e.lamportTs, e.nodeId, e.streamId)
  }

  /** `PartialEq::eq`: equal exactly when `cmp` says `Equal`. */
  predicate Eq(a: CausalEvent, b: CausalEvent)
  {
    Cmp(a, b) == Equal
  }

  /** `a < b` and `a <= b` as derived from `cmp`. */
  predicate Lt(a: CausalEvent, b: CausalEvent)
  {
    Cmp(a, b) == Less
  }

  predicate Le(a: CausalEvent, b: CausalEvent)
  {
    Cmp(a, b) != Greater
  }

  /** `CausalEvent::new`: five fields copied, `flags` cleared. */
  function New(lamportTs: u64, nodeId: u32, streamId: u16, payloadOffset: u64, checksum: u32): (e: CausalEvent)
    ensures e.lamportTs == lamportTs && e.nodeId == nodeId && e.streamId == streamId
    ensures e.payloadOffset == payloadOffset && e.checksum == checksum
    ensures e.flags == 0
  {
    CausalEvent(lamportTs, nodeId, streamId, 0, payloadOffset, checksum)
  }

  /** `CausalEvent::with_flags`: all six fields copied. */
  function WithFlags(lamportTs: u64, nodeId: u32, streamId: u16, payloadOffset: u64, checksum: u32, flags: u16): (e: CausalEvent)
    ensures e.lamportTs == lamportTs && e.nodeId == nodeId && e.streamId == streamId
    ensures e.payloadOffset == payloadOffset && e.checksum == checksum
    ensures e.flags == flags
  {
    CausalEvent(lamportTs, nodeId, streamId, flags, payloadOffset, checksum)
  }

  /** `is_checkpoint`: the checkpoint bit of `flags` is set, i.e. `flags` is odd. */
  function IsCheckpoint(e: CausalEvent): (r: bool)
    ensures r <==> e.flags % 2 == 1
  {
    (e.flags as bv16) & FLAG_CHECKPOINT != 0
  }

  // ---------------------------------------------------------------------------
  // The order lemmas
  // ---------------------------------------------------------------------------

  /** `cmp` is lexicographic: the timestamp decides first, then the node, then the stream. */
  lemma CmpIsLexicographic(a: CausalEvent, b: CausalEvent)
    ensures a.lamportTs < b.lamportTs ==> Cmp(a, b) == Less
    ensures a.lamportTs > b.lamportTs ==> Cmp(a, b) == Greater
    ensures a.lamportTs == b.lamportTs && a.nodeId < b.nodeId ==> Cmp(a, b) == Less
    ensures a.lamportTs == b.lamportTs && a.nodeId > b.nodeId ==> Cmp(a, b) == Greater
    ensures a.lamportTs == b.lamportTs && a.nodeId == b.nodeId ==> Cmp(a, b) == CmpInt(a.streamId, b.streamId)
  {
  }

  /** `cmp` says `Equal` exactly when the three key fields agree. */
  lemma CmpEqualIffSameKey(a: CausalEvent, b: CausalEvent)
    ensures Cmp(a, b) == Equal <==> Key(a) == Key(b)
    ensures Eq(a, b) <==> (a.lamportTs == b.lamportTs && a.nodeId == b.nodeId && a.streamId == b.streamId)
  {
  }

  /** Swapping the arguments flips the answer (antisymmetry of `cmp`). */
  lemma CmpAntisymmetric(a: CausalEvent, b: CausalEvent)
    ensures Cmp(a, b) == Less <==> Cmp(b, a) == Greater
    ensures Cmp(a, b) == Equal <==> Cmp(b, a) == Equal
  {
  }

  /** `<` is irreflexive and `<=` is total. */
  lemma CmpIrreflexiveAndTotal(a: CausalEvent, b: CausalEvent)
    ensures !Lt(a, a) && Le(a, a)
    ensures Le(a, b) || Le(b, a)
  {
  }

  /** `<=` and `<` are transitive. */
  lemma CmpTransitive(a: CausalEvent, b: CausalEvent, c: CausalEvent)
    ensures Le(a, b) && Le(b, c) ==> Le(a, c)
    ensures Lt(a, b) && Le(b, c) ==> Lt(a, c)
    ensures Le(a, b) && Lt(b, c) ==> Lt(a, c)
  {
  }

  /** `cmp` and `==` never look at `flags`, `payload_offset` or `checksum`. */
  lemma CmpIgnoresPayloadFields(a: CausalEvent, b: CausalEvent, flags: u16, offset: u64, checksum: u32)
    ensures Cmp(a.(flags := flags, payloadOffset := offset, checksum := checksum), b) == Cmp(a, b)
    ensures Cmp(b, a.(flags := flags, payloadOffset := offset, checksum := checksum)) == Cmp(b, a)
    ensures Eq(a, a.(flags := flags, payloadOffset := offset, checksum := checksum))
  {
  }

  /** Events built by `new` are never checkpoints; `with_flags` sets the bit iff `flags` is odd. */
  lemma CheckpointBit(ts: u64, node: u32, stream: u16, offset: u64, checksum: u32, flags: u16)
    ensures !IsCheckpoint(New(ts, node, stream, offset, checksum))
    ensures IsCheckpoint(WithFlags(ts, node, stream, offset, checksum, flags)) <==> flags % 2 == 1
    ensures IsCheckpoint(WithFlags(ts, node, stream, offset, checksum, FLAG_CHECKPOINT as int))
  {
  }
}
