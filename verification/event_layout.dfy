/**
 * The byte image of a `CausalEvent` (`#[repr(C)]`, little-endian):
 *
 *   lamport_ts@0(8) node_id@8(4) stream_id@12(2) flags@14(2)
 *   payload_offset@16(8) checksum@24(4) padding@28(4)
 *
 * This is what `Journal::write_event_at` copies into the index ring, what
 * `read_event_at` reinterprets, and how the event loop reads a datagram's
 * 32-byte header.
 */
module EventLayout {
  import opened Widths
  import opened CausalEvents

  function Pow256(n: nat): (r: nat)
    ensures r >= 1
  {
    if n == 0 then 1 else 256 * Pow256(n - 1)
  }

  lemma WidthModuli()
    ensures Pow256(2) == U16_MODULUS
    ensures Pow256(4) == U32_MODULUS
    ensures Pow256(8) == U64_MODULUS
  {
  }

  /** The `n` low-order bytes of `v`, least significant first (`to_le_bytes`). */
  function EncodeLE(v: nat, n: nat): (bs: seq<u8>)
    requires v < Pow256(n)
    ensures |bs| == n
  {
    if n == 0 then [] else [v % 256] + EncodeLE(v / 256, n - 1)
  }

  /** The value of little-endian bytes (`from_le_bytes`). */
  function DecodeLE(bs: seq<u8>): (v: nat)
    ensures v < Pow256(|bs|)
  {
    if |bs| == 0 then 0 else bs[0] + 256 * DecodeLE(bs[1..])
  }

  /** Decoding what was encoded gives the value back. */
  lemma {:induction false} DecodeEncodeLE(v: nat, n: nat)
    requires v < Pow256(n)
    ensures DecodeLE(EncodeLE(v, n)) == v
  {
    if n > 0 {
      DecodeEncodeLE(v / 256, n - 1);
      assert EncodeLE(v, n)[1..] == EncodeLE(v / 256, n - 1);
    }
  }

  /** The 32-byte image of an event; the four padding bytes are written as zero. */
  function EncodeEvent(e: CausalEvent): (bs: seq<u8>)
    ensures |bs| == EVENT_SIZE
  {
    WidthModuli();
    EncodeLE(e.lamportTs, 8) + EncodeLE(e.nodeId, 4) + EncodeLE(e.streamId, 2)
      + EncodeLE(e.flags, 2) + EncodeLE(e.payloadOffset, 8) + EncodeLE(e.checksum, 4)
      + [0, 0, 0, 0]
  }

  /** Reinterpret 32 bytes as an event (`std::ptr::read` of a `*const CausalEvent`). */
  function DecodeEvent(bs: seq<u8>): (e: CausalEvent)
    requires |bs| == EVENT_SIZE
    ensures e.lamportTs == DecodeLE(bs[0..8]) && e.checksum == DecodeLE(bs[24..28])
  {
    WidthModuli();
    CausalEvent(
      DecodeLE(bs[0..8]), DecodeLE(bs[8..12]), DecodeLE(bs[12..14]),
      DecodeLE(bs[14..16]), DecodeLE(bs[16..24]), DecodeLE(bs[24..28]))
  }

  /** Every field survives the trip through the byte image. */
  lemma DecodeEncodeEvent(e: CausalEvent)
    ensures DecodeEvent(EncodeEvent(e)) == e
  {
    WidthModuli();
    var bs := EncodeEvent(e);
    assert bs[0..8] == EncodeLE(e.lamportTs, 8);
    assert bs[8..12] == EncodeLE(e.nodeId, 4);
    assert bs[12..14] == EncodeLE(e.streamId, 2);
    assert bs[14..16] == EncodeLE(e.flags, 2);
    assert bs[16..24] == EncodeLE(e.payloadOffset, 8);
    assert bs[24..28] == EncodeLE(e.checksum, 4);
    DecodeEncodeLE(e.lamportTs, 8);
    DecodeEncodeLE(e.nodeId, 4);
    DecodeEncodeLE(e.streamId, 2);
    DecodeEncodeLE(e.flags, 2);
    DecodeEncodeLE(e.payloadOffset, 8);
    DecodeEncodeLE(e.checksum, 4);
  }

  /** Encoding is injective on all six fields (so the record keeps `flags` at offset 14). */
  lemma EncodeEventInjective(a: CausalEvent, b: CausalEvent)
    ensures EncodeEvent(a) == EncodeEvent(b) <==> a == b
  {
    if EncodeEvent(a) == EncodeEvent(b) {
      DecodeEncodeEvent(a);
      DecodeEncodeEvent(b);
    }
  }

  /** A zero-filled slot (a never-written part of a fresh file) reads as the all-zero event. */
  lemma ZeroBytesDecodeToZeroEvent()
    ensures DecodeEvent(seq(EVENT_SIZE, _ => 0)) == CausalEvent(0, 0, 0, 0, 0, 0)
  {
    var z := seq(EVENT_SIZE, _ => 0);
    assert z[0..8] == seq(8, _ => 0);
    assert z[8..12] == seq(4, _ => 0);
    assert z[12..14] == seq(2, _ => 0);
    assert z[14..16] == seq(2, _ => 0);
    assert z[16..24] == seq(8, _ => 0);
    assert z[24..28] == seq(4, _ => 0);
    ZeroDecode(8);
    ZeroDecode(4);
    ZeroDecode(2);
  }

  lemma {:induction false} ZeroDecode(n: nat)
    ensures DecodeLE(seq(n, _ => 0)) == 0
  {
    if n > 0 {
      assert seq(n, _ => 0)[1..] == seq(n - 1, _ => 0);
      ZeroDecode(n - 1);
    }
  }
}
