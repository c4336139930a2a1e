/**
 * The memory-mapped journal: one byte buffer split into an index ring of
 * 32-byte event slots, `[0, ringSize)`, and blob storage for payloads,
 * `[ringSize, size)`. The ring size (1 GiB in the source) is a parameter.
 */
module JournalStore {
  import opened Wrappers
  import opened Widths
  import opened CausalEvents
  import opened EventLayout

  /** `INDEX_RING_SIZE` of the source: 1 GiB. */
  const INDEX_RING_SIZE: nat := 1024 * 1024 * 1024

  /** `DEFAULT_JOURNAL_SIZE` of the source: 100 GiB. */
  const DEFAULT_JOURNAL_SIZE: nat := 100 * 1024 * 1024 * 1024

  /** `INDEX_RING_CAPACITY`: how many whole records fit in a ring of `ringSize` bytes. */
  function RingCapacityOf(ringSize: nat): (r: nat)
    ensures r * EVENT_SIZE <= ringSize < (r + 1) * EVENT_SIZE
  {
    ringSize / EVENT_SIZE
  }

  /** Byte offset of a slot (`slot * size_bytes()`). */
  function SlotOffset(slot: nat): nat
  {
    slot * EVENT_SIZE
  }

  // ---------------------------------------------------------------------------
  // Slot access on a byte image of the map
  // ---------------------------------------------------------------------------

  /** The bytes of `mem` after writing `e` into `slot`. */
  function WriteSlot(mem: seq<u8>, slot: nat, e: CausalEvent): (r: seq<u8>)
    requires SlotOffset(slot) + EVENT_SIZE <= |mem|
    ensures |r| == |mem|
  {
    mem[..SlotOffset(slot)] + EncodeEvent(e) + mem[SlotOffset(slot) + EVENT_SIZE..]
  }

  /** A slot write puts the event's image in the slot's 32 bytes and changes no other byte. */
  lemma WriteSlotBytes(mem: seq<u8>, slot: nat, e: CausalEvent)
    requires SlotOffset(slot) + EVENT_SIZE <= |mem|
    ensures forall i :: 0 <= i < |mem| && !(SlotOffset(slot) <= i < SlotOffset(slot) + EVENT_SIZE) ==>
              WriteSlot(mem, slot, e)[i] == mem[i]
    ensures WriteSlot(mem, slot, e)[SlotOffset(slot)..SlotOffset(slot) + EVENT_SIZE] == EncodeEvent(e)
  {
  }

  /** The event stored in `slot` of `mem`. */
  function ReadSlot(mem: seq<u8>, slot: nat): CausalEvent
    requires SlotOffset(slot) + EVENT_SIZE <= |mem|
  {
    DecodeEvent(mem[SlotOffset(slot)..SlotOffset(slot) + EVENT_SIZE])
  }

  /** Reading a slot just written gives the written event back, field for field. */
  lemma ReadAfterWrite(mem: seq<u8>, slot: nat, e: CausalEvent)
    requires SlotOffset(slot) + EVENT_SIZE <= |mem|
    ensures ReadSlot(WriteSlot(mem, slot, e), slot) == e
  {
    WriteSlotBytes(mem, slot, e);
    DecodeEncodeEvent(e);
  }

  /** Writing one slot leaves every other slot's content as it was. */
  lemma WriteKeepsOtherSlots(mem: seq<u8>, slot: nat, other: nat, e: CausalEvent)
    requires SlotOffset(slot) + EVENT_SIZE <= |mem|
    requires SlotOffset(other) + EVENT_SIZE <= |mem|
    requires slot != other
    ensures ReadSlot(WriteSlot(mem, slot, e), other) == ReadSlot(mem, other)
  {
    var m := WriteSlot(mem, slot, e);
    WriteSlotBytes(mem, slot, e);
    assert m[SlotOffset(other)..SlotOffset(other) + EVENT_SIZE]
        == mem[SlotOffset(other)..SlotOffset(other) + EVENT_SIZE];
  }

  /** Writing a ring slot leaves the blob region `[ringSize, |mem|)` as it was. */
  lemma WriteKeepsBlob(mem: seq<u8>, ringSize: nat, slot: nat, e: CausalEvent)
    requires slot < RingCapacityOf(ringSize)
    requires ringSize <= |mem|
    ensures WriteSlot(mem, slot, e)[ringSize..] == mem[ringSize..]
  {
    WriteSlotBytes(mem, slot, e);
  }

  /** Writing the same slot twice keeps only the second write. */
  lemma WriteOverwrites(mem: seq<u8>, slot: nat, e1: CausalEvent, e2: CausalEvent)
    requires SlotOffset(slot) + EVENT_SIZE <= |mem|
    ensures WriteSlot(WriteSlot(mem, slot, e1), slot, e2) == WriteSlot(mem, slot, e2)
  {
  }

  /**
   * `file.set_len(size)` on a file whose bytes were `existing`: truncated,
   * or extended with zeros.
   */
  function SetLen(existing: seq<u8>, size: nat): (r: seq<u8>)
    ensures |r| == size
    ensures forall i :: 0 <= i < size ==> r[i] == if i < |existing| then existing[i] else 0
  {
    if size <= |existing| then existing[..size] else existing + seq(size - |existing|, _ => 0)
  }

  // ---------------------------------------------------------------------------
  // Region geometry
  // ---------------------------------------------------------------------------

  /**
   * `blob_capacity` as written: `size as usize - INDEX_RING_SIZE` on a 64-bit
   * target. With overflow checks off the subtraction wraps; with them on it
   * panics. Nothing checks `size >= INDEX_RING_SIZE` beforehand.
   */
  function BlobCapacityAsWritten(size: u64, ringSize: u64): (r: u64)
    ensures size >= ringSize ==> r == size - ringSize
    ensures size < ringSize ==> r == size - ringSize + U64_MODULUS
  {
    (size - ringSize) % U64_MODULUS
  }

  /** The hub's default journal size: 2 MiB. */
  const HUB_DEFAULT_JOURNAL_SIZE: nat := 2 * 1024 * 1024

  /**
   * With the hub's default size and the real ring size, the computed blob
   * capacity is larger than the whole file: the two regions cannot both fit.
   */
  lemma HubDefaultGeometryUnderflows()
    ensures HUB_DEFAULT_JOURNAL_SIZE < INDEX_RING_SIZE
    ensures BlobCapacityAsWritten(HUB_DEFAULT_JOURNAL_SIZE, INDEX_RING_SIZE) > HUB_DEFAULT_JOURNAL_SIZE
    ensures BlobCapacityAsWritten(HUB_DEFAULT_JOURNAL_SIZE, INDEX_RING_SIZE) + INDEX_RING_SIZE != HUB_DEFAULT_JOURNAL_SIZE
  {
  }

  /**
   * The geometry check `open` needs: a journal of `size` bytes holds a ring
   * of `ringSize` bytes only if `size >= ringSize`; the blob is the rest.
   */
  function CheckGeometry(size: u64, ringSize: nat): (r: Result<nat, string>)
    ensures r.Ok? <==> ringSize <= size
    ensures r.Ok? ==> r.value + ringSize == size
    ensures r.Ok? ==> r.value == BlobCapacityAsWritten(size, ringSize % U64_MODULUS)
  {
    if size < ringSize then Err("journal size is smaller than the index ring")
    else var blob: nat := size - ringSize; Ok(blob)
  }

  /** The corrected check refuses the hub's default geometry. */
  lemma HubDefaultGeometryRejected()
    ensures CheckGeometry(HUB_DEFAULT_JOURNAL_SIZE, INDEX_RING_SIZE).Err?
    ensures CheckGeometry(DEFAULT_JOURNAL_SIZE, INDEX_RING_SIZE) == Ok(DEFAULT_JOURNAL_SIZE - INDEX_RING_SIZE)
  {
  }

  // ---------------------------------------------------------------------------
  // The journal object
  // ---------------------------------------------------------------------------

  class Journal {
    /** The map over the file; its length never changes after `open`. */
    const mmap: array<u8>
    /** `size` as passed to `open`. */
    const size: u64
    /** `INDEX_RING_SIZE`. */
    const ringSize: nat
    /** The records the index ring holds, slot by slot (the decoded view of its bytes). */
    ghost var ring: seq<CausalEvent>

    ghost predicate Valid()
      reads this, mmap
    {
      mmap.Length == size && ringSize <= size && |ring| == RingCapacity()
      && forall i {:trigger ReadSlot(mmap[..], i)} :: 0 <= i < |ring| ==> ReadSlot(mmap[..], i) == ring[i]
    }

    /**
     * `Journal::open(path, size)` on a file whose previous bytes were
     * `existing` (empty for a new file). Requires the geometry that
     * `CheckGeometry` accepts.
     */
    constructor Open(existing: seq<u8>, size: u64, ringSize: nat)
      requires CheckGeometry(size, ringSize).Ok?
      ensures Valid()
      ensures this.size == size && this.ringSize == ringSize
      ensures mmap[..] == SetLen(existing, size)
      ensures fresh(mmap)
    {
      var image := SetLen(existing, size);
      var cap := RingCapacityOf(ringSize);
      this.size := size;
      this.ringSize := ringSize;
      mmap := new u8[size](i requires 0 <= i < size => image[i]);
      ring := seq(cap, i requires 0 <= i < cap => ReadSlot(image, i));
      new;
      assert mmap[..] == image;
    }

    /** `size()`: the size passed to `open`, which is also the map's length. */
    function Size(): (r: u64)
      requires Valid()
      reads this, mmap
      ensures r == mmap.Length
    {
      size
    }

    /** `INDEX_RING_CAPACITY`. */
    function RingCapacity(): (r: nat)
      reads this
      ensures r * EVENT_SIZE <= ringSize
    {
      RingCapacityOf(ringSize)
    }

    /** `index_ring()`: bytes `[0, ringSize)`. */
    function IndexRing(): (r: seq<u8>)
      requires Valid()
      reads this, mmap
      ensures |r| == ringSize
      ensures r == mmap[..][..ringSize]
    {
      mmap[..ringSize]
    }

    /** `blob_storage()`: bytes `[ringSize, size)`. */
    function BlobStorage(): (r: seq<u8>)
      requires Valid()
      reads this, mmap
      ensures |r| == size - ringSize
    {
      mmap[ringSize..]
    }

    /** The index ring and the blob region are disjoint and together make up the whole map. */
    lemma RegionsCoverMap()
      requires Valid()
      ensures IndexRing() + BlobStorage() == mmap[..]
      ensures forall i :: 0 <= i < |BlobStorage()| ==> BlobStorage()[i] == mmap[ringSize + i]
    {
    }

    /** `blob_capacity()`: the length of the blob region. */
    function BlobCapacity(): (r: nat)
      requires Valid()
      reads this, mmap
      ensures r + ringSize == size
      ensures r == BlobCapacityAsWritten(size, ringSize % U64_MODULUS)
    {
      size - ringSize
    }

    /** `read_event_at(slot)`: the event whose image is in the slot's 32 bytes. */
    function ReadEventAt(slot: nat): (e: CausalEvent)
      requires Valid() && slot < RingCapacity()
      reads this, mmap
      ensures e == ring[slot]
    {
      ReadSlot(mmap[..], slot)
    }

    /** `write_event_at(slot, e)`: copies the 32-byte image of `e` into the slot. */
    method WriteEventAt(slot: nat, e: CausalEvent)
      requires Valid() && slot < RingCapacity()
      modifies this`ring, mmap
      ensures Valid()
      ensures mmap[..] == WriteSlot(old(mmap[..]), slot, e)
      ensures ring == old(ring)[slot := e]
      ensures BlobStorage() == old(BlobStorage())
    {
      ghost var before := mmap[..];
      CopyIntoSlot(slot, EncodeEvent(e));
      ring := ring[slot := e];
      forall i | 0 <= i < |ring|
        ensures ReadSlot(mmap[..], i) == ring[i]
      {
        if i == slot {
          ReadAfterWrite(before, slot, e);
        } else {
          WriteKeepsOtherSlots(before, slot, i, e);
        }
      }
      WriteKeepsBlob(before, ringSize, slot, e);
    }

    /** The byte loop of `write_event_at`: `src` copied over the slot's 32 bytes. */
    method CopyIntoSlot(slot: nat, src: seq<u8>)
      requires SlotOffset(slot) + EVENT_SIZE <= mmap.Length && |src| == EVENT_SIZE
      modifies mmap
      ensures mmap[..] == old(mmap[..])[..SlotOffset(slot)] + src + old(mmap[..])[SlotOffset(slot) + EVENT_SIZE..]
    {
      var offset := slot * EVENT_SIZE;
      ghost var before := mmap[..];
      for i := 0 to EVENT_SIZE
        invariant forall j :: 0 <= j < mmap.Length && !(offset <= j < offset + i) ==> mmap[j] == before[j]
        invariant forall j :: 0 <= j < i ==> mmap[offset + j] == src[j]
      {
        mmap[offset + i] := src[i];
      }
      assert mmap[..] == before[..offset] + src + before[offset + EVENT_SIZE..];
    }
  }

  /**
   * Two writes to different slots, then reads: each slot returns its own event,
   * and a slot not written returns what it held before.
   */
  method WriteTwoThenRead(journal: Journal, s1: nat, s2: nat, other: nat, e1: CausalEvent, e2: CausalEvent)
    returns (r1: CausalEvent, r2: CausalEvent, untouched: CausalEvent)
    requires journal.Valid()
    requires s1 < journal.RingCapacity() && s2 < journal.RingCapacity() && other < journal.RingCapacity()
    requires s1 != s2 && other != s1 && other != s2
    modifies journal`ring, journal.mmap
    ensures r1 == e1 && r2 == e2
    ensures untouched == old(journal.ReadEventAt(other))
  {
    journal.WriteEventAt(s1, e1);
    journal.WriteEventAt(s2, e2);
    r1 := journal.ReadEventAt(s1);
    r2 := journal.ReadEventAt(s2);
    untouched := journal.ReadEventAt(other);
  }
}
