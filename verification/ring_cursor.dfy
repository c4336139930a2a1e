/**
 * The head/tail cursor over the index ring. Positions are physical slot
 * indices in `[0, capacity)`; every move is `(pos + 1) % capacity`. One
 * slot is always kept free, so the ring holds at most `capacity - 1`
 * events, and a full ring REFUSES `advance_head` (it never evicts).
 */
module RingCursor {
  import opened Wrappers

  class Cursor {
    /** Next slot to write into. */
    var head: nat
    /** Oldest unread slot. */
    var tail: nat
    /** Total number of slots. */
    const capacity: nat

    ghost predicate Valid()
      reads this
    {
      capacity >= 2 && head < capacity && tail < capacity
    }

    /** `Cursor::new`: the ring must have at least two slots. */
    constructor (capacity: nat)
      requires capacity >= 2
      ensures Valid()
      ensures this.capacity == capacity && head == 0 && tail == 0
      ensures IsEmpty() && !IsFull() && Len() == 0
    {
      this.capacity := capacity;
      head := 0;
      tail := 0;
    }

    /**
     * `next_pos`: one step forward with wrap-around, `(pos + 1) % capacity`
     * (written without the division; `NextPosIsMod` shows they agree).
     */
    function NextPos(pos: nat): (r: nat)
      requires capacity >= 2 && pos < capacity
      ensures r < capacity
      ensures r == pos + 1 || (pos == capacity - 1 && r == 0)
    {
      if pos + 1 < capacity then pos + 1 else 0
    }

    lemma NextPosIsMod(pos: nat)
      requires capacity >= 2 && pos < capacity
      ensures NextPos(pos) == (pos + 1) % capacity
    {
    }

    /** `is_full`: one more step of `head` would land on `tail`. */
    predicate IsFull()
      reads this
      requires Valid()
    {
      NextPos(head) == tail
    }

    predicate IsEmpty()
      reads this
    {
      head == tail
    }

    /** `len`: the number of occupied slots, `(head - tail) mod capacity`. */
    function Len(): (r: nat)
      reads this
      requires Valid()
      ensures r <= capacity - 1
      ensures r == 0 <==> IsEmpty()
      ensures r == capacity - 1 <==> IsFull()
    {
      if head >= tail then head - tail else capacity - tail + head
    }

    /** `len` is the source's `(head - tail) mod capacity` (Euclidean, so never negative). */
    lemma LenIsMod()
      requires Valid()
      ensures Len() == (head - tail) % capacity
    {
      if head < tail {
        assert head - tail + capacity == Len();
      }
    }

    /**
     * `advance_head`: claims the slot at `head` and moves `head` one step,
     * or returns `None` and changes nothing when the ring is full.
     */
    method AdvanceHead() returns (slot: Option<nat>)
      requires Valid()
      modifies this
      ensures Valid() && tail == old(tail)
      ensures old(IsFull()) ==> slot == None && head == old(head)
      ensures !old(IsFull()) ==> slot == Some(old(head)) && head == NextPos(old(head))
      ensures !old(IsFull()) ==> Len() == old(Len()) + 1 && !IsEmpty()
    {
      if IsFull() {
        return None;
      }
      slot := Some(head);
      head := NextPos(head);
    }

    /**
     * `advance_tail`: releases the slot at `tail` and moves `tail` one
     * step, or returns `None` and changes nothing when the ring is empty.
     */
    method AdvanceTail() returns (slot: Option<nat>)
      requires Valid()
      modifies this
      ensures Valid() && head == old(head)
      ensures old(IsEmpty()) ==> slot == None && tail == old(tail)
      ensures !old(IsEmpty()) ==> slot == Some(old(tail)) && tail == NextPos(old(tail))
      ensures !old(IsEmpty()) ==> Len() == old(Len()) - 1 && !IsFull()
    {
      if IsEmpty() {
        return None;
      }
      slot := Some(tail);
      tail := NextPos(tail);
    }
  }

  /**
   * From an empty ring, exactly `capacity - 1` consecutive `advance_head`
   * calls succeed, handing out slots `0, 1, ..., capacity - 2`; the next
   * call returns `None`. (The `test_advance_head_returns_slot` scenario,
   * for every capacity.)
   */
  method FillFromEmpty(capacity: nat) returns (slots: seq<nat>, last: Option<nat>)
    requires capacity >= 2
    ensures |slots| == capacity - 1
    ensures forall i :: 0 <= i < |slots| ==> slots[i] == i
    ensures last == None
  {
    var c := new Cursor(capacity);
    slots := [];
    while |slots| < capacity - 1
      invariant c.Valid() && c.capacity == capacity
      invariant c.tail == 0 && c.head == |slots| <= capacity - 1
      invariant forall i :: 0 <= i < |slots| ==> slots[i] == i
    {
      var s := c.AdvanceHead();
      slots := slots + [s.value];
    }
    last := c.AdvanceHead();
  }

  /**
   * `verify_head_cannot_overwrite_tail`, for any capacity and any number of
   * `advance_head` calls on a fresh ring: a non-empty ring has
   * `head != tail`, and `len` never exceeds `capacity - 1`.
   */
  method HeadCannotOverwriteTail(capacity: nat, advances: nat) returns (head: nat, tail: nat, len: nat)
    requires capacity >= 2
    ensures tail == 0
    ensures head == len == (if advances < capacity - 1 then advances else capacity - 1)
    ensures len > 0 ==> head != tail
  {
    var c := new Cursor(capacity);
    var i := 0;
    while i < advances
      invariant c.Valid() && c.capacity == capacity && c.tail == 0
      invariant i <= advances
      invariant c.head == (if i < capacity - 1 then i else capacity - 1)
    {
      var _ := c.AdvanceHead();
      i := i + 1;
    }
    head, tail, len := c.head, c.tail, c.Len();
  }

  /**
   * `verify_len_consistency` and `test_advance_tail_frees_slot`: after
   * filling the ring and releasing one slot, the ring is no longer full and
   * `advance_head` hands out slot `capacity - 1`; the head wraps to 0.
   */
  method TailFreesSlot(capacity: nat) returns (freed: Option<nat>, next: Option<nat>, headAfter: nat)
    requires capacity >= 2
    ensures freed == Some(0)
    ensures next == Some(capacity - 1)
    ensures headAfter == 0
  {
    var c := new Cursor(capacity);
    var i := 0;
    while i < capacity - 1
      invariant c.Valid() && c.capacity == capacity && c.tail == 0
      invariant i <= capacity - 1 && c.head == i
    {
      var _ := c.AdvanceHead();
      i := i + 1;
    }
    freed := c.AdvanceTail();
    next := c.AdvanceHead();
    headAfter := c.head;
  }
}
