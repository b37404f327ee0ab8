/**
 The single-producer/single-consumer ring buffer of include/ring_buffer.hpp as a
 value: a slot sequence of length `capacity` addressed by two counters that only
 grow. `Contents` abstracts a state to the FIFO queue it stands for, and the
 operations are specified against that queue.
 */
module Ring {
  import opened Bits
  import opened Options

  /** `slots` stands for `buffer_`, `head` and `tail` for `head_` and `tail_`. */
  datatype RingState<T> = RingState(capacity: nat, slots: seq<T>, head: nat, tail: nat)

  /** Outcome of `try_push`: the new state and the returned flag. */
  datatype PushResult<T> = PushResult(ring: RingState<T>, ok: bool)

  /** Outcome of `try_pop`: the new state and the item read, if any. */
  datatype PopResult<T> = PopResult(ring: RingState<T>, item: Option<T>)

  /** Class invariant: power-of-two capacity, one slot per index, and at most
      `capacity - 1` items between `tail` and `head`. */
  predicate Valid<T>(r: RingState<T>) {
    && IsPowerOfTwo(r.capacity)
    && |r.slots| == r.capacity
    && r.tail <= r.head
    && r.head - r.tail <= r.capacity - 1
  }

  /** The queue a state stands for: the items in slots `tail .. head - 1`, oldest first. */
  ghost function Contents<T>(r: RingState<T>): seq<T>
    requires Valid(r)
  {
    seq(r.head - r.tail, i requires 0 <= i < r.head - r.tail => r.slots[(r.tail + i) % r.capacity])
  }

  /** A freshly constructed buffer: both counters zero, every slot holding `init`. */
  function New<T>(capacity: nat, init: T): (r: RingState<T>)
    requires IsPowerOfTwo(capacity)
    ensures Valid(r)
    ensures Contents(r) == []
    ensures r.capacity == capacity
    ensures r.head == 0 && r.tail == 0
  {
    RingState(capacity, seq(capacity, _ => init), 0, 0)
  }

  /** `try_push`: refuse when the masked distance equals the mask, otherwise
      write slot `head & mask` and advance `head`. */
  function TryPush<T>(r: RingState<T>, item: T): (result: PushResult<T>)
    requires Valid(r)
    ensures Valid(result.ring)
    ensures result.ok <==> |Contents(r)| < r.capacity - 1
    ensures result.ok ==> Contents(result.ring) == Contents(r) + [item]
    ensures !result.ok ==> result.ring == r
    ensures result.ok ==>
              && result.ring.capacity == r.capacity
              && result.ring.head == r.head + 1
              && result.ring.tail == r.tail
  {
    var distance := r.head - r.tail;
    MaskIsModulo(distance, r.capacity);
    ModSmall(distance, r.capacity);
    if BitAnd(distance, Mask(r.capacity)) == Mask(r.capacity) then
      PushResult(r, false)
    else
      var r' := r.(slots := r.slots[Slot(r.head, r.capacity) := item], head := r.head + 1);
      PushAppends(r, item);
      PushResult(r', true)
  }

  /** Writing slot `head % capacity` and advancing `head` appends to the queue:
      the slots of the queued items are all different from the written one. */
  lemma PushAppends<T>(r: RingState<T>, item: T)
    requires Valid(r) && r.head - r.tail < r.capacity - 1
    ensures var r' := r.(slots := r.slots[r.head % r.capacity := item], head := r.head + 1);
            Valid(r') && Contents(r') == Contents(r) + [item]
  {
    var r' := r.(slots := r.slots[r.head % r.capacity := item], head := r.head + 1);
    forall i | 0 <= i < |Contents(r)|
      ensures Contents(r')[i] == Contents(r)[i]
    {
      SlotsDistinct(r.tail + i, r.head, r.capacity);
    }
  }

  /** A successful push writes `item` into slot `head % capacity` and no other slot. */
  lemma PushWritesOnlyHeadSlot<T>(r: RingState<T>, item: T)
    requires Valid(r)
    ensures var result := TryPush(r, item);
            result.ok ==>
              && result.ring.slots[r.head % r.capacity] == item
              && forall i :: 0 <= i < r.capacity && i != r.head % r.capacity ==> result.ring.slots[i] == r.slots[i]
  {
  }

  /** Two counters less than `capacity` apart address different slots. */
  lemma SlotsDistinct(a: nat, b: nat, capacity: nat)
    requires capacity > 0
    requires a < b < a + capacity
    ensures a % capacity != b % capacity
  {
    var qa, qb := a / capacity, b / capacity;
    if a % capacity == b % capacity {
      assert capacity * (qb - qa) == b - a by {
        assert a == capacity * qa + a % capacity && b == capacity * qb + b % capacity;
        assert capacity * qb - capacity * qa == capacity * (qb - qa);
      }
      MulSign(capacity, qb - qa);
    }
  }

  /** `try_pop`: refuse when `tail == head`, otherwise read slot `tail & mask` and advance `tail`. */
  function TryPop<T>(r: RingState<T>): (result: PopResult<T>)
    requires Valid(r)
    ensures Valid(result.ring)
    ensures result.item.None? <==> Contents(r) == []
    ensures result.item.None? ==> result.ring == r
    ensures result.item.Some? ==>
              && result.item.value == Contents(r)[0]
              && result.item.value == r.slots[r.tail % r.capacity]
              && Contents(result.ring) == Contents(r)[1..]
              && result.ring == r.(tail := r.tail + 1)
  {
    if r.tail == r.head then
      PopResult(r, None)
    else
      var item := r.slots[Slot(r.tail, r.capacity)];
      var r' := r.(tail := r.tail + 1);
      assert Contents(r') == Contents(r)[1..];
      PopResult(r', Some(item))
  }

  /** `is_empty`: the two counters coincide. */
  predicate IsEmpty<T>(r: RingState<T>)
    requires Valid(r)
    ensures IsEmpty(r) <==> Contents(r) == []
  {
    r.head == r.tail
  }

  /** `is_full`: the masked distance equals the mask. */
  predicate IsFull<T>(r: RingState<T>)
    requires Valid(r)
    ensures IsFull(r) <==> |Contents(r)| == r.capacity - 1
  {
    MaskIsModulo(r.head - r.tail, r.capacity);
    ModSmall(r.head - r.tail, r.capacity);
    BitAnd(r.head - r.tail, Mask(r.capacity)) == Mask(r.capacity)
  }
}
