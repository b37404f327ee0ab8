/**
 The `RingBuffer` class itself: a fixed array and two counters, with a ghost
 queue `contents`. Each method is proved to perform exactly the step of the
 value-level model in module Ring, so every property proved there carries over.
 */
module RingArray {
  import opened Bits
  import Ring

  class RingBuffer<T> {
    const capacity: nat
    const buffer: array<T>
    var head: nat
    var tail: nat
    ghost var contents: seq<T>

    /** The value-level state this object currently represents. */
    ghost function State(): Ring.RingState<T>
      reads this, buffer
    {
      Ring.RingState(capacity, buffer[..], head, tail)
    }

    ghost predicate Valid()
      reads this, buffer
    {
      && buffer.Length == capacity
      && Ring.Valid(State())
      && contents == Ring.Contents(State())
    }

    /** `RingBuffer()`: both counters start at zero; the slots hold `init`. */
    constructor Init(capacity: nat, init: T)
      requires IsPowerOfTwo(capacity)
      ensures Valid()
      ensures contents == []
      ensures this.capacity == capacity && head == 0 && tail == 0
      ensures fresh(buffer)
    {
      this.capacity := capacity;
      buffer := new T[capacity](_ => init);
      head, tail := 0, 0;
      contents := [];
    }

    /** `try_push`. */
    method TryPush(item: T) returns (ok: bool)
      requires Valid()
      modifies this, buffer
      ensures Valid()
      ensures ok == Ring.TryPush(old(State()), item).ok
      ensures State() == Ring.TryPush(old(State()), item).ring
      ensures contents == if ok then old(contents) + [item] else old(contents)
    {
      var curHead := head;
      var curTail := tail;
      ghost var before := State();
      var distance := curHead - curTail;
      MaskIsModulo(distance, capacity);
      ModSmall(distance, capacity);
      if BitAnd(distance, Mask(capacity)) == Mask(capacity) {
        return false;
      }
      buffer[Slot(curHead, capacity)] := item;
      head := curHead + 1;
      assert State() == Ring.TryPush(before, item).ring;
      contents := contents + [item];
      ok := true;
    }

    /** `try_pop`: on failure the caller's `item` (here `prior`) is left as it was.
        The source advances `tail_` before reading the slot; run as one step, that
        is the same as reading first. */
    method TryPop(prior: T) returns (ok: bool, item: T)
      requires Valid()
      modifies this
      ensures Valid()
      ensures ok == Ring.TryPop(old(State())).item.Some?
      ensures ok ==> item == Ring.TryPop(old(State())).item.value
      ensures !ok ==> item == prior
      ensures State() == Ring.TryPop(old(State())).ring
      ensures contents == if ok then old(contents)[1..] else old(contents)
    {
      var curTail := tail;
      if curTail == head {
        return false, prior;
      }
      tail := curTail + 1;
      item := buffer[Slot(curTail, capacity)];
      contents := contents[1..];
      ok := true;
    }

    /** `is_empty`. */
    predicate IsEmpty()
      requires Valid()
      reads this, buffer
      ensures IsEmpty() <==> contents == []
    {
      head == tail
    }

    /** `is_full`. */
    predicate IsFull()
      requires Valid()
      reads this, buffer
      ensures IsFull() <==> |contents| == capacity - 1
    {
      MaskIsModulo(head - tail, capacity);
      ModSmall(head - tail, capacity);
      BitAnd(head - tail, Mask(capacity)) == Mask(capacity)
    }
  }
}
