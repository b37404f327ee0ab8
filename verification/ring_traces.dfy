/**
 Sequences of `try_push` / `try_pop` calls on one ring buffer, run one at a
 time: batches of pushes, batches of pops, and arbitrary single-producer /
 single-consumer interleavings. The headline result is FIFO order with no loss
 and no duplication, across any number of wraparounds of the slot index.
 */
module RingTraces {
  import opened Bits
  import opened Options
  import opened Ring

  /** The state after a batch of pushes and the flag each `try_push` returned. */
  datatype PushBatch<T> = PushBatch(ring: RingState<T>, oks: seq<bool>)

  /** The state after a batch of pops and the items the successful ones returned. */
  datatype PopBatch<T> = PopBatch(ring: RingState<T>, items: seq<T>)

  /** Free slots: how many more pushes succeed before the buffer reports full. */
  ghost function Room<T>(r: RingState<T>): nat
    requires Valid(r)
  {
    r.capacity - 1 - |Contents(r)|
  }

  function Min(a: nat, b: nat): nat {
    if a <= b then a else b
  }

  /** Taking `Min(|s|, n)` items is taking the first and then `Min(|s| - 1, n - 1)` of the rest. */
  lemma TakeShift<T>(s: seq<T>, n: nat)
    requires |s| > 0 && n > 0
    ensures s[..Min(|s|, n)] == [s[0]] + s[1..][..Min(|s| - 1, n - 1)]
    ensures s[..Min(n, |s|)] == [s[0]] + s[1..][..Min(n - 1, |s| - 1)]
    ensures s[Min(n, |s|)..] == s[1..][Min(n - 1, |s| - 1)..]
  {
  }

  /** The step of `PushAll` after a successful first push, stated on plain sequences:
      `queue` is the contents before, `after` the contents once the rest is pushed. */
  lemma PushAllOkStep<T>(queue: seq<T>, after: seq<T>, items: seq<T>, room: nat, oks: seq<bool>)
    requires |items| > 0 && room > 0
    requires after == (queue + [items[0]]) + items[1..][..Min(|items| - 1, room - 1)]
    requires |oks| == |items| - 1
    requires forall j :: 0 <= j < |oks| ==> (oks[j] <==> j < room - 1)
    ensures after == queue + items[..Min(|items|, room)]
    ensures forall i :: 0 <= i < |items| ==> (([true] + oks)[i] <==> i < room)
    ensures 1 + Min(|items| - 1, room - 1) == Min(|items|, room)
  {
    TakeShift(items, room);
  }

  /** The step of `PushAll` after a failed first push: the buffer is full and stays so. */
  lemma PushAllFailStep<T>(queue: seq<T>, after: seq<T>, items: seq<T>, oks: seq<bool>)
    requires |items| > 0
    requires after == queue + items[1..][..Min(|items| - 1, 0)]
    requires |oks| == |items| - 1
    requires forall j :: 0 <= j < |oks| ==> !oks[j]
    ensures after == queue + items[..Min(|items|, 0)]
    ensures forall i :: 0 <= i < |items| ==> !([false] + oks)[i]
  {
  }

  /** Push `items` one after another with no pop in between. Exactly the first
      `Room(r)` pushes succeed; once full, every later push fails. */
  function PushAll<T>(r: RingState<T>, items: seq<T>): (result: PushBatch<T>)
    requires Valid(r)
    ensures Valid(result.ring)
    ensures result.ring.capacity == r.capacity
    ensures |result.oks| == |items|
    ensures forall i :: 0 <= i < |items| ==> (result.oks[i] <==> i < Room(r))
    ensures Contents(result.ring) == Contents(r) + items[..Min(|items|, Room(r))]
    ensures result.ring.head == r.head + Min(|items|, Room(r)) && result.ring.tail == r.tail
    decreases |items|
  {
    if items == [] then
      PushBatch(r, [])
    else
      var step := TryPush(r, items[0]);
      var rest := PushAll(step.ring, items[1..]);
      if step.ok then
        assert Room(step.ring) == Room(r) - 1;
        PushAllOkStep(Contents(r), Contents(rest.ring), items, Room(r), rest.oks);
        PushBatch(rest.ring, [true] + rest.oks)
      else
        assert step.ring == r && Room(r) == 0;
        PushAllFailStep(Contents(r), Contents(rest.ring), items, rest.oks);
        PushBatch(rest.ring, [false] + rest.oks)
  }

  /** `PushAll` unfolded once: the first push, then the rest from the state it leaves. */
  lemma PushAllFirst<T>(r: RingState<T>, items: seq<T>)
    requires Valid(r) && |items| > 0
    ensures var step := TryPush(r, items[0]);
            var rest := PushAll(step.ring, items[1..]);
            PushAll(r, items) == PushBatch(rest.ring, [step.ok] + rest.oks)
  {
  }

  /** Call `try_pop` `n` times with no push in between, keeping what the successful calls return. */
  function PopAll<T>(r: RingState<T>, n: nat): (result: PopBatch<T>)
    requires Valid(r)
    ensures Valid(result.ring)
    ensures result.ring.capacity == r.capacity
    ensures result.items == Contents(r)[..Min(n, |Contents(r)|)]
    ensures Contents(result.ring) == Contents(r)[Min(n, |Contents(r)|)..]
    ensures result.ring.head == r.head && result.ring.tail == r.tail + |result.items|
    decreases n
  {
    if n == 0 then
      PopBatch(r, [])
    else
      var step := TryPop(r);
      match step.item
      case None => PopBatch(r, [])
      case Some(x) =>
        var rest := PopAll(step.ring, n - 1);
        TakeShift(Contents(r), n);
        PopBatch(rest.ring, [x] + rest.items)
  }

  /** One call by the producer or by the consumer. */
  datatype Op<T> = Push(item: T) | Pop

  /** The items the push calls among `ops` offer, in call order. */
  function PushItems<T>(ops: seq<Op<T>>): seq<T> {
    if ops == [] then []
    else (match ops[0] case Push(x) => [x] case Pop => []) + PushItems(ops[1..])
  }

  /** The items of `xs` whose flag in `keep` is set, in order. */
  function Select<T>(xs: seq<T>, keep: seq<bool>): seq<T>
    requires |xs| == |keep|
  {
    if xs == [] then [] else (if keep[0] then [xs[0]] else []) + Select(xs[1..], keep[1..])
  }

  /** The number of clear flags. */
  function CountFalse(keep: seq<bool>): nat {
    if keep == [] then 0 else (if keep[0] then 0 else 1) + CountFalse(keep[1..])
  }

  /** Every item is either selected or counted as refused. */
  lemma {:induction false} SelectCount<T>(xs: seq<T>, keep: seq<bool>)
    requires |xs| == |keep|
    ensures |Select(xs, keep)| + CountFalse(keep) == |keep|
    decreases |xs|
  {
    if xs != [] {
      SelectCount(xs[1..], keep[1..]);
    }
  }

  /** The state after a run, the flag each `try_push` returned, the items of
      the pushes that succeeded and the items the successful pops returned. */
  datatype Trace<T> = Trace(ring: RingState<T>, oks: seq<bool>, pushed: seq<T>, popped: seq<T>)

  /** Run an interleaving of producer and consumer calls, one call at a time.
      The accepted items are the offered items whose push succeeded, and while
      the buffer has room for every offered item all pushes succeed. What was
      queued plus what was accepted equals what was handed out plus what is
      still queued: nothing is lost, duplicated or reordered. */
  function Run<T>(r: RingState<T>, ops: seq<Op<T>>): (t: Trace<T>)
    requires Valid(r)
    ensures Valid(t.ring)
    ensures t.ring.capacity == r.capacity
    ensures |t.oks| == |PushItems(ops)|
    ensures t.pushed == Select(PushItems(ops), t.oks)
    ensures |Contents(r)| + |PushItems(ops)| <= r.capacity - 1 ==> forall i :: 0 <= i < |t.oks| ==> t.oks[i]
    ensures Contents(r) + t.pushed == t.popped + Contents(t.ring)
    decreases |ops|
  {
    if ops == [] then
      Trace(r, [], [], [])
    else
      match ops[0]
      case Push(x) =>
        var step := TryPush(r, x);
        var rest := Run(step.ring, ops[1..]);
        assert PushItems(ops) == [x] + PushItems(ops[1..]);
        RunFlagStep(PushItems(ops), rest.oks, step.ok);
        AllSetCons(step.ok, rest.oks);
        if step.ok then
          RunPushStep(Contents(r), x, rest.pushed, rest.popped, Contents(rest.ring));
          Trace(rest.ring, [true] + rest.oks, [x] + rest.pushed, rest.popped)
        else
          Trace(rest.ring, [false] + rest.oks, rest.pushed, rest.popped)
      case Pop =>
        var step := TryPop(r);
        var rest := Run(step.ring, ops[1..]);
        assert PushItems(ops) == PushItems(ops[1..]);
        match step.item
        case None => Trace(rest.ring, rest.oks, rest.pushed, rest.popped)
        case Some(y) =>
          RunPopStep(Contents(r), Contents(step.ring), rest.pushed, rest.popped, Contents(rest.ring));
          Trace(rest.ring, rest.oks, rest.pushed, [y] + rest.popped)
  }

  /** `Select` after a push, on plain sequences. */
  lemma RunFlagStep<T>(items: seq<T>, oks: seq<bool>, ok: bool)
    requires |items| == |oks| + 1
    ensures Select(items, [ok] + oks) == (if ok then [items[0]] else []) + Select(items[1..], oks)
  {
    assert ([ok] + oks)[1..] == oks;
  }

  /** Prepending a set flag to flags that are all set keeps them all set. */
  lemma AllSetCons(ok: bool, oks: seq<bool>)
    ensures ok && (forall i :: 0 <= i < |oks| ==> oks[i]) ==> forall i :: 0 <= i < |oks| + 1 ==> ([ok] + oks)[i]
  {
  }

  /** The bookkeeping of `Run` after a successful push, on plain sequences. */
  lemma RunPushStep<T>(queue: seq<T>, x: T, pushed: seq<T>, popped: seq<T>, left: seq<T>)
    requires (queue + [x]) + pushed == popped + left
    ensures queue + ([x] + pushed) == popped + left
  {
    assert queue + ([x] + pushed) == (queue + [x]) + pushed;
  }

  /** The bookkeeping of `Run` after a successful pop, on plain sequences. */
  lemma RunPopStep<T>(queue: seq<T>, rest: seq<T>, pushed: seq<T>, popped: seq<T>, left: seq<T>)
    requires |queue| > 0 && rest == queue[1..]
    requires rest + pushed == popped + left
    ensures queue + pushed == ([queue[0]] + popped) + left
  {
    assert queue == [queue[0]] + rest;
    assert queue + pushed == [queue[0]] + (rest + pushed);
  }

  /** FIFO from an empty buffer: the popped items are a prefix of the pushed
      items, and the rest of the pushed items are exactly what is still queued. */
  lemma FifoFromEmpty<T>(r: RingState<T>, ops: seq<Op<T>>)
    requires Valid(r) && Contents(r) == []
    ensures var t := Run(r, ops);
            && t.popped <= t.pushed
            && Contents(t.ring) == t.pushed[|t.popped|..]
            && (IsEmpty(t.ring) ==> t.popped == t.pushed)
  {
    var t := Run(r, ops);
    assert t.pushed == t.popped + Contents(t.ring);
  }

  /** From empty, `capacity - 1` pushes succeed, the buffer then reports full, and the next push fails. */
  lemma FillThenReject<T>(capacity: nat, init: T, items: seq<T>, extra: T)
    requires IsPowerOfTwo(capacity)
    requires |items| == capacity - 1
    ensures var filled := PushAll(New(capacity, init), items);
            && (forall i :: 0 <= i < |items| ==> filled.oks[i])
            && IsFull(filled.ring)
            && !IsEmpty(filled.ring) == (capacity > 1)
            && !TryPush(filled.ring, extra).ok
            && Contents(filled.ring) == items
  {
    var r := New(capacity, init);
    assert Room(r) == capacity - 1;
    assert items[..Min(|items|, Room(r))] == items;
  }

  /** Pushing at most `capacity - 1` items into an empty buffer and popping as
      many returns exactly those items and leaves the buffer empty. The counters
      may start anywhere, so this covers every wraparound of the slot index. */
  lemma PushPopRoundTrip<T>(r: RingState<T>, items: seq<T>)
    requires Valid(r) && IsEmpty(r)
    requires |items| <= r.capacity - 1
    ensures var pushed := PushAll(r, items);
            var popped := PopAll(pushed.ring, |items|);
            && (forall i :: 0 <= i < |items| ==> pushed.oks[i])
            && popped.items == items
            && IsEmpty(popped.ring)
  {
    var pushed := PushAll(r, items);
    assert Contents(r) == [] && Room(r) == r.capacity - 1;
    assert Min(|items|, Room(r)) == |items| && items[..|items|] == items;
    assert Contents(pushed.ring) == items by {
      assert Contents(pushed.ring) == [] + items[..|items|];
    }
    var popped := PopAll(pushed.ring, |items|);
    assert popped.items == items[..Min(|items|, |items|)];
    assert Contents(popped.ring) == items[|items|..] == [];
  }

  /** The items `base, base + 1, ..., base + n - 1`. */
  function Range(base: int, n: nat): (s: seq<int>)
    ensures |s| == n
    ensures forall i :: 0 <= i < n ==> s[i] == base + i
  {
    seq(n, i => base + i)
  }

  lemma EightIsPowerOfTwo()
    ensures IsPowerOfTwo(8)
  {
    assert IsPowerOfTwo(2);
    assert IsPowerOfTwo(4);
  }

  /** Capacity 8: pushing 0..6 succeeds, the buffer is full, pushing 999 fails,
      and seven pops return 0..6 in order and leave the buffer empty. */
  lemma FillCapacityEight()
    ensures IsPowerOfTwo(8)
    ensures var filled := PushAll(New(8, 0), Range(0, 7));
            var drained := PopAll(filled.ring, 7);
            && (forall i :: 0 <= i < 7 ==> filled.oks[i])
            && IsFull(filled.ring)
            && !TryPush(filled.ring, 999).ok
            && drained.items == Range(0, 7)
            && IsEmpty(drained.ring)
  {
    EightIsPowerOfTwo();
    FillThenReject(8, 0, Range(0, 7), 999);
    PushPopRoundTrip(New(8, 0), Range(0, 7));
  }

  /** One round of the wraparound scenario: seven pushes then seven pops on an empty capacity-8 buffer. */
  lemma RoundOfSeven(r: RingState<int>, base: int)
    requires Valid(r) && IsEmpty(r) && r.capacity == 8
    ensures var round := PopAll(PushAll(r, Range(base, 7)).ring, 7);
            && round.items == Range(base, 7)
            && Valid(round.ring) && IsEmpty(round.ring)
            && round.ring.capacity == 8
            && round.ring.head == r.head + 7
  {
    PushPopRoundTrip(r, Range(base, 7));
  }

  /** Three rounds of seven pushes then seven pops, with values offset by 100
      per round, on any empty capacity-8 buffer. */
  lemma ThreeRounds(r: RingState<int>)
    requires Valid(r) && IsEmpty(r) && r.capacity == 8
    ensures var round0 := PopAll(PushAll(r, Range(0, 7)).ring, 7);
            var round1 := PopAll(PushAll(round0.ring, Range(100, 7)).ring, 7);
            var round2 := PopAll(PushAll(round1.ring, Range(200, 7)).ring, 7);
            && round0.items == Range(0, 7)
            && round1.items == Range(100, 7)
            && round2.items == Range(200, 7)
            && IsEmpty(round2.ring)
            && round2.ring.head == r.head + 21
  {
    RoundOfSeven(r, 0);
    var round0 := PopAll(PushAll(r, Range(0, 7)).ring, 7);
    RoundOfSeven(round0.ring, 100);
    var round1 := PopAll(PushAll(round0.ring, Range(100, 7)).ring, 7);
    RoundOfSeven(round1.ring, 200);
  }

  /** Capacity 8, three rounds of seven pushes then seven pops with values
      offset by 100 per round: every round returns its own values, although
      the second and third rounds use slot indices that have wrapped around.
      This holds whatever value the slots start with. */
  lemma WraparoundCapacityEight(init: int)
    ensures IsPowerOfTwo(8)
    ensures var round0 := PopAll(PushAll(New(8, init), Range(0, 7)).ring, 7);
            var round1 := PopAll(PushAll(round0.ring, Range(100, 7)).ring, 7);
            var round2 := PopAll(PushAll(round1.ring, Range(200, 7)).ring, 7);
            && round0.items == Range(0, 7)
            && round1.items == Range(100, 7)
            && round2.items == Range(200, 7)
            && IsEmpty(round2.ring)
            && round2.ring.head == 21
  {
    EightIsPowerOfTwo();
    ThreeRounds(New(8, init));
  }
}
