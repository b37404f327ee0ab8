/**
 The asynchronous `Logger` of src/logger.cpp as a sequential state machine.
 Producer calls (`log`) and iterations of the background worker's polling loop
 are atomic steps applied one after another; teardown sets the shutdown flag
 and runs the worker's drain loop to the end. The log file is the sequence of
 lines written so far. The logger uses the ring buffer only through the
 contracts of Ring.TryPush and Ring.TryPop.
 */
module Logger {
  import opened Options
  import opened Bits
  import opened Ring
  import opened Decimals
  import opened LogFormat
  import RingTraces

  /** The logger's ring buffer is `RingBuffer<LogEntry, 1024>`, whatever `buffer_size` says. */
  const BufferCapacity: nat := 1024

  /** `ring` is `ring_buffer_`, `shutdown` is `shutdown_flag_`, `dropped` is
      `dropped_count_`, and `output` holds the lines written to `log_file_`. */
  datatype LoggerState = LoggerState(ring: RingState<LogEntry>, shutdown: bool, dropped: nat, output: seq<string>)

  /** The ring buffer is a valid 1024-slot buffer and every pending entry was built by `log`. */
  ghost predicate Invariant(l: LoggerState) {
    && Ring.Valid(l.ring)
    && l.ring.capacity == BufferCapacity
    && AllWellFormed(Contents(l.ring))
  }

  ghost predicate AllWellFormed(es: seq<LogEntry>) {
    forall i :: 0 <= i < |es| ==> WellFormed(es[i])
  }

  /** The lines the worker writes for `es`, in order. */
  function Records(es: seq<LogEntry>): (lines: seq<string>)
    requires AllWellFormed(es)
  {
    seq(|es|, i requires 0 <= i < |es| => Record(es[i]))
  }

  lemma RecordsAppend(a: seq<LogEntry>, b: seq<LogEntry>)
    requires AllWellFormed(a) && AllWellFormed(b)
    ensures AllWellFormed(a + b)
    ensures Records(a + b) == Records(a) + Records(b)
  {
    assert AllWellFormed(a + b) by {
      forall i | 0 <= i < |a + b| ensures WellFormed((a + b)[i]) {
        if i >= |a| {
          assert (a + b)[i] == b[i - |a|];
        }
      }
    }
  }

  lemma BufferCapacityIsPowerOfTwo()
    ensures IsPowerOfTwo(BufferCapacity)
  {
    assert IsPowerOfTwo(2);
    assert IsPowerOfTwo(4);
    assert IsPowerOfTwo(8);
    assert IsPowerOfTwo(16);
    assert IsPowerOfTwo(32);
    assert IsPowerOfTwo(64);
    assert IsPowerOfTwo(128);
    assert IsPowerOfTwo(256);
    assert IsPowerOfTwo(512);
  }

  /** The contents of a slot that has never been written. */
  function BlankEntry(): LogEntry {
    LogEntry(seq(MessageBufferSize, _ => Terminator), 0, 0)
  }

  /** `Logger::Logger`: empty buffer, flag clear, no drops, nothing written.
      `bufferSize` is accepted and ignored, as in the source. */
  function Create(bufferSize: nat): (l: LoggerState)
    ensures Invariant(l)
    ensures l.ring.capacity == BufferCapacity
    ensures Contents(l.ring) == []
    ensures !l.shutdown && l.dropped == 0 && l.output == []
  {
    BufferCapacityIsPowerOfTwo();
    LoggerState(New(BufferCapacity, BlankEntry()), false, 0, [])
  }

  /** `get_dropped_count`. */
  function DroppedCount(l: LoggerState): nat {
    l.dropped
  }

  /** `log`: build the entry and try to enqueue it; when the buffer is full,
      count a drop instead. Never fails and never touches the output. */
  function Log(l: LoggerState, message: string, timestamp: nat): (l': LoggerState)
    requires Invariant(l)
    requires timestamp < TimestampBound
    ensures Invariant(l')
    ensures l'.shutdown == l.shutdown && l'.output == l.output
    ensures l'.dropped == l.dropped || l'.dropped == l.dropped + 1
    ensures l'.dropped == l.dropped + 1 <==> |Contents(l.ring)| == BufferCapacity - 1
    ensures l'.dropped == l.dropped ==> Contents(l'.ring) == Contents(l.ring) + [MakeEntry(message, timestamp)]
    ensures l'.dropped == l.dropped + 1 ==> l'.ring == l.ring
  {
    var entry := MakeEntry(message, timestamp);
    var pushed := TryPush(l.ring, entry);
    if pushed.ok then
      assert AllWellFormed(Contents(pushed.ring)) by {
        assert Contents(pushed.ring) == Contents(l.ring) + [entry];
      }
      l.(ring := pushed.ring)
    else
      l.(dropped := l.dropped + 1)
  }

  /** One iteration of the worker's polling loop: while the flag is clear, pop
      one entry and write its line, or sleep when the buffer is empty. Once the
      flag is set the polling loop has ended and the step does nothing.
      Written plus pending lines are conserved. */
  function WorkerPoll(l: LoggerState): (l': LoggerState)
    requires Invariant(l)
    ensures Invariant(l')
    ensures l'.shutdown == l.shutdown && l'.dropped == l.dropped
    ensures l.shutdown || Contents(l.ring) == [] ==> l' == l
    ensures !l.shutdown && Contents(l.ring) != [] ==>
              && Contents(l'.ring) == Contents(l.ring)[1..]
              && l'.output == l.output + [Record(Contents(l.ring)[0])]
    ensures l'.output + Records(Contents(l'.ring)) == l.output + Records(Contents(l.ring))
  {
    if l.shutdown then l
    else
      var popped := TryPop(l.ring);
      match popped.item
      case None => l
      case Some(entry) =>
        WriteOldest(l, popped);
        l.(ring := popped.ring, output := l.output + [Record(entry)])
  }

  /** Writing the line of the entry a successful pop returned moves it from
      the pending entries to the output. */
  lemma WriteOldest(l: LoggerState, popped: PopResult<LogEntry>)
    requires Invariant(l)
    requires popped == TryPop(l.ring) && popped.item.Some?
    ensures var l' := l.(ring := popped.ring, output := l.output + [Record(popped.item.value)]);
            && Invariant(l')
            && Contents(l.ring) == [popped.item.value] + Contents(l'.ring)
            && l'.output + Records(Contents(l'.ring)) == l.output + Records(Contents(l.ring))
  {
    var queue, rest := Contents(l.ring), Contents(popped.ring);
    assert queue == [queue[0]] + rest;
    RecordsOfTail(queue);
    assert l.output + [Record(queue[0])] + Records(rest) == l.output + ([Record(queue[0])] + Records(rest));
  }

  /** The lines of a non-empty queue are the line of its oldest entry and then the lines of the rest. */
  lemma RecordsOfTail(queue: seq<LogEntry>)
    requires |queue| > 0 && AllWellFormed(queue)
    ensures AllWellFormed(queue[1..])
    ensures Records(queue) == [Record(queue[0])] + Records(queue[1..])
  {
    assert AllWellFormed(queue[1..]) by {
      forall i | 0 <= i < |queue| - 1 ensures WellFormed(queue[1..][i]) {
        assert queue[1..][i] == queue[i + 1];
      }
    }
  }

  /** A producer call or one polling iteration of the worker. */
  datatype Event = LogCall(message: string, timestamp: nat) | Poll

  predicate TimestampsFit(events: seq<Event>) {
    forall i :: 0 <= i < |events| && events[i].LogCall? ==> events[i].timestamp < TimestampBound
  }

  /** No polling iteration happens: the worker is stalled for the whole run. */
  predicate ProducerOnly(events: seq<Event>) {
    forall i :: 0 <= i < |events| ==> events[i].LogCall?
  }

  lemma EventsTail(events: seq<Event>)
    requires |events| > 0
    ensures TimestampsFit(events) ==> TimestampsFit(events[1..])
    ensures ProducerOnly(events) ==> ProducerOnly(events[1..])
  {
    forall i | 0 <= i < |events| - 1
      ensures events[1..][i] == events[i + 1]
    {
    }
  }

  /** Number of `log` calls among the events. */
  function LogCount(events: seq<Event>): nat {
    if events == [] then 0 else (if events[0].LogCall? then 1 else 0) + LogCount(events[1..])
  }

  /** The entries the `log` calls build, in call order. */
  function LoggedEntries(events: seq<Event>): (es: seq<LogEntry>)
    requires TimestampsFit(events)
    ensures |es| == LogCount(events)
    ensures AllWellFormed(es)
  {
    if events == [] then []
    else
      var rest := LoggedEntries(events[1..]);
      match events[0]
      case LogCall(m, t) => [MakeEntry(m, t)] + rest
      case Poll => rest
  }

  /** The state after a run of events and, for each `log` call, whether its entry was enqueued. */
  datatype RunResult = RunResult(logger: LoggerState, kept: seq<bool>)

  /** Apply the events one at a time. The counter grows by exactly the number
      of refused `log` calls, and the lines written plus those still pending
      grow by exactly the lines of the enqueued entries, in call order. */
  function Run(l: LoggerState, events: seq<Event>): (result: RunResult)
    requires Invariant(l) && TimestampsFit(events)
    ensures Invariant(result.logger)
    ensures result.logger.shutdown == l.shutdown
    ensures |result.kept| == LogCount(events)
    ensures result.logger.dropped == l.dropped + RingTraces.CountFalse(result.kept)
    ensures AllWellFormed(RingTraces.Select(LoggedEntries(events), result.kept))
    ensures result.logger.output + Records(Contents(result.logger.ring))
            == l.output + Records(Contents(l.ring)) + Records(RingTraces.Select(LoggedEntries(events), result.kept))
    decreases |events|
  {
    if events == [] then
      RunResult(l, [])
    else
      EventsTail(events);
      match events[0]
      case LogCall(m, t) =>
        assert events[0].LogCall? && t < TimestampBound;
        var l1 := Log(l, m, t);
        var rest := Run(l1, events[1..]);
        var ok := l1.dropped == l.dropped;
        RunLogStep(l, l1, rest, MakeEntry(m, t), LoggedEntries(events[1..]), ok);
        RunResult(rest.logger, [ok] + rest.kept)
      case Poll =>
        var l1 := WorkerPoll(l);
        var rest := Run(l1, events[1..]);
        RunResult(rest.logger, rest.kept)
  }

  /** No `log` call of a run is refused when the pending entries plus all the
      calls fit in the `BufferCapacity - 1` usable slots: polling only frees
      slots, and each accepted call takes one. */
  lemma {:induction false} RunKeepsAll(l: LoggerState, events: seq<Event>)
    requires Invariant(l) && TimestampsFit(events)
    ensures |Contents(l.ring)| + LogCount(events) <= BufferCapacity - 1 ==>
              forall i :: 0 <= i < |Run(l, events).kept| ==> Run(l, events).kept[i]
    decreases |events|
  {
    if events != [] && |Contents(l.ring)| + LogCount(events) <= BufferCapacity - 1 {
      EventsTail(events);
      match events[0]
      case LogCall(m, t) =>
        RunFirstLogCall(l, events);
        var l1 := Log(l, m, t);
        RunKeepsAll(l1, events[1..]);
        RingTraces.AllSetCons(l1.dropped == l.dropped, Run(l1, events[1..]).kept);
      case Poll =>
        RunKeepsAll(WorkerPoll(l), events[1..]);
    }
  }

  /** The bookkeeping of `Run` after a `log` call, stated apart from `Run`. */
  lemma RunLogStep(l: LoggerState, l1: LoggerState, rest: RunResult, entry: LogEntry, later: seq<LogEntry>, ok: bool)
    requires Invariant(l) && Invariant(l1) && Invariant(rest.logger)
    requires WellFormed(entry) && AllWellFormed(later)
    requires |later| == |rest.kept|
    requires l1.output == l.output
    requires ok ==> Contents(l1.ring) == Contents(l.ring) + [entry]
    requires !ok ==> l1.ring == l.ring
    requires AllWellFormed(RingTraces.Select(later, rest.kept))
    requires rest.logger.output + Records(Contents(rest.logger.ring))
             == l1.output + Records(Contents(l1.ring)) + Records(RingTraces.Select(later, rest.kept))
    ensures AllWellFormed(RingTraces.Select([entry] + later, [ok] + rest.kept))
    ensures rest.logger.output + Records(Contents(rest.logger.ring))
            == l.output + Records(Contents(l.ring)) + Records(RingTraces.Select([entry] + later, [ok] + rest.kept))
  {
    var sel := RingTraces.Select(later, rest.kept);
    assert ([entry] + later)[1..] == later && ([ok] + rest.kept)[1..] == rest.kept;
    if ok {
      assert RingTraces.Select([entry] + later, [ok] + rest.kept) == [entry] + sel;
      RecordsAppend([entry], sel);
      RecordsAppend(Contents(l.ring), [entry]);
    } else {
      assert RingTraces.Select([entry] + later, [ok] + rest.kept) == sel;
    }
  }

  /** Every `log` call of a run either enqueues its entry or is counted as
      dropped: the growth of the drop counter plus the enqueued entries is the
      number of calls. */
  lemma DropAccounting(l: LoggerState, events: seq<Event>)
    requires Invariant(l) && TimestampsFit(events)
    ensures var run := Run(l, events);
            run.logger.dropped - l.dropped + |RingTraces.Select(LoggedEntries(events), run.kept)| == LogCount(events)
  {
    var run := Run(l, events);
    RingTraces.SelectCount(LoggedEntries(events), run.kept);
  }

  /** `get_dropped_count` after a run reports the counter before it plus one
      per refused `log` call, so it never decreases. */
  lemma DroppedCountAfterRun(l: LoggerState, events: seq<Event>)
    requires Invariant(l) && TimestampsFit(events)
    ensures var run := Run(l, events);
            && DroppedCount(run.logger) == DroppedCount(l) + RingTraces.CountFalse(run.kept)
            && DroppedCount(run.logger) >= DroppedCount(l)
            && DroppedCount(run.logger) - DroppedCount(l) <= LogCount(events)
  {
    var run := Run(l, events);
    RingTraces.SelectCount(LoggedEntries(events), run.kept);
  }

  /** With the worker stalled, the `log` calls act on the buffer exactly as a
      batch of `try_push` calls of their entries: the same buffer state, the
      same outcome per call, and one drop counted per failed push. */
  lemma {:induction false} ProducerOnlyIsPushAll(l: LoggerState, events: seq<Event>)
    requires Invariant(l) && TimestampsFit(events) && ProducerOnly(events)
    ensures var run := Run(l, events);
            var batch := RingTraces.PushAll(l.ring, LoggedEntries(events));
            && run.kept == batch.oks
            && run.logger.ring == batch.ring
            && run.logger.dropped == l.dropped + RingTraces.CountFalse(batch.oks)
            && run.logger.output == l.output
    decreases |events|
  {
    if events != [] {
      assert events[0].LogCall?;
      var m, t := events[0].message, events[0].timestamp;
      var e := MakeEntry(m, t);
      var more := LoggedEntries(events[1..]);
      RunFirstLogCall(l, events);
      EventsTail(events);
      LogIsTryPush(l, m, t);
      ProducerOnlyIsPushAll(Log(l, m, t), events[1..]);
      RingTraces.PushAllFirst(l.ring, [e] + more);
      var tail := RingTraces.PushAll(TryPush(l.ring, e).ring, more);
      CountFalseCons(TryPush(l.ring, e).ok, tail.oks);
    }
  }

  /** A `log` call is one `try_push` of its entry, plus a drop when the push fails. */
  lemma LogIsTryPush(l: LoggerState, message: string, timestamp: nat)
    requires Invariant(l) && timestamp < TimestampBound
    ensures var step := TryPush(l.ring, MakeEntry(message, timestamp));
            var l' := Log(l, message, timestamp);
            && l'.ring == step.ring && l'.output == l.output
            && l'.dropped == if step.ok then l.dropped else l.dropped + 1
  {
  }

  lemma CountFalseCons(b: bool, keep: seq<bool>)
    ensures RingTraces.CountFalse([b] + keep) == (if b then 0 else 1) + RingTraces.CountFalse(keep)
  {
    assert ([b] + keep)[1..] == keep;
  }

  /** With the worker stalled, exactly the first `1023 - pending` calls are
      enqueued, in call order, every later call is dropped, and nothing is written. */
  lemma ProducerOnlyRun(l: LoggerState, events: seq<Event>)
    requires Invariant(l) && TimestampsFit(events) && ProducerOnly(events)
    ensures var run := Run(l, events);
            var room := RingTraces.Room(l.ring);
            && room == BufferCapacity - 1 - |Contents(l.ring)|
            && (forall i :: 0 <= i < |run.kept| ==> (run.kept[i] <==> i < room))
            && run.logger.output == l.output
            && Contents(run.logger.ring) == Contents(l.ring) + LoggedEntries(events)[..RingTraces.Min(LogCount(events), room)]
  {
    ProducerOnlyIsPushAll(l, events);
  }

  /** `Run` and `LoggedEntries` unfolded once for a leading `log` call. */
  lemma RunFirstLogCall(l: LoggerState, events: seq<Event>)
    requires Invariant(l) && TimestampsFit(events) && |events| > 0 && events[0].LogCall?
    ensures TimestampsFit(events[1..])
    ensures var l1 := Log(l, events[0].message, events[0].timestamp);
            var rest := Run(l1, events[1..]);
            && Run(l, events) == RunResult(rest.logger, [l1.dropped == l.dropped] + rest.kept)
            && LoggedEntries(events) == [MakeEntry(events[0].message, events[0].timestamp)] + LoggedEntries(events[1..])
  {
    EventsTail(events);
  }

  lemma {:induction false} ProducerOnlyCount(events: seq<Event>)
    requires ProducerOnly(events)
    ensures LogCount(events) == |events|
    decreases |events|
  {
    if events != [] {
      EventsTail(events);
      ProducerOnlyCount(events[1..]);
    }
  }

  /** A flag sequence that is set exactly below `k` has `|keep| - min(|keep|, k)` clear flags. */
  lemma {:induction false} CountFalseBelow(keep: seq<bool>, k: nat)
    requires forall i :: 0 <= i < |keep| ==> (keep[i] <==> i < k)
    ensures RingTraces.CountFalse(keep) == |keep| - RingTraces.Min(|keep|, k)
    decreases |keep|
  {
    if keep != [] {
      if k > 0 {
        CountFalseBelow(keep[1..], k - 1);
      } else {
        CountFalseBelow(keep[1..], 0);
      }
    }
  }

  /** A burst of `log` calls into a fresh logger whose worker never gets to
      run: the first 1023 entries are enqueued and the rest are dropped; for
      100000 calls that is 98977 drops. */
  lemma BurstIntoFreshLogger(bufferSize: nat, events: seq<Event>)
    requires TimestampsFit(events) && ProducerOnly(events)
    ensures var run := Run(Create(bufferSize), events);
            var accepted := RingTraces.Min(LogCount(events), BufferCapacity - 1);
            && LogCount(events) == |events|
            && DroppedCount(run.logger) == |events| - accepted
            && Contents(run.logger.ring) == LoggedEntries(events)[..accepted]
            && (|events| == 100000 ==> DroppedCount(run.logger) == 98977)
  {
    var start := Create(bufferSize);
    ProducerOnlyRun(start, events);
    ProducerOnlyCount(events);
    var run := Run(start, events);
    CountFalseBelow(run.kept, BufferCapacity - 1);
  }

  /** The drop report the destructor prints when entries were dropped. */
  function DropReport(dropped: nat): (report: Option<string>)
    ensures report.Some? <==> dropped > 0
  {
    if dropped > 0 then Some("Logger: Dropped " + Decimal(dropped) + " log entries.\n") else None
  }

  /** The worker's drain loop: pop and write until `try_pop` fails. */
  method Drain(l: LoggerState) returns (drained: LoggerState)
    requires Invariant(l)
    ensures Invariant(drained)
    ensures Contents(drained.ring) == []
    ensures drained.output == l.output + Records(Contents(l.ring))
    ensures drained.dropped == l.dropped && drained.shutdown == l.shutdown
  {
    drained := l;
    var popped := TryPop(drained.ring);
    while popped.item.Some?
      invariant Invariant(drained)
      invariant popped == TryPop(drained.ring)
      invariant drained.output + Records(Contents(drained.ring)) == l.output + Records(Contents(l.ring))
      invariant drained.dropped == l.dropped && drained.shutdown == l.shutdown
      decreases |Contents(drained.ring)|
    {
      WriteOldest(drained, popped);
      drained := drained.(ring := popped.ring, output := drained.output + [Record(popped.item.value)]);
      popped := TryPop(drained.ring);
    }
    assert Records(Contents(drained.ring)) == [];
  }

  /** `Logger::~Logger`: set the flag, let the worker drain the buffer, then
      close the file and report the drops, if any. Every entry still pending
      is written, in FIFO order, before the file is closed. */
  method Teardown(l: LoggerState) returns (final: LoggerState, report: Option<string>)
    requires Invariant(l)
    ensures final.shutdown
    ensures Invariant(final) && Contents(final.ring) == []
    ensures final.output == l.output + Records(Contents(l.ring))
    ensures final.dropped == l.dropped
    ensures report.Some? <==> l.dropped > 0
    ensures report.Some? ==> report.value == "Logger: Dropped " + Decimal(l.dropped) + " log entries.\n"
  {
    var flagged := l.(shutdown := true);
    final := Drain(flagged);
    report := DropReport(final.dropped);
  }

  /** A whole logger lifetime: construct, apply the events, tear down. The file
      holds exactly the lines of the entries that were enqueued, in call order;
      every other `log` call is counted as a drop, and the report appears
      exactly when something was dropped. */
  method Session(bufferSize: nat, events: seq<Event>) returns (output: seq<string>, dropped: nat, report: Option<string>)
    requires TimestampsFit(events)
    ensures var run := Run(Create(bufferSize), events);
            var enqueued := RingTraces.Select(LoggedEntries(events), run.kept);
            && AllWellFormed(enqueued)
            && output == Records(enqueued)
            && dropped + |enqueued| == LogCount(events)
            && dropped == RingTraces.CountFalse(run.kept)
            && (report.Some? <==> dropped > 0)
  {
    var start := Create(bufferSize);
    var run := Run(start, events);
    var final;
    final, report := Teardown(run.logger);
    output, dropped := final.output, final.dropped;
    RingTraces.SelectCount(LoggedEntries(events), run.kept);
    assert Records(Contents(start.ring)) == [];
  }
}
