# Async logger: ring buffer and logging pipeline

This project models the core of a small asynchronous logger. There are two parts.

- `RingBuffer<T, Capacity>` is a single-producer/single-consumer circular buffer. A fixed array is addressed by two counters, `head_` and `tail_`, that only grow. Slots are indexed with `counter & (Capacity - 1)`. The buffer is full when the masked distance `(head - tail) & mask` equals the mask, so `Capacity - 1` slots are usable.
- `Logger` owns a `RingBuffer<LogEntry, 1024>`.
  - `log` truncates a message to 511 characters, stamps it and tries to enqueue it, counting a drop when the buffer is full.
  - A background worker pops entries and writes one line `[<timestamp>] <message>` per entry.
  - The destructor sets the shutdown flag, lets the worker drain the buffer, and reports the number of drops, if any.

The modules are:

- `Bits`: the mask arithmetic (`x & (C - 1) == x % C` for a power of two `C`) and the power-of-two `static_assert`. It also proves that unbounded counters behave like the source's wrapping `size_t` counters.
- `Ring`: the buffer as an immutable value. `Contents` abstracts the slots between `tail` and `head` to the FIFO queue they hold. `TryPush`, `TryPop`, `IsEmpty` and `IsFull` are specified against that queue.
- `RingArray`: the class itself, with an `array<T>`, two counters and a ghost queue. Each method is proved to take exactly the step of `Ring`.
- `RingTraces`: batches and interleavings of pushes and pops, with FIFO and no-loss. It also covers the capacity-8 fill and wraparound scenarios.
- `Decimals`: the decimal rendering `std::to_string` produces, with its inverse.
- `LogFormat`: the `LogEntry` record, the truncation `log` performs, and the line format. A parser recovers timestamp and message from a line.
- `Logger`: the logger as a sequential state machine. Producer calls and worker iterations are atomic steps. The log file is the sequence of lines written. Teardown is the drain loop followed by the drop report.

One slot is always left unused so that a full buffer and an empty one differ. The buffer is therefore full at `Capacity - 1` pending items (include/ring_buffer.hpp:16 and :37-39).

## Model

| member | source | states |
|---|---|---|
| Bits.MaskIsModulo | include/ring_buffer.hpp:42 | For a power-of-two capacity, masking a counter with `Capacity - 1` is reduction modulo the capacity. |
| Bits.Slot | include/ring_buffer.hpp:19 | The slot `counter & mask` is the counter modulo the capacity, so every slot index lies below the capacity. |
| Bits.WordSub | include/ring_buffer.hpp:16 | `size_t` subtraction yields a word `r` with `r + b == a` modulo 2^64. |
| Bits.WrappedDistance | include/ring_buffer.hpp:16 | The `size_t` difference of the wrapped counters is their true distance whenever that distance is below 2^64. |
| Bits.WrappedCounterSameSlot | include/ring_buffer.hpp:43-45 | Wrapping a counter at 2^64 does not change the slot it addresses, because a power-of-two capacity divides 2^64. |
| Bits.BitAndPredecessorZero | include/ring_buffer.hpp:8 | For a positive capacity, `(Capacity & (Capacity - 1)) == 0` holds exactly when the capacity is a power of two. |
| Bits.StaticAssertAdmitsZero | include/ring_buffer.hpp:8 | The compile-time check as written accepts 0, which is not a power of two. Its mask then wraps to all ones, so each counter is its own slot index and none is below the capacity 0. |
| Bits.CapacityAcceptedIsPowerOfTwo | include/ring_buffer.hpp:8 | The corrected check (non-zero, then the bit test) accepts exactly the powers of two below 2^64. |
| Ring.New | include/ring_buffer.hpp:11 | A new buffer has both counters at zero and holds the empty queue. |
| RingArray.RingBuffer.Init | include/ring_buffer.hpp:11 | A new array-backed buffer satisfies the representation invariant, has both counters at zero and holds the empty queue, for any power-of-two capacity. |
| Ring.TryPush | include/ring_buffer.hpp:13-23 | Push succeeds exactly when fewer than `Capacity - 1` items are queued. On success the item is appended, `head` grows by one and `tail` is unchanged. On failure the state is unchanged. |
| Ring.PushWritesOnlyHeadSlot | include/ring_buffer.hpp:19-20 | A successful push stores the item in slot `head & mask` and leaves every other slot as it was. |
| Ring.TryPop | include/ring_buffer.hpp:24-33 | Pop fails, changing nothing, exactly on the empty queue. Otherwise it returns the oldest item, which is the one in slot `tail & mask`. It removes that item and advances only `tail`. |
| Ring.IsEmpty | include/ring_buffer.hpp:34-36 | `is_empty` holds exactly when the queue is empty. |
| Ring.IsFull | include/ring_buffer.hpp:37-39 | `is_full` holds exactly when `Capacity - 1` items are queued. |
| RingArray.RingBuffer.TryPush | include/ring_buffer.hpp:13-23 | The array method returns the flag and reaches the state of `Ring.TryPush`. Its ghost queue grows by the item exactly on success. |
| RingArray.RingBuffer.TryPop | include/ring_buffer.hpp:24-33 | The array method returns the flag, item and state of `Ring.TryPop`. On failure the caller's item is left untouched. |
| RingArray.RingBuffer.IsEmpty | include/ring_buffer.hpp:34-36 | On the array, `head == tail` holds exactly when the ghost queue is empty. |
| RingArray.RingBuffer.IsFull | include/ring_buffer.hpp:37-39 | On the array, the masked-distance test holds exactly when `Capacity - 1` items are queued. |
| RingTraces.PushAll | include/ring_buffer.hpp:16-21 | In a run of pushes with no pop, exactly the first `Capacity - 1 - pending` succeed. Their items are appended in order and every later push fails. |
| RingTraces.PopAll | include/ring_buffer.hpp:25-31 | A run of `n` pops with no push returns the `min(n, pending)` oldest items in order and removes exactly those. |
| RingTraces.Run | tests/ring_buffer_mt_test.cpp:44-47 | For any interleaving of push and pop calls there is one success flag per push. The accepted items are exactly the pushed items whose flag is set, in order. Every push succeeds when the queued items plus all pushes fit in `Capacity - 1`. Queued-before plus accepted equals handed-out plus still-queued, so nothing is lost, duplicated or reordered. |
| RingTraces.FifoFromEmpty | tests/ring_buffer_mt_test.cpp:44-55 | From an empty buffer, the popped items are a prefix of the pushed ones and the remainder is what is still queued. When the buffer ends empty, popped equals pushed. |
| RingTraces.FillThenReject | tests/ring_buffer_test.cpp:28-36 | From empty, `Capacity - 1` pushes all succeed. The buffer then reports full, holds exactly those items, and the next push fails. |
| RingTraces.PushPopRoundTrip | tests/ring_buffer_test.cpp:5-20 | From any empty state, pushing at most `Capacity - 1` items and popping as many returns exactly those items and leaves the buffer empty. |
| RingTraces.FillCapacityEight | tests/ring_buffer_test.cpp:25-48 | Capacity 8: pushes of 0..6 succeed, the buffer is full, 999 is refused, and seven pops return 0..6 and empty the buffer. |
| RingTraces.RoundOfSeven | tests/ring_buffer_test.cpp:55-63 | Seven pushes then seven pops on an empty capacity-8 buffer return the pushed values and leave it empty, seven counts further on. |
| RingTraces.ThreeRounds | tests/ring_buffer_test.cpp:50-69 | From any empty capacity-8 buffer, three rounds of seven pushes then seven pops, offset by 100 per round, each return their own values, end empty, and advance `head` by 21. |
| RingTraces.WraparoundCapacityEight | tests/ring_buffer_test.cpp:50-69 | Three rounds at capacity 8 with values offset by 100 each return their own values, although later rounds use wrapped slot indices. The buffer ends empty at `head == 21`, whatever value the slots start with. |
| Decimals.Decimal | src/logger.cpp:77 | A timestamp renders as a non-empty string of digits with no leading zero. |
| Decimals.ParseDecimalInvertsDecimal | src/logger.cpp:77 | Parsing the rendered digits gives back the number. |
| Decimals.DecimalInjective | src/logger.cpp:77 | Distinct numbers render as distinct strings. |
| LogFormat.MakeEntry | src/logger.cpp:35-42 | The entry keeps `min(length, 511)` leading characters and puts a terminator after them. It records that length and the given timestamp. |
| LogFormat.TruncationExact | src/logger.cpp:39 | The stored text equals the message exactly when the message has at most 511 characters. |
| LogFormat.ParseRecordInvertsLine | src/logger.cpp:75-78 | A line made of `[`, the decimal timestamp, `] `, any text and a newline parses back to exactly that timestamp and text, even when the text holds `]`. |
| LogFormat.FormatLogEntry | src/logger.cpp:75-78 | The formatted entry ends with the kept message. Its length is the timestamp's digits plus three plus the message length. Once ended by a newline it parses back to the entry's timestamp and message. |
| LogFormat.Record | src/logger.cpp:55 | Every line the worker writes ends in a newline and reads back to the entry's timestamp and kept message. |
| Logger.Create | src/logger.cpp:4-14 | A new logger has an empty 1024-slot buffer, whatever `buffer_size` says. Its flag is clear, no drop is counted and nothing is written. |
| Logger.Log | src/logger.cpp:34-48 | `log` never fails. If fewer than 1023 entries are pending, its entry is appended. Otherwise the buffer is unchanged and the drop counter grows by exactly one. The flag and the output are untouched. |
| Logger.WorkerPoll | src/logger.cpp:53-59 | While the flag is clear and entries are pending, one iteration moves the oldest entry to the end of the output as its line. Otherwise it changes nothing. Written plus pending lines are conserved. |
| Logger.WriteOldest | src/logger.cpp:54-55 | Writing the line of a popped entry moves that entry from the head of the pending queue to the end of the output. |
| Logger.Run | src/logger.cpp:34-59 | After any sequence of `log` calls and worker iterations, the counter grows by one per refused call. Written plus pending lines equal the lines before plus those of the accepted entries, in call order. |
| Logger.RunKeepsAll | src/logger.cpp:44-46 | No `log` call of a run is refused when the pending entries plus all the run's `log` calls fit in the 1023 usable slots, whatever polling iterations are interleaved. |
| Logger.DropAccounting | src/logger.cpp:44-46 | Over any run of the logger, the growth of the drop counter plus the number of accepted entries equals the number of `log` calls. |
| Logger.DroppedCountAfterRun | include/logger.hpp:22 | `get_dropped_count` never decreases, and grows by at most the number of `log` calls. |
| Logger.ProducerOnlyIsPushAll | src/logger.cpp:44-46 | With the worker stalled, a run of `log` calls acts on the buffer exactly as a batch of `try_push` calls of the built entries. It counts one drop per failed push and writes nothing. |
| Logger.ProducerOnlyRun | src/logger.cpp:44-46 | With the worker stalled, exactly the first `1023 - pending` calls are enqueued, in call order. Every later call is dropped. |
| Logger.BurstIntoFreshLogger | include/logger.hpp:31 | With no worker iteration during the burst, a new logger keeps the first 1023 entries and drops the rest; 100000 calls give 98977 drops. |
| Logger.DropReport | src/logger.cpp:27-30 | A report is produced exactly when the drop count is positive. |
| Logger.Drain | src/logger.cpp:61-63 | The drain loop empties the buffer and appends the lines of all pending entries, oldest first. |
| Logger.Teardown | src/logger.cpp:16-32 | The destructor sets the flag, writes every pending entry in FIFO order before closing, and keeps the drop count. It reports `Logger: Dropped <n> log entries.` exactly when `n > 0`. |
| Logger.Session | tests/logger_test.cpp:9-29 | Over a whole lifetime, the file holds exactly the lines of the enqueued entries in call order. Drops plus enqueued entries equal the `log` calls, and the report appears exactly when something was dropped. |

## Left out

- Atomics and memory ordering are not modelled: the `seq_cst` loads and stores, `fetch_add`, and the `alignas(64)` padding. Every producer or consumer call is one atomic step. Publication order and the early `tail_` advance in `try_pop` are concurrency questions that a sequential model cannot express.
- Threads are left out: creating and joining the worker, the 100 ms sleep, and the timing of the shutdown flag. The worker is modelled as explicit polling iterations (`Logger.WorkerPoll`) and a drain loop (`Logger.Drain`).
- File and standard-error I/O are left out: opening the file in append mode, the exception when opening fails, `std::endl`'s flush, the final flush and close, and writing to `std::cerr`. The file is the sequence of lines written during this logger's life, each ending in a newline. Nothing is escaped, so a message that holds a newline spans several physical lines of the file; the model's unit is the record, not the physical line. The report is an optional string.
- The clock `get_timestamp_ns` is left out. Each `log` call takes its timestamp as a parameter below 2^64.
- The counters are unbounded naturals. `Bits.WrappedCounterSameSlot` and `Bits.WrappedDistance` show that this does not change slot indices or distances. The 64-bit drop counter is never shown to wrap; that would take 2^64 refused calls.
- Logger.DroppedCount has no contract of its own, because it only returns the counter. Its behaviour is stated by `Logger.DroppedCountAfterRun`.
- Multi-producer use of `log`, the benchmarks and the multi-threaded tests are not modelled. Their in-order assertions appear only as the FIFO properties of `RingTraces.Run` and `RingTraces.FifoFromEmpty`.
- The bytes of `LogEntry.message` after the terminator are indeterminate in the source and are never read. They are modelled as terminator characters.
- Copying and moving a `Logger` are deleted in the source and have no counterpart here.
- LogFormat.MakeEntry: one Dafny `char` stands for one C++ `char`, that is one byte. `message.size()` counts bytes, so a UTF-8 message is modelled as its byte sequence and the 511 limit counts bytes. A message given as Unicode characters would instead be cut at 511 characters, and a multi-byte character cut in the middle is not modelled.

## Findings

| source | as written | input that shows it | evidently intended | confidence | as-written member | corrected member |
|---|---|---|---|---|---|---|
| include/ring_buffer.hpp:8 | `static_assert((Capacity & (Capacity - 1)) == 0)` accepts `Capacity == 0`, since `0 - 1` wraps to all ones in `size_t` | `RingBuffer<T, 0>`: the mask is all ones, and the first `try_push` writes `buffer_[0]` of a zero-length array (a compiler extension) | reject 0 as well: a non-zero power of two | low (standard C++ already rejects a zero-length member array); not executed | Bits.StaticAssertAdmitsZero | Bits.CapacityAcceptedIsPowerOfTwo |
