/**
 The `LogEntry` record of include/logger.hpp, how `Logger::log` fills it from a
 message (truncation to the 512-character array), and the text line the
 background worker writes for it (`format_log_entry` plus the newline of
 `std::endl`), together with a parser that recovers timestamp and message from
 such a line.
 */
module LogFormat {
  import opened Options
  import opened Decimals
  import Bits

  /** Size of the `message` character array of a `LogEntry`. */
  const MessageBufferSize: nat := 512

  /** Longest message kept: one array position is needed for the terminator. */
  const MaxMessageLength: nat := MessageBufferSize - 1

  /** Timestamps are `uint64_t` nanosecond clock readings. */
  const TimestampBound: nat := Bits.WordModulus

  const Terminator: char := '\0'

  /** `message` stands for the whole `char[512]` array, `length` for the number of valid characters. */
  datatype LogEntry = LogEntry(message: seq<char>, length: nat, timestamp: nat)

  /** What every entry built by `log` satisfies. */
  predicate WellFormed(e: LogEntry) {
    && |e.message| == MessageBufferSize
    && e.length <= MaxMessageLength
    && e.message[e.length] == Terminator
    && e.timestamp < TimestampBound
  }

  /** The characters `std::string(entry.message, entry.length)` copies out. */
  function Text(e: LogEntry): string
    requires WellFormed(e)
  {
    e.message[..e.length]
  }

  /** The entry `log` builds: keep `min(|msg|, 511)` characters, terminate them,
      and stamp the entry. Array positions after the terminator are never read;
      they are modelled as terminators. */
  function MakeEntry(msg: string, timestamp: nat): (e: LogEntry)
    requires timestamp < TimestampBound
    ensures WellFormed(e)
    ensures e.timestamp == timestamp
    ensures e.length <= |msg|
    ensures |msg| <= MaxMessageLength ==> e.length == |msg|
    ensures |msg| >= MaxMessageLength ==> e.length == MaxMessageLength
    ensures Text(e) == msg[..e.length]
  {
    var len := if |msg| < MaxMessageLength then |msg| else MaxMessageLength;
    LogEntry(msg[..len] + [Terminator] + seq(MessageBufferSize - len - 1, _ => Terminator), len, timestamp)
  }

  /** A message survives unchanged exactly when it fits in 511 characters. */
  lemma TruncationExact(msg: string, timestamp: nat)
    requires timestamp < TimestampBound
    ensures Text(MakeEntry(msg, timestamp)) == msg <==> |msg| <= MaxMessageLength
  {
    var e := MakeEntry(msg, timestamp);
    if |msg| > MaxMessageLength {
      assert |Text(e)| == MaxMessageLength;
    }
  }

  /** The fields a log line carries. */
  datatype Parsed = Parsed(timestamp: nat, text: string)

  /** Index of the first `c` in `s` at or after `from`, or `|s|` if there is none. */
  function IndexOf(s: string, c: char, from: nat): (i: nat)
    requires from <= |s|
    ensures from <= i <= |s|
    ensures i < |s| ==> s[i] == c
    ensures forall j :: from <= j < i ==> s[j] != c
    decreases |s| - from
  {
    if from == |s| then |s| else if s[from] == c then from else IndexOf(s, c, from + 1)
  }

  /** Read a log line back: `[`, decimal digits, `] `, the message, and a final newline. */
  function ParseRecord(line: string): Option<Parsed> {
    if |line| < 2 || line[0] != '[' || line[|line| - 1] != '\n' then None
    else
      var close := IndexOf(line, ']', 1);
      if close <= 1 || close + 2 > |line| - 1 || line[close + 1] != ' ' || !AllDigits(line[1..close]) then None
      else Some(Parsed(ParseDecimal(line[1..close]), line[close + 2..|line| - 1]))
  }

  /** A line `[<ts>] <text>` plus a newline reads back to `ts` and `text`, whatever
      characters `text` holds: the first `]` is the one after the digits. */
  lemma ParseRecordInvertsLine(ts: nat, text: string)
    ensures ParseRecord("[" + Decimal(ts) + "] " + text + "\n") == Some(Parsed(ts, text))
  {
    var digits := Decimal(ts);
    var line := "[" + digits + "] " + text + "\n";
    var close := 1 + |digits|;
    assert line[close] == ']' && line[close + 1] == ' ';
    assert line[1..close] == digits;
    assert forall j :: 1 <= j < close ==> line[j] != ']' by {
      assert forall j :: 1 <= j < close ==> line[j] == digits[j - 1];
    }
    assert IndexOf(line, ']', 1) == close;
    assert line[close + 2..|line| - 1] == text;
    ParseDecimalInvertsDecimal(ts);
  }

  /** `format_log_entry`: `[<timestamp>] <message>`, from which a parser recovers
      the timestamp and the kept message once the line is ended. */
  function FormatLogEntry(e: LogEntry): (r: string)
    requires WellFormed(e)
    ensures |r| == |Decimal(e.timestamp)| + 3 + e.length
    ensures r[|r| - e.length..] == Text(e)
    ensures ParseRecord(r + "\n") == Some(Parsed(e.timestamp, Text(e)))
  {
    ParseRecordInvertsLine(e.timestamp, Text(e));
    "[" + Decimal(e.timestamp) + "] " + Text(e)
  }

  /** One line of the log file: the formatted entry followed by `std::endl`'s
      newline. Every such line reads back to the entry's timestamp and kept
      message. */
  function Record(e: LogEntry): (r: string)
    requires WellFormed(e)
    ensures |r| > 0 && r[|r| - 1] == '\n'
    ensures ParseRecord(r) == Some(Parsed(e.timestamp, Text(e)))
  {
    FormatLogEntry(e) + "\n"
  }
}
