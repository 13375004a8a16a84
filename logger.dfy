/**
 * Log-line formatting and level dispatch (internal/infrastructure/utils/logger.go).
 * The clock reading is a parameter; the data and error values appear as the
 * text `%v` prints for them, or as absent when they are nil.
 */
module Logger {
  import opened Common
  import opened Text

  const LogLevelDebug: int := 0
  const LogLevelInfo: int := 1
  const LogLevelWarning: int := 2
  const LogLevelError: int := 3
  const LogLevelFatal: int := 4

  /** getLogLevelString */
  function LevelString(level: int): (s: string)
    ensures s == "UNKNOWN" <==> !(LogLevelDebug <= level <= LogLevelFatal)
    ensures ']' !in s && s != ""
  {
    if level == LogLevelDebug then "DEBUG"
    else if level == LogLevelInfo then "INFO"
    else if level == LogLevelWarning then "WARNING"
    else if level == LogLevelError then "ERROR"
    else if level == LogLevelFatal then "FATAL"
    else "UNKNOWN"
  }

  /** The five levels have five different names. */
  lemma LevelStringsDistinct(a: int, b: int)
    requires LogLevelDebug <= a <= LogLevelFatal && LogLevelDebug <= b <= LogLevelFatal && a != b
    ensures LevelString(a) != LevelString(b)
  {
  }

  /** A wall-clock reading down to the millisecond. */
  datatype Timestamp = Timestamp(year: nat, month: nat, day: nat, hour: nat, minute: nat, second: nat, millisecond: nat)

  predicate ValidTimestamp(t: Timestamp) {
    && t.year < 10000 && 1 <= t.month <= 12 && 1 <= t.day <= 31
    && t.hour < 24 && t.minute < 60 && t.second < 60 && t.millisecond < 1000
  }

  /** The timestamp written with the layout "2006-01-02 15:04:05.000". */
  function FormatTimestamp(t: Timestamp): (s: string)
    requires ValidTimestamp(t)
    ensures |s| == 23
    ensures s[4] == '-' && s[7] == '-' && s[10] == ' ' && s[13] == ':' && s[16] == ':' && s[19] == '.'
    ensures ']' !in s
  {
    ZeroPad(t.year, 4) + "-" + ZeroPad(t.month, 2) + "-" + ZeroPad(t.day, 2) + " "
      + ZeroPad(t.hour, 2) + ":" + ZeroPad(t.minute, 2) + ":" + ZeroPad(t.second, 2)
      + "." + ZeroPad(t.millisecond, 3)
  }

  /** The seven digit fields of a "2006-01-02 15:04:05.000" string. */
  predicate TimestampFields(s: string) {
    && |s| == 23
    && AllDigits(s[..4]) && AllDigits(s[5..7]) && AllDigits(s[8..10]) && AllDigits(s[11..13])
    && AllDigits(s[14..16]) && AllDigits(s[17..19]) && AllDigits(s[20..])
  }

  /** The seven fields of the timestamp layout sit at fixed offsets, whatever their digits. */
  lemma LayoutFields(y: string, mo: string, d: string, h: string, mi: string, sec: string, ms: string)
    requires |y| == 4 && |mo| == 2 && |d| == 2 && |h| == 2 && |mi| == 2 && |sec| == 2 && |ms| == 3
    ensures var s := y + "-" + mo + "-" + d + " " + h + ":" + mi + ":" + sec + "." + ms;
      && s[..4] == y && s[5..7] == mo && s[8..10] == d && s[11..13] == h
      && s[14..16] == mi && s[17..19] == sec && s[20..] == ms
  {
    var date, time := y + "-" + mo + "-" + d, h + ":" + mi + ":" + sec;
    var s := y + "-" + mo + "-" + d + " " + h + ":" + mi + ":" + sec + "." + ms;
    assert s == date + " " + time + "." + ms;
    assert s[..10] == date && s[11..19] == time && s[20..] == ms;
    assert date[..4] == y && date[5..7] == mo && date[8..] == d;
    assert time[..2] == h && time[3..5] == mi && time[6..] == sec;
  }

  /** Each field of a formatted timestamp is that field of `t`, zero-padded. */
  lemma FormattedFields(t: Timestamp)
    requires ValidTimestamp(t)
    ensures var s := FormatTimestamp(t);
      && s[..4] == ZeroPad(t.year, 4) && s[5..7] == ZeroPad(t.month, 2) && s[8..10] == ZeroPad(t.day, 2)
      && s[11..13] == ZeroPad(t.hour, 2) && s[14..16] == ZeroPad(t.minute, 2)
      && s[17..19] == ZeroPad(t.second, 2) && s[20..] == ZeroPad(t.millisecond, 3)
  {
    LayoutFields(ZeroPad(t.year, 4), ZeroPad(t.month, 2), ZeroPad(t.day, 2), ZeroPad(t.hour, 2),
                 ZeroPad(t.minute, 2), ZeroPad(t.second, 2), ZeroPad(t.millisecond, 3));
  }

  /** Reading the seven fields of a formatted timestamp back. */
  function ParseTimestamp(s: string): (t: Timestamp)
    requires TimestampFields(s)
    ensures t.year < 10000 && t.month < 100 && t.day < 100 && t.hour < 100
    ensures t.minute < 100 && t.second < 100 && t.millisecond < 1000
  {
    DecimalBound(s[..4]);
    DecimalBound(s[5..7]);
    DecimalBound(s[8..10]);
    DecimalBound(s[11..13]);
    DecimalBound(s[14..16]);
    DecimalBound(s[17..19]);
    DecimalBound(s[20..]);
    Timestamp(DecimalValue(s[..4]), DecimalValue(s[5..7]), DecimalValue(s[8..10]), DecimalValue(s[11..13]),
              DecimalValue(s[14..16]), DecimalValue(s[17..19]), DecimalValue(s[20..]))
  }

  /** A zero-padded field wide enough for `n` reads back as `n`. */
  lemma FieldReadsBack(field: string, n: nat, width: nat)
    requires field == ZeroPad(n, width) && n < Pow10(width)
    ensures AllDigits(field) && DecimalValue(field) == n
  {
    ZeroPadReadsBack(n, width);
  }

  /** The timestamp of a log line determines the clock reading: it parses back to `t`. */
  lemma TimestampRoundTrip(t: Timestamp)
    requires ValidTimestamp(t)
    ensures TimestampFields(FormatTimestamp(t))
    ensures ParseTimestamp(FormatTimestamp(t)) == t
  {
    var s := FormatTimestamp(t);
    FormattedFields(t);
    assert Pow10(2) == 100 && Pow10(3) == 1000 && Pow10(4) == 10000;
    FieldReadsBack(s[..4], t.year, 4);
    FieldReadsBack(s[5..7], t.month, 2);
    FieldReadsBack(s[8..10], t.day, 2);
    FieldReadsBack(s[11..13], t.hour, 2);
    FieldReadsBack(s[14..16], t.minute, 2);
    FieldReadsBack(s[17..19], t.second, 2);
    FieldReadsBack(s[20..], t.millisecond, 3);
  }

  /** LogEntry: `None` stands for a nil Data or Error. */
  datatype LogEntry = LogEntry(level: int, timestamp: Timestamp, message: string, data: Option<string>, error: Option<string>)

  /** "[LEVEL] <timestamp> <message>", the part every line starts with. */
  function Header(e: LogEntry): string
    requires ValidTimestamp(e.timestamp)
  {
    "[" + LevelString(e.level) + "] " + FormatTimestamp(e.timestamp) + " " + e.message
  }

  /** formatLogEntry */
  function FormatLogEntry(e: LogEntry): (line: string)
    requires ValidTimestamp(e.timestamp)
    ensures HasPrefix(line, Header(e))
    ensures |line| == |Header(e)|
      + (if e.data.Some? then |" Data: "| + |e.data.value| else 0)
      + (if e.error.Some? then |" Error: "| + |e.error.value| else 0)
    ensures e.data.Some? ==> OccursAt(line, " Data: " + e.data.value, |Header(e)|)
    ensures e.error.Some? ==> OccursAt(line, " Error: " + e.error.value, |line| - |" Error: " + e.error.value|)
    ensures e.data.None? && e.error.None? ==> line == Header(e)
  {
    var msg := Header(e);
    var dataPart := if e.data.Some? then " Data: " + e.data.value else "";
    var errorPart := if e.error.Some? then " Error: " + e.error.value else "";
    var line := msg + dataPart + errorPart;
    assert line[..|msg|] == msg;
    assert line[|msg|..|msg| + |dataPart|] == dataPart;
    assert line[|msg| + |dataPart|..] == errorPart;
    line
  }

  /**
   * The line begins with the bracketed level name: the first ']' closes it,
   * so the level can be read off any line.
   */
  lemma LevelLeadsLine(e: LogEntry)
    requires ValidTimestamp(e.timestamp)
    ensures var line, name := FormatLogEntry(e), LevelString(e.level);
      && line[0] == '['
      && line[1..|name| + 1] == name
      && line[|name| + 1] == ']'
      && ']' !in line[1..|name| + 1]
  {
    var line, name := FormatLogEntry(e), LevelString(e.level);
    var h := Header(e);
    assert line[..|h|] == h;
    assert h[1..|name| + 1] == name;
  }

  /** With both present, the data part comes first and the error part right after it. */
  lemma DataBeforeError(e: LogEntry)
    requires ValidTimestamp(e.timestamp) && e.data.Some? && e.error.Some?
    ensures var line := FormatLogEntry(e);
      line == Header(e) + " Data: " + e.data.value + " Error: " + e.error.value
  {
    var line := FormatLogEntry(e);
    var h, d, r := Header(e), " Data: " + e.data.value, " Error: " + e.error.value;
    assert line[..|h|] == h;
    assert line[|h|..|h| + |d|] == d;
    assert line[|line| - |r|..] == r;
    assert line == line[..|h|] + line[|h|..|h| + |d|] + line[|line| - |r|..];
  }

  /** The five logger outputs. */
  datatype Sink = DebugSink | InfoSink | WarningSink | ErrorSink | FatalSink

  function SinkLevel(s: Sink): int {
    match s
    case DebugSink => LogLevelDebug
    case InfoSink => LogLevelInfo
    case WarningSink => LogLevelWarning
    case ErrorSink => LogLevelError
    case FatalSink => LogLevelFatal
  }

  /**
   * Log: the one sink the level selects, with the formatted line; levels
   * outside 0..4 log nothing.
   */
  function Log(level: int, now: Timestamp, message: string, data: Option<string>, err: Option<string>): (r: Option<(Sink, string)>)
    requires ValidTimestamp(now)
    ensures r.Some? <==> LogLevelDebug <= level <= LogLevelFatal
    ensures r.Some? ==> SinkLevel(r.value.0) == level
    ensures r.Some? ==> r.value.1 == FormatLogEntry(LogEntry(level, now, message, data, err))
  {
    var line := FormatLogEntry(LogEntry(level, now, message, data, err));
    if level == LogLevelDebug then Some((DebugSink, line))
    else if level == LogLevelInfo then Some((InfoSink, line))
    else if level == LogLevelWarning then Some((WarningSink, line))
    else if level == LogLevelError then Some((ErrorSink, line))
    else if level == LogLevelFatal then Some((FatalSink, line))
    else None
  }

  /** Different levels go to different sinks. */
  lemma LogSinksDistinct(a: int, b: int, now: Timestamp, message: string, data: Option<string>, err: Option<string>)
    requires ValidTimestamp(now)
    requires LogLevelDebug <= a <= LogLevelFatal && LogLevelDebug <= b <= LogLevelFatal && a != b
    ensures Log(a, now, message, data, err).value.0 != Log(b, now, message, data, err).value.0
  {
  }
}
