/** The static class `Logging` (src/Utils/Logging.cs): a switch that sends log
    entries to the console and a dictionary of labelled buffers that keeps
    entries for later retrieval whatever the switch says. The static state
    becomes the fields of one `Logger` object; the console is an output
    sequence of the lines written to it. */
module Logging {
  import opened Outcomes
  import opened StringExtensions

  // ---------------------------------------------------------------------------
  // Entries
  // ---------------------------------------------------------------------------

  datatype LoggingLevel = Debug | Info | Warn | Error

  /** `System.ConsoleColor`, in the order of its numeric values. */
  datatype ConsoleColor =
    | Black | DarkBlue | DarkGreen | DarkCyan | DarkRed | DarkMagenta | DarkYellow | Gray
    | DarkGray | Blue | Green | Cyan | Red | Magenta | Yellow | White

  /** The record `LogEntry`; the timestamp is the clock reading the caller
      supplies, and a missing colour is `None`. */
  datatype LogEntry = LogEntry(timestamp: int, level: LoggingLevel, message: string, foregroundColor: Option<ConsoleColor>)

  /** One line written by `WriteLogEntry`: the colour it is written in, the
      entry's timestamp, the level column and the message. */
  datatype ConsoleLine = ConsoleLine(color: ConsoleColor, timestamp: int, levelText: string, message: string)

  /** The integer value of each level. */
  function LevelValue(level: LoggingLevel): (n: nat)
    ensures n < 4
  {
    match level
    case Debug => 0
    case Info => 1
    case Warn => 2
    case Error => 3
  }

  /** The levels are numbered 0 to 3 in declaration order, one number each. */
  lemma LevelValuesAreDistinct(a: LoggingLevel, b: LoggingLevel)
    ensures LevelValue(a) == LevelValue(b) <==> a == b
    ensures LevelValue(Debug) == 0 && LevelValue(Info) == 1 && LevelValue(Warn) == 2 && LevelValue(Error) == 3
  {
  }

  /** `GetDefaultColorForLevel`. */
  function DefaultColorForLevel(level: LoggingLevel): ConsoleColor {
    match level
    case Debug => DarkMagenta
    case Info => Blue
    case Warn => Yellow
    case Error => Red
  }

  /** The default colours are four different ones, none of them white. */
  lemma DefaultColorsDistinguishLevels(a: LoggingLevel, b: LoggingLevel)
    ensures DefaultColorForLevel(a) == DefaultColorForLevel(b) <==> a == b
    ensures DefaultColorForLevel(a) != White
  {
  }

  /** The colour an entry is written in: its own, or its level's default. */
  function EntryColor(e: LogEntry): (c: ConsoleColor)
    ensures e.foregroundColor.Some? ==> c == e.foregroundColor.value
    ensures e.foregroundColor.None? ==> c == DefaultColorForLevel(e.level)
  {
    if e.foregroundColor.Some? then e.foregroundColor.value else DefaultColorForLevel(e.level)
  }

  /** `Enum.ToString()` of a level. */
  function LevelName(level: LoggingLevel): string {
    match level
    case Debug => "Debug"
    case Info => "Info"
    case Warn => "Warn"
    case Error => "Error"
  }

  /** `char.ToUpper` on the letters the level names use. */
  function UpperChar(c: char): (u: char)
    ensures 'a' <= c <= 'z' ==> 'A' <= u <= 'Z' && u as int == c as int - 32
    ensures !('a' <= c <= 'z') ==> u == c
  {
    if 'a' <= c <= 'z' then (c as int - 32) as char else c
  }

  /** `String.ToUpper`, restricted to ASCII letters. */
  function ToUpper(s: string): (u: string)
    ensures |u| == |s|
    ensures forall i :: 0 <= i < |s| ==> u[i] == UpperChar(s[i])
  {
    if s == [] then [] else [UpperChar(s[0])] + ToUpper(s[1..])
  }

  /** The level column, `Level.ToString().ToUpper().PadRight(5)`. */
  function LevelText(level: LoggingLevel): string {
    PadRight(ToUpper(LevelName(level)), 5)
  }

  /** Every level column is five characters wide and names its level in
      capitals, so the columns line up and tell the levels apart. */
  lemma LevelTextIsAligned(a: LoggingLevel, b: LoggingLevel)
    ensures |LevelText(a)| == 5
    ensures LevelText(a) == LevelText(b) <==> a == b
    ensures LevelText(Debug) == "DEBUG" && LevelText(Info) == "INFO " && LevelText(Warn) == "WARN "
    ensures LevelText(Error) == "ERROR"
  {
    LevelTextValues();
  }

  /** The four level columns spelled out. */
  lemma LevelTextValues()
    ensures LevelText(Debug) == "DEBUG" && LevelText(Info) == "INFO " && LevelText(Warn) == "WARN "
    ensures LevelText(Error) == "ERROR"
  {
    var debug, info, warn, error := ToUpper("Debug"), ToUpper("Info"), ToUpper("Warn"), ToUpper("Error");
    assert debug == "DEBUG";
    assert info == "INFO";
    assert warn == "WARN";
    assert error == "ERROR";
    assert info + seq(1, _ => ' ') == "INFO ";
    assert warn + seq(1, _ => ' ') == "WARN ";
  }

  /** What `WriteLogEntry` writes for an entry. */
  function Render(e: LogEntry): (line: ConsoleLine)
    ensures line.color == EntryColor(e) && line.message == e.message && line.timestamp == e.timestamp
    ensures |line.levelText| == 5
  {
    LevelTextIsAligned(e.level, e.level);
    ConsoleLine(EntryColor(e), e.timestamp, LevelText(e.level), e.message)
  }

  // ---------------------------------------------------------------------------
  // The label buffer as a value
  // ---------------------------------------------------------------------------

  type Buffer = map<string, seq<LogEntry>>

  /** `string.IsNullOrEmpty(label)` is false: the label is buffered. */
  predicate IsBufferLabel(key: Option<string>) {
    key.Some? && key.value != ""
  }

  /** `GetHeldLogs(label)` on a buffer: the label's entries, or none. */
  function HeldLogs(b: Buffer, key: string): (logs: seq<LogEntry>)
    ensures key !in b ==> logs == []
    ensures key in b ==> logs == b[key]
  {
    if key in b then b[key] else []
  }

  /** The buffer after `WriteLog` with `label`: an entry is appended to the
      end of the label's list, created if absent, when the label is neither
      null nor empty; every other label keeps its list. */
  function Buffered(b: Buffer, key: Option<string>, e: LogEntry): (r: Buffer)
    ensures !IsBufferLabel(key) ==> r == b
    ensures IsBufferLabel(key) ==>
              r.Keys == b.Keys + {key.value} && HeldLogs(r, key.value) == HeldLogs(b, key.value) + [e]
    ensures forall l :: l in b && !(IsBufferLabel(key) && l == key.value) ==> l in r && r[l] == b[l]
  {
    if IsBufferLabel(key) then b[key.value := HeldLogs(b, key.value) + [e]] else b
  }

  /** The buffer after `Hold(label)`: the label is present, and if it was
      already, nothing changes. */
  function Held(b: Buffer, key: string): (r: Buffer)
    ensures r.Keys == b.Keys + {key}
    ensures key in b ==> r == b
    ensures HeldLogs(r, key) == HeldLogs(b, key)
    ensures forall l :: l in b ==> r[l] == b[l]
  {
    if key in b then b else b[key := []]
  }

  /** The buffer after `ClearHeldLogs(label)`: that label gone, the rest kept. */
  function Cleared(b: Buffer, key: string): (r: Buffer)
    ensures r.Keys == b.Keys - {key}
    ensures HeldLogs(r, key) == []
    ensures forall l :: l in r ==> r[l] == b[l]
  {
    b - {key}
  }

  // ---------------------------------------------------------------------------
  // Properties of the buffer, as the unit tests exercise it
  // ---------------------------------------------------------------------------

  /** Writing the same label twice keeps both entries in writing order. */
  lemma {:induction false} WritesAccumulateInOrder(b: Buffer, key: string, es: seq<LogEntry>)
    requires key != ""
    ensures HeldLogs(WriteAll(b, key, es), key) == HeldLogs(b, key) + es
    ensures forall l :: l in b && l != key ==> HeldLogs(WriteAll(b, key, es), l) == b[l]
    decreases |es|
  {
    if es != [] {
      var last := es[|es| - 1];
      var init := es[..|es| - 1];
      WritesAccumulateInOrder(b, key, init);
      assert init + [last] == es;
    }
  }

  /** `WriteLog(e.message, ..., label)` for each entry of `es` in turn. */
  function WriteAll(b: Buffer, key: string, es: seq<LogEntry>): Buffer
    decreases |es|
  {
    if es == [] then b else Buffered(WriteAll(b, key, es[..|es| - 1]), Some(key), es[|es| - 1])
  }

  /** Entries written under one label never show up under another. */
  lemma LabelsAreSeparate(b: Buffer, l1: string, l2: string, e: LogEntry)
    requires l1 != l2
    ensures HeldLogs(Buffered(b, Some(l1), e), l2) == HeldLogs(b, l2)
  {
  }

  /** Holding a label never discards entries and holding twice is holding once. */
  lemma HoldIsIdempotent(b: Buffer, key: string)
    ensures Held(Held(b, key), key) == Held(b, key)
    ensures forall l :: HeldLogs(Held(b, key), l) == HeldLogs(b, l)
  {
  }

  /** Writing to a held label appends to the held list. */
  lemma WriteAfterHold(b: Buffer, key: string, e: LogEntry)
    requires key != ""
    ensures HeldLogs(Buffered(Held(b, key), Some(key), e), key) == HeldLogs(b, key) + [e]
    ensures Buffered(Held(b, key), Some(key), e) == Buffered(b, Some(key), e)
  {
  }

  /** Clearing one label leaves every other label's entries as they were. */
  lemma ClearOnlyTouchesItsLabel(b: Buffer, key: string, other: string)
    requires other != key
    ensures HeldLogs(Cleared(b, key), other) == HeldLogs(b, other)
    ensures HeldLogs(Cleared(b, key), key) == []
    ensures key !in b ==> Cleared(b, key) == b
  {
  }

  // ---------------------------------------------------------------------------
  // The static state
  // ---------------------------------------------------------------------------

  /** The logger's state: `_isEnabled`, `LogBuffer`, and everything written to
      the console so far. */
  class Logger {
    var isEnabled: bool
    var buffer: Buffer
    var console: seq<ConsoleLine>

    /** The state at start-up: disabled, with no buffers. */
    constructor ()
      ensures !isEnabled && buffer == map[] && console == []
    {
      isEnabled := false;
      buffer := map[];
      console := [];
    }

    /** `Enable()`. */
    method Enable()
      modifies this
      ensures isEnabled
      ensures buffer == old(buffer) && console == old(console)
    {
      isEnabled := true;
    }

    /** `Disable()`. */
    method Disable()
      modifies this
      ensures !isEnabled
      ensures buffer == old(buffer) && console == old(console)
    {
      isEnabled := false;
    }

    /** `WriteLogEntry(entry)`: one line on the console. */
    method WriteLogEntry(entry: LogEntry)
      modifies this
      ensures console == old(console) + [Render(entry)]
      ensures isEnabled == old(isEnabled) && buffer == old(buffer)
    {
      console := console + [Render(entry)];
    }

    /** `WriteLog(message, level, foregroundColor, label)` at clock reading
        `now`: the entry is buffered under a non-empty label whether or not
        logging is enabled, and written to the console only when it is. */
    method WriteLog(message: string, level: LoggingLevel, foregroundColor: Option<ConsoleColor>,
                    key: Option<string>, now: int)
      modifies this
      ensures buffer == Buffered(old(buffer), key, LogEntry(now, level, message, foregroundColor))
      ensures isEnabled == old(isEnabled)
      ensures console == old(console) + if isEnabled then [Render(LogEntry(now, level, message, foregroundColor))] else []
    {
      var logEntry := LogEntry(now, level, message, foregroundColor);
      if key.Some? && key.value != "" {
        if key.value !in buffer {
          buffer := buffer[key.value := []];
        }
        buffer := buffer[key.value := buffer[key.value] + [logEntry]];
      }
      if isEnabled {
        WriteLogEntry(logEntry);
      }
    }

    /** `WriteDebug(message, label)`. */
    method WriteDebug(message: string, key: Option<string>, now: int)
      modifies this
      ensures buffer == Buffered(old(buffer), key, LogEntry(now, Debug, message, Some(DarkMagenta)))
      ensures isEnabled == old(isEnabled)
      ensures console == old(console) + if isEnabled then [Render(LogEntry(now, Debug, message, Some(DarkMagenta)))] else []
    {
      WriteLog(message, Debug, Some(DarkMagenta), key, now);
    }

    /** `WriteInfo(message, label)`. */
    method WriteInfo(message: string, key: Option<string>, now: int)
      modifies this
      ensures buffer == Buffered(old(buffer), key, LogEntry(now, Info, message, Some(Blue)))
      ensures isEnabled == old(isEnabled)
      ensures console == old(console) + if isEnabled then [Render(LogEntry(now, Info, message, Some(Blue)))] else []
    {
      WriteLog(message, Info, Some(Blue), key, now);
    }

    /** `WriteWarn(message, label)`. */
    method WriteWarn(message: string, key: Option<string>, now: int)
      modifies this
      ensures buffer == Buffered(old(buffer), key, LogEntry(now, Warn, message, Some(Yellow)))
      ensures isEnabled == old(isEnabled)
      ensures console == old(console) + if isEnabled then [Render(LogEntry(now, Warn, message, Some(Yellow)))] else []
    {
      WriteLog(message, Warn, Some(Yellow), key, now);
    }

    /** `WriteError(message, label)`. */
    method WriteError(message: string, key: Option<string>, now: int)
      modifies this
      ensures buffer == Buffered(old(buffer), key, LogEntry(now, Error, message, Some(Red)))
      ensures isEnabled == old(isEnabled)
      ensures console == old(console) + if isEnabled then [Render(LogEntry(now, Error, message, Some(Red)))] else []
    {
      WriteLog(message, Error, Some(Red), key, now);
    }

    /** `Hold(label)`; the empty label is held like any other. */
    method Hold(key: string)
      modifies this
      ensures buffer == Held(old(buffer), key)
      ensures isEnabled == old(isEnabled) && console == old(console)
    {
      if key !in buffer {
        buffer := buffer[key := []];
      }
    }

    /** `GetHeldLogs(label)`: a copy, so later changes to it or to the buffer
        do not reach the other. */
    method GetHeldLogs(key: string) returns (logs: seq<LogEntry>)
      ensures key in buffer ==> logs == buffer[key]
      ensures key !in buffer ==> logs == []
    {
      if key in buffer {
        logs := buffer[key];
      } else {
        logs := [];
      }
    }

    /** `ClearHeldLogs(label)`; a missing label is no error. */
    method ClearHeldLogs(key: string)
      modifies this
      ensures buffer == Cleared(old(buffer), key)
      ensures isEnabled == old(isEnabled) && console == old(console)
    {
      buffer := buffer - {key};
    }

    /** `GetBufferLabels()`: every label once, in an order the dictionary
        chooses. */
    method GetBufferLabels() returns (labels: seq<string>)
      ensures forall l :: l in labels <==> l in buffer
      ensures forall i, j :: 0 <= i < j < |labels| ==> labels[i] != labels[j]
      ensures |labels| == |buffer|
    {
      var remaining := buffer.Keys;
      labels := [];
      while remaining != {}
        invariant remaining <= buffer.Keys
        invariant forall l :: l in labels <==> l in buffer.Keys - remaining
        invariant forall i, j :: 0 <= i < j < |labels| ==> labels[i] != labels[j]
        invariant |labels| + |remaining| == |buffer.Keys|
        decreases |remaining|
      {
        var l :| l in remaining;
        assert l !in labels;
        assert |remaining - {l}| == |remaining| - 1;
        labels := labels + [l];
        remaining := remaining - {l};
      }
    }

    /** `ClearBuffer()`. */
    method ClearBuffer()
      modifies this
      ensures buffer == map[]
      ensures isEnabled == old(isEnabled) && console == old(console)
    {
      buffer := map[];
    }
  }

  /** Three entries written under one label are held in writing order, with
      the colour each was given. */
  method AccumulatingSession() returns (held: seq<LogEntry>)
    ensures held == [LogEntry(0, Info, "Message 1", None), LogEntry(1, Warn, "Message 2", None),
                     LogEntry(2, Error, "Message 3", Some(Red))]
  {
    var log := new Logger();
    log.WriteLog("Message 1", Info, None, Some("label1"), 0);
    assert HeldLogs(log.buffer, "label1") == [LogEntry(0, Info, "Message 1", None)];
    log.WriteLog("Message 2", Warn, None, Some("label1"), 1);
    log.WriteLog("Message 3", Error, Some(Red), Some("label1"), 2);
    held := log.GetHeldLogs("label1");
  }

  /** Entries under two labels and an empty one: only the two labels are
      buffered, and clearing one leaves the other as it was. */
  method ClearingSession() returns (labels: seq<string>, cleared: seq<LogEntry>, other: seq<LogEntry>)
    ensures |labels| == 2 && "label1" in labels && "label2" in labels && "" !in labels
    ensures cleared == [] && other == [LogEntry(2, Info, "Message 2", None)]
  {
    var log := new Logger();
    log.WriteLog("Message 1", Info, None, Some("label1"), 0);
    log.WriteLog("Message", Info, None, Some(""), 1);
    log.WriteLog("Message 2", Info, None, Some("label2"), 2);
    assert log.buffer.Keys == {"label1", "label2"};
    labels := log.GetBufferLabels();
    log.ClearHeldLogs("label1");
    cleared := log.GetHeldLogs("label1");
    other := log.GetHeldLogs("label2");
  }
}
