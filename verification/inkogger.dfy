/** The logger: levels and their metadata, the level filter, the line a
    log call formats, the file copy with its ANSI colour codes stripped,
    the stream front end, and the registry of named loggers. The clock is
    a parameter (the formatted timestamp), and so is whether opening a log
    file succeeds. Characters stand for the bytes the C++ code writes. */
module Inkogger {
  import opened Wrappers
  import opened Text

  datatype LogLevel = Off | Fatal | Error | Warn | Info | Debug | Verbose | Trace
  {
    /** The enumerator's value. */
    function Value(): (v: nat)
      ensures v < Count
    {
      match this
      case Off => 0
      case Fatal => 1
      case Error => 2
      case Warn => 3
      case Info => 4
      case Debug => 5
      case Verbose => 6
      case Trace => 7
    }
  }

  /** `LogLevel::COUNT`. */
  const Count: nat := 8

  /** The level with a given value. */
  function FromValue(v: nat): (r: Option<LogLevel>)
    ensures r.Some? <==> v < Count
    ensures r.Some? ==> r.value.Value() == v
  {
    if v == 0 then Some(Off)
    else if v == 1 then Some(Fatal)
    else if v == 2 then Some(Error)
    else if v == 3 then Some(Warn)
    else if v == 4 then Some(Info)
    else if v == 5 then Some(Debug)
    else if v == 6 then Some(Verbose)
    else if v == 7 then Some(Trace)
    else None
  }

  /** Distinct levels have distinct values, and every value below COUNT
      names a level. */
  lemma ValuesAreACode(a: LogLevel, b: LogLevel)
    ensures a.Value() == b.Value() ==> a == b
    ensures FromValue(a.Value()) == Some(a)
  {
  }

  // ANSI colour codes.

  const Esc: char := 27 as char

  const Reset: string := [Esc] + "[0m"
  const Red: string := [Esc] + "[31m"
  const Green: string := [Esc] + "[32m"
  const Yellow: string := [Esc] + "[33m"
  const Blue: string := [Esc] + "[34m"
  const Cyan: string := [Esc] + "[36m"
  const DarkGray: string := [Esc] + "[90;1m"
  const BoldRed: string := [Esc] + "[31;1m"

  datatype LevelMetadata = LevelMetadata(color: string, desc: string)

  /** `MAP_COLORS_FOR_LEVEL`, indexed by level value. */
  const ColorsForLevel: seq<LevelMetadata> := [
    LevelMetadata("", "OFF"),
    LevelMetadata(BoldRed, "FATAL"),
    LevelMetadata(Red, "ERROR"),
    LevelMetadata(Yellow, "WARN"),
    LevelMetadata(Green, "INFO"),
    LevelMetadata(Blue, "DEBUG"),
    LevelMetadata(DarkGray, "VERBOSE"),
    LevelMetadata(Cyan, "TRACE")
  ]

  /** One logger's settings. `toFile` is true when file logging was asked
      for and the file opened. */
  datatype Logger = Logger(name: string, level: LogLevel, useColors: bool, toFile: bool)

  /** The constructor: level INFO, colours on, no file. */
  function NewLogger(name: string): (lg: Logger)
    ensures lg.name == name && lg.level == Info && lg.useColors && !lg.toFile
  {
    Logger(name, Info, true, false)
  }

  function SetLevel(lg: Logger, level: LogLevel): (r: Logger)
    ensures r.level == level && r == lg.(level := level)
  {
    lg.(level := level)
  }

  function SetUseColors(lg: Logger, on: bool): (r: Logger)
    ensures r.useColors == on && r == lg.(useColors := on)
  {
    lg.(useColors := on)
  }

  /** `getLevelString(level)`: the level's name, and "UNKNOWN" for OFF. */
  function LevelString(level: LogLevel): (r: string)
    ensures Esc !in r
  {
    match level
    case Trace => "TRACE"
    case Verbose => "VERBOSE"
    case Debug => "DEBUG"
    case Info => "INFO"
    case Warn => "WARN"
    case Error => "ERROR"
    case Fatal => "FATAL"
    case Off => "UNKNOWN"
  }

  /** `getColorForLevel(level)`: nothing when colours are off; else the
      level's colour, and nothing for OFF. */
  function ColorFor(lg: Logger, level: LogLevel): (r: string)
    ensures !lg.useColors ==> r == ""
  {
    if !lg.useColors then ""
    else
      match level
      case Trace => Cyan
      case Verbose => DarkGray
      case Debug => Blue
      case Info => Green
      case Warn => Yellow
      case Error => Red
      case Fatal => BoldRed
      case Off => ""
  }

  /** The metadata table has an entry per level; its names agree with
      `getLevelString` except for OFF, and with colours on its colours
      agree with `getColorForLevel`. */
  lemma MetadataAgrees(lg: Logger, level: LogLevel)
    requires lg.useColors
    ensures |ColorsForLevel| == Count
    ensures level != Off ==> ColorsForLevel[level.Value()].desc == LevelString(level)
    ensures ColorsForLevel[level.Value()].color == ColorFor(lg, level)
    ensures ColorsForLevel[Off.Value()].color == ""
  {
  }

  // The level filter.

  /** `isEnabled(level)` as written: `level >= m_Level`. */
  predicate IsEnabledAsWritten(lg: Logger, level: LogLevel) {
    level.Value() >= lg.level.Value()
  }

  /** As written, the filter lets through exactly the messages LESS severe
      than the configured level: a new logger prints TRACE and drops
      ERROR and FATAL. */
  lemma AsWrittenDropsErrors(name: string)
    ensures IsEnabledAsWritten(NewLogger(name), Trace)
    ensures !IsEnabledAsWritten(NewLogger(name), Error)
    ensures !IsEnabledAsWritten(NewLogger(name), Fatal)
  {
  }

  /** The filter the level ordering calls for: a message passes when it is
      at least as severe as the configured level (a smaller value is more
      severe); OFF messages, which the unconditional `INK_LOG` stream
      uses, always pass. */
  predicate IsEnabled(lg: Logger, level: LogLevel) {
    level.Value() <= lg.level.Value()
  }

  /** The corrected filter passes the configured level and everything more
      severe, and nothing less severe. A new logger shows FATAL through
      INFO and hides DEBUG, VERBOSE and TRACE. */
  lemma SeverityThreshold(lg: Logger, level: LogLevel, worse: LogLevel)
    ensures IsEnabled(lg, lg.level) && IsEnabled(lg, Off)
    ensures IsEnabled(lg, level) && worse.Value() <= level.Value() ==> IsEnabled(lg, worse)
    ensures IsEnabled(NewLogger(lg.name), level) <==> level in {Off, Fatal, Error, Warn, Info}
  {
  }

  /** The two filters meet only at the configured level itself. */
  lemma FiltersDisagree(lg: Logger, level: LogLevel)
    ensures IsEnabled(lg, level) && IsEnabledAsWritten(lg, level) <==> level == lg.level
  {
    ValuesAreACode(level, lg.level);
  }

  // The formatted line.

  /** The text of a C string stored in a `std::string`: `c_str()` stops at
      the first NUL. */
  function CText(s: string): (r: string)
    ensures r <= s && '\0' !in r
    ensures forall x | x in r :: x in s
    ensures '\0' !in s ==> r == s
  {
    if s == [] || s[0] == '\0' then [] else [s[0]] + CText(s[1..])
  }

  /** The index of the last `c` in `s` (`strrchr`). */
  function LastIndex(s: string, c: char): (r: Option<nat>)
    ensures r.Some? ==> r.value < |s| && s[r.value] == c && c !in s[r.value + 1..]
    ensures r.None? ==> c !in s
  {
    if s == [] then None
    else if s[|s| - 1] == c then Some(|s| - 1)
    else
      var r := LastIndex(s[..|s| - 1], c);
      assert r.Some? ==> s[r.value + 1..] == s[..|s| - 1][r.value + 1..] + [s[|s| - 1]];
      assert r.None? ==> s == s[..|s| - 1] + [s[|s| - 1]];
      r
  }

  /** The file name shown for a path: after the last '/', else after the
      last '\\', else the whole path. */
  function BaseName(path: string): (r: string)
    ensures |r| <= |path| && r == path[|path| - |r|..]
  {
    match LastIndex(path, '/')
    case Some(i) => path[i + 1..]
    case None =>
      match LastIndex(path, '\\')
      case Some(j) => path[j + 1..]
      case None => path
  }

  /** The displayed name is a suffix of the path holding no '/'; it holds
      no '\\' either unless the path has a '/', which takes precedence;
      a path with neither is shown whole. */
  lemma BaseNameSpec(path: string)
    ensures var r := BaseName(path);
      && |r| <= |path| && r == path[|path| - |r|..]
      && '/' !in r
      && ('/' !in path ==> '\\' !in r)
      && ('/' !in path && '\\' !in path ==> r == path)
  {
  }

  /** Splitting off a directory gives back the file name, whichever
      separator the directory ends in, as long as the name has neither. */
  lemma BaseNameOfJoin(dir: string, sep: char, name: string)
    requires sep == '/' || sep == '\\'
    requires '/' !in name && '\\' !in name
    requires sep == '\\' ==> '/' !in dir
    ensures BaseName(dir + [sep] + name) == name
  {
    var p := dir + [sep] + name;
    assert p[|dir|] == sep;
    assert p[|dir| + 1..] == name;
    if sep == '/' {
      assert LastIndex(p, '/') == Some(|dir|);
    } else {
      assert '/' !in p;
      assert LastIndex(p, '\\') == Some(|dir|);
    }
  }

  /** `%d` of an `ink_u32`: values from 2^31 up print negative. */
  function LineText(line: nat): (r: string)
    requires line < 0x1_0000_0000
    ensures Esc !in r
  {
    var n := if line >= 0x8000_0000 then line - 0x1_0000_0000 else line;
    var t := IntToString(n);
    assert forall i | 0 <= i < |t| :: t[i] == '-' || IsDigit(t[i]);
    t
  }

  /** The reset code written after the level, when colours are on. */
  function ResetFor(lg: Logger): (r: string)
    ensures r == "" <==> !lg.useColors
  {
    if lg.useColors then Reset else ""
  }

  function Stamp(timestamp: string): (r: string)
    ensures Esc !in timestamp ==> Esc !in r
  {
    "[" + timestamp + "] "
  }

  function LevelTag(level: LogLevel): (r: string)
    ensures Esc !in r
  {
    "[" + LevelString(level) + "]"
  }

  function Trailer(name: string, message: string, file: string, line: nat): (r: string)
    requires line < 0x1_0000_0000
    ensures Esc !in name && Esc !in message && Esc !in file ==> Esc !in r
  {
    assert Esc !in file ==> Esc !in BaseName(file) by {
      assert forall x | x in BaseName(file) :: x in file;
    }
    " [" + CText(name) + "]: " + CText(message) + " (" + BaseName(file) + ":" + LineText(line) + ")"
  }

  /** `[timestamp] <colour>[LEVEL]<reset> [name]: message (file:line)`. */
  function FormatLine(lg: Logger, level: LogLevel, message: string, file: string, line: nat, timestamp: string): string
    requires line < 0x1_0000_0000
  {
    Stamp(timestamp) + (ColorFor(lg, level) + (LevelTag(level) + (ResetFor(lg) + Trailer(lg.name, message, file, line))))
  }

  /** The size of the thread-local formatting buffer. */
  const BufferSize: nat := 4096

  // ANSI stripping.

  const EscBracket: string := [Esc, '[']

  /** `find("\033[", from)`: the first "ESC[" at or after `from`. */
  function FindEsc(s: string, from: nat): (r: Option<nat>)
    ensures r.Some? ==> from <= r.value && r.value + 1 < |s| && s[r.value] == Esc && s[r.value + 1] == '['
    decreases |s| - from
  {
    if from + 1 >= |s| then None
    else if s[from] == Esc && s[from + 1] == '[' then Some(from)
    else FindEsc(s, from + 1)
  }

  /** `find('m', from)`. */
  function FindM(s: string, from: nat): (r: Option<nat>)
    ensures r.Some? ==> from <= r.value < |s| && s[r.value] == 'm'
    decreases |s| - from
  {
    if from >= |s| then None
    else if s[from] == 'm' then Some(from)
    else FindM(s, from + 1)
  }

  /** The two searches are `std::string::find` on "ESC[" and on 'm'. */
  lemma {:induction false} SearchesAreFind(s: string, from: nat)
    ensures FindEsc(s, from) == FindFrom(s, EscBracket, from)
    ensures FindM(s, from) == FindFirstOf(s, {'m'}, from)
    decreases |s| - from
  {
    if from + 1 < |s| {
      assert s[from..from + 2] == EscBracket <==> s[from] == Esc && s[from + 1] == '[' by {
        assert s[from..from + 2] == [s[from], s[from + 1]];
      }
    }
    if from < |s| {
      SearchesAreFind(s, from + 1);
    }
  }

  /** Nothing left to strip: no "ESC[" remains, or the first one has no
      'm' after it. */
  predicate Stripped(s: string) {
    match FindEsc(s, 0)
    case None => true
    case Some(pos) => FindM(s, pos).None?
  }

  /** The file copy of a line: erase the first "ESC[" through the next 'm',
      inclusive, until nothing is left to strip. */
  function StripAnsi(s: string): (r: string)
    ensures |r| <= |s|
    decreases |s|
  {
    match FindEsc(s, 0)
    case None => s
    case Some(pos) =>
      match FindM(s, pos)
      case None => s
      case Some(end) => StripAnsi(s[..pos] + s[end + 1..])
  }

  /** The loop as the source writes it. */
  method StripAnsiLoop(s: string) returns (r: string)
    ensures r == StripAnsi(s)
  {
    r := s;
    while true
      invariant StripAnsi(r) == StripAnsi(s)
      decreases |r|
    {
      var pos := FindEsc(r, 0);
      if pos.None? {
        return;
      }
      var end := FindM(r, pos.value);
      if end.None? {
        return;
      }
      StripStep(r, pos.value, end.value, r[..pos.value] + r[end.value + 1..]);
      r := r[..pos.value] + r[end.value + 1..];
    }
  }

  /** The loop stops when nothing is left to strip. */
  lemma StripDone(s: string)
    requires Stripped(s)
    ensures StripAnsi(s) == s
  {
  }

  /** One round of the stripping loop. */
  lemma StripStep(s: string, pos: nat, end: nat, u: string)
    requires FindEsc(s, 0) == Some(pos) && FindM(s, pos) == Some(end)
    requires u == s[..pos] + s[end + 1..]
    ensures StripAnsi(s) == StripAnsi(u)
  {
  }

  /** Stripping leaves nothing to strip. */
  lemma {:induction false} StripAnsiStripped(s: string)
    ensures Stripped(StripAnsi(s))
    decreases |s|
  {
    match FindEsc(s, 0)
    case None =>
    case Some(pos) =>
      match FindM(s, pos)
      case None =>
      case Some(end) =>
        StripAnsiStripped(s[..pos] + s[end + 1..]);
  }

  /** Stripping twice strips nothing more. */
  lemma StripIdempotent(s: string)
    ensures StripAnsi(StripAnsi(s)) == StripAnsi(s)
  {
    StripAnsiStripped(s);
    StripDone(StripAnsi(s));
  }

  /** Text without an escape character is kept as it is. */
  lemma StripNoEsc(s: string)
    requires Esc !in s
    ensures StripAnsi(s) == s
  {
    NoEscNotFound(s, 0);
  }

  lemma {:induction false} NoEscNotFound(s: string, from: nat)
    requires Esc !in s
    ensures FindEsc(s, from) == None
    decreases |s| - from
  {
    if from + 1 < |s| {
      assert s[from] in s;
      NoEscNotFound(s, from + 1);
    }
  }

  /** A colour code: "ESC[", then parameters without 'm', then 'm'. */
  predicate ColourCode(c: string) {
    && |c| >= 3 && c[0] == Esc && c[1] == '[' && c[|c| - 1] == 'm'
    && forall i | 2 <= i < |c| - 1 :: c[i] != 'm'
  }

  /** A colour code at the front is erased as a whole. */
  lemma StripColourCode(c: string, t: string)
    requires ColourCode(c)
    ensures StripAnsi(c + t) == StripAnsi(t)
  {
    var s := c + t;
    assert FindEsc(s, 0) == Some(0);
    MSearchInCode(c, t, 0);
    assert s[..0] + s[|c|..] == t;
  }

  lemma {:induction false} MSearchInCode(c: string, t: string, from: nat)
    requires ColourCode(c) && from < |c|
    ensures FindM(c + t, from) == Some(|c| - 1)
    decreases |c| - from
  {
    if from < |c| - 1 {
      assert (c + t)[from] == c[from];
      assert from >= 2 || c[from] != 'm';
      MSearchInCode(c, t, from + 1);
    }
  }

  /** Text without an escape character in front of the rest passes
      through, and stripping goes on in the rest. */
  lemma {:induction false} StripAfterPlain(p: string, t: string)
    requires Esc !in p
    ensures StripAnsi(p + t) == p + StripAnsi(t)
    decreases |t|
  {
    FindEscShift(p, t);
    match FindEsc(t, 0)
    case None =>
    case Some(k) =>
      FindMShift(p, t, k);
      match FindM(t, k)
      case None =>
      case Some(e) =>
        var t' := t[..k] + t[e + 1..];
        EraseShift(p, t, k, e);
        StripStep(p + t, |p| + k, |p| + e, p + t');
        StripStep(t, k, e, t');
        StripAfterPlain(p, t');
  }

  /** Erasing a range of the rest leaves the prefix in place. */
  lemma EraseShift(p: string, t: string, k: nat, e: nat)
    requires k <= e < |t|
    ensures (p + t)[..|p| + k] + (p + t)[|p| + e + 1..] == p + (t[..k] + t[e + 1..])
  {
    assert (p + t)[..|p| + k] == p + t[..k];
    assert (p + t)[|p| + e + 1..] == t[e + 1..];
  }

  /** The search for "ESC[" skips a prefix without an escape character. */
  lemma FindEscShift(p: string, t: string)
    requires Esc !in p
    ensures FindEsc(p + t, 0) == match FindEsc(t, 0) case None => None case Some(k) => Some(|p| + k)
  {
    FindEscSkip(p, t, 0);
    FindEscAfter(p, t, 0);
  }

  lemma {:induction false} FindEscSkip(p: string, t: string, from: nat)
    requires Esc !in p && from <= |p|
    ensures FindEsc(p + t, from) == FindEsc(p + t, |p|)
    decreases |p| - from
  {
    if from < |p| {
      assert (p + t)[from] == p[from] && p[from] in p;
      FindEscSkip(p, t, from + 1);
    }
  }

  lemma {:induction false} FindEscAfter(p: string, t: string, i: nat)
    ensures FindEsc(p + t, |p| + i) == match FindEsc(t, i) case None => None case Some(k) => Some(|p| + k)
    decreases |t| - i
  {
    if i + 1 < |t| {
      assert (p + t)[|p| + i] == t[i] && (p + t)[|p| + i + 1] == t[i + 1];
      FindEscAfter(p, t, i + 1);
    }
  }

  /** The search for 'm' past a prefix. */
  lemma {:induction false} FindMShift(p: string, t: string, k: nat)
    ensures FindM(p + t, |p| + k) == match FindM(t, k) case None => None case Some(e) => Some(|p| + e)
    decreases |t| - k
  {
    if k < |t| {
      assert (p + t)[|p| + k] == t[k];
      FindMShift(p, t, k + 1);
    }
  }

  // Logging.

  /** What one log call writes: the console line and the file line, each
      with its newline. */
  datatype Output = Output(console: Option<string>, file: Option<string>)

  /** What an enabled `log` call writes. A formatted line that does not fit
      the 4096-byte buffer is not written at all; one that fits goes to the
      console and, when file logging is on, with its colour codes stripped
      to the file. */
  function Emit(lg: Logger, level: LogLevel, message: string, file: string, line: nat, timestamp: string): (out: Output)
    requires line < 0x1_0000_0000
    ensures out.console.Some? <==> |FormatLine(lg, level, message, file, line, timestamp)| < BufferSize
    ensures out.file.Some? <==> lg.toFile && out.console.Some?
    ensures out.console.Some? ==> |out.console.value| <= BufferSize
    ensures out.console.Some? ==> out.console.value == FormatLine(lg, level, message, file, line, timestamp) + "\n"
    ensures out.file.Some? ==> out.file.value == StripAnsi(FormatLine(lg, level, message, file, line, timestamp)) + "\n"
  {
    var text := FormatLine(lg, level, message, file, line, timestamp);
    if |text| >= BufferSize then Output(None, None)
    else Output(Some(text + "\n"), if lg.toFile then Some(StripAnsi(text) + "\n") else None)
  }

  /** `log(level, message, file, line)` as written: nothing happens unless
      the level passes the `>=` filter; otherwise the line is emitted. */
  function Log(lg: Logger, level: LogLevel, message: string, file: string, line: nat, timestamp: string): (out: Output)
    requires line < 0x1_0000_0000
    ensures !IsEnabledAsWritten(lg, level) ==> out == Output(None, None)
    ensures out.file.Some? ==> lg.toFile && out.console.Some?
    ensures out.console.Some? ==> IsEnabledAsWritten(lg, level) && |out.console.value| <= BufferSize
    ensures out.console.Some? ==> out.console.value == FormatLine(lg, level, message, file, line, timestamp) + "\n"
    ensures out.file.Some? ==> out.file.value == StripAnsi(FormatLine(lg, level, message, file, line, timestamp)) + "\n"
  {
    if !IsEnabledAsWritten(lg, level) then Output(None, None)
    else Emit(lg, level, message, file, line, timestamp)
  }

  /** `log` with the corrected filter: a line is emitted only for the
      configured level and anything more severe. */
  function LogCorrected(lg: Logger, level: LogLevel, message: string, file: string, line: nat, timestamp: string): (out: Output)
    requires line < 0x1_0000_0000
    ensures !IsEnabled(lg, level) ==> out == Output(None, None)
    ensures out.file.Some? ==> lg.toFile && out.console.Some?
    ensures out.console.Some? ==> IsEnabled(lg, level) && |out.console.value| <= BufferSize
    ensures out.console.Some? ==> out.console.value == FormatLine(lg, level, message, file, line, timestamp) + "\n"
    ensures out.file.Some? ==> out.file.value == StripAnsi(FormatLine(lg, level, message, file, line, timestamp)) + "\n"
  {
    if !IsEnabled(lg, level) then Output(None, None)
    else Emit(lg, level, message, file, line, timestamp)
  }

  /** On a new logger, an ERROR message is dropped as written while the
      corrected log emits it, and a TRACE message is emitted as written
      while the corrected log drops it. At the configured level the two
      logs agree. */
  lemma LogsDisagree(lg: Logger, name: string, message: string, file: string, line: nat, timestamp: string)
    requires line < 0x1_0000_0000
    ensures var n := NewLogger(name);
      && Log(n, Error, message, file, line, timestamp) == Output(None, None)
      && LogCorrected(n, Error, message, file, line, timestamp) == Emit(n, Error, message, file, line, timestamp)
      && Log(n, Trace, message, file, line, timestamp) == Emit(n, Trace, message, file, line, timestamp)
      && LogCorrected(n, Trace, message, file, line, timestamp) == Output(None, None)
    ensures Log(lg, lg.level, message, file, line, timestamp) == LogCorrected(lg, lg.level, message, file, line, timestamp)
  {
    AsWrittenDropsErrors(name);
    SeverityThreshold(NewLogger(name), Error, Error);
    SeverityThreshold(NewLogger(name), Trace, Trace);
    SeverityThreshold(lg, lg.level, lg.level);
  }

  /** The file receives exactly what the console shows with colours off,
      provided the timestamp, the logger's name, the message and the path
      carry no escape characters of their own. */
  lemma FileLineIsColourless(lg: Logger, level: LogLevel, message: string, file: string, line: nat, timestamp: string)
    requires line < 0x1_0000_0000
    requires Esc !in timestamp && Esc !in lg.name && Esc !in message && Esc !in file
    ensures var out := Log(lg, level, message, file, line, timestamp);
      out.file.Some? ==> out.file.value == FormatLine(lg.(useColors := false), level, message, file, line, timestamp) + "\n"
  {
    StripColoursOnly(lg, level, message, file, line, timestamp);
  }

  /** With colours off, the file receives the very line the console
      shows, provided the inputs carry no escape characters of their own. */
  lemma ColourlessCopiesAgree(lg: Logger, level: LogLevel, message: string, file: string, line: nat, timestamp: string)
    requires line < 0x1_0000_0000 && !lg.useColors
    requires Esc !in timestamp && Esc !in lg.name && Esc !in message && Esc !in file
    ensures var out := Log(lg, level, message, file, line, timestamp);
      out.file.Some? ==> out.file == out.console
  {
    StripColoursOnly(lg, level, message, file, line, timestamp);
    assert lg.(useColors := false) == lg;
  }

  /** A formatted line, stripped, is the line formatted without colours. */
  lemma StripColoursOnly(lg: Logger, level: LogLevel, message: string, file: string, line: nat, timestamp: string)
    requires line < 0x1_0000_0000
    requires Esc !in timestamp && Esc !in lg.name && Esc !in message && Esc !in file
    ensures StripAnsi(FormatLine(lg, level, message, file, line, timestamp))
         == FormatLine(lg.(useColors := false), level, message, file, line, timestamp)
  {
    FormatLineParts(lg, level, message, file, line, timestamp);
    StripFormatLine(lg, level, Trailer(lg.name, message, file, line), timestamp);
  }

  /** The pieces of a formatted line; without colours the colour and the
      reset code are empty. */
  lemma FormatLineParts(lg: Logger, level: LogLevel, message: string, file: string, line: nat, timestamp: string)
    requires line < 0x1_0000_0000
    ensures var tr := Trailer(lg.name, message, file, line);
      && FormatLine(lg, level, message, file, line, timestamp)
         == Stamp(timestamp) + (ColorFor(lg, level) + (LevelTag(level) + (ResetFor(lg) + tr)))
      && FormatLine(lg.(useColors := false), level, message, file, line, timestamp)
         == Stamp(timestamp) + (LevelTag(level) + tr)
  {
    var tr := Trailer(lg.name, message, file, line);
    assert "" + (LevelTag(level) + ("" + tr)) == LevelTag(level) + tr;
  }

  /** Stripping a formatted line removes the colour and the reset code and
      nothing else. */
  lemma StripFormatLine(lg: Logger, level: LogLevel, tr: string, timestamp: string)
    requires Esc !in timestamp && Esc !in tr
    ensures StripAnsi(Stamp(timestamp) + (ColorFor(lg, level) + (LevelTag(level) + (ResetFor(lg) + tr))))
         == Stamp(timestamp) + (LevelTag(level) + tr)
  {
    if ColorFor(lg, level) != "" {
      ColoursAreCodes(lg, level);
    }
    assert ResetFor(lg) == "" || ColourCode(ResetFor(lg));
    StripParts(Stamp(timestamp), ColorFor(lg, level), LevelTag(level), ResetFor(lg), tr);
  }

  /** Plain text with up to two colour codes interleaved loses just the
      codes. */
  lemma StripParts(st: string, col: string, lt: string, rst: string, tr: string)
    requires Esc !in st && Esc !in lt && Esc !in tr
    requires col == "" || ColourCode(col)
    requires rst == "" || ColourCode(rst)
    ensures StripAnsi(st + (col + (lt + (rst + tr)))) == st + (lt + tr)
  {
    var x1 := rst + tr;
    var x2 := lt + x1;
    var x3 := col + x2;
    StripNoEsc(tr);
    StripCodeOrNothing(rst, tr);
    assert StripAnsi(x1) == tr;
    StripAfterPlain(lt, x1);
    assert StripAnsi(x2) == lt + tr;
    StripCodeOrNothing(col, x2);
    assert StripAnsi(x3) == lt + tr;
    StripAfterPlain(st, x3);
  }

  lemma StripCodeOrNothing(c: string, t: string)
    requires c == "" || ColourCode(c)
    ensures StripAnsi(c + t) == StripAnsi(t)
  {
    if c == "" {
      assert c + t == t;
    } else {
      StripColourCode(c, t);
    }
  }

  /** Every colour `getColorForLevel` returns is a single colour code. */
  lemma ColoursAreCodes(lg: Logger, level: LogLevel)
    requires ColorFor(lg, level) != ""
    ensures ColourCode(ColorFor(lg, level))
  {
  }

  /** `LogStream`'s destructor forwards the streamed text: OFF goes to the
      two-argument `log`, every other level to the one with file and
      line. */
  datatype LogCall =
    | Located(level: LogLevel, message: string, file: string, line: nat)
    | Unlocated(level: LogLevel, message: string)

  function StreamFlush(level: LogLevel, text: string, file: string, line: nat): (c: LogCall)
    ensures c.level == level && c.message == text
    ensures c.Unlocated? <==> level == Off
    ensures c.Located? ==> c.file == file && c.line == line
  {
    if level != Off then Located(level, text, file, line) else Unlocated(level, text)
  }

  // The registry.

  datatype Manager = Manager(loggers: map<string, Logger>, globalLevel: LogLevel, globalFilePath: string, globalUseColors: bool)

  /** The manager's defaults: INFO, no file, colours on. */
  const DefaultManager: Manager := Manager(map[], Info, "", true)

  /** Each registered logger carries the name it is registered under. */
  predicate ValidManager(m: Manager) {
    forall k | k in m.loggers :: m.loggers[k].name == k
  }

  /** `getLogger(name)`: the registered logger, else a new one with the
      global level, file logging when a global path is set (and the file
      opens) and the global colour setting, registered under the name. */
  function GetLogger(m: Manager, name: string, fileOpens: bool): (res: (Manager, Logger))
    ensures res.1.name == name
    ensures res.0.globalLevel == m.globalLevel && res.0.globalUseColors == m.globalUseColors
    ensures res.0.globalFilePath == m.globalFilePath
    ensures name in res.0.loggers && res.0.loggers[name] == res.1
    ensures ValidManager(m) ==> ValidManager(res.0)
  {
    if name in m.loggers && m.loggers[name].name == name then (m, m.loggers[name])
    else if name in m.loggers then
      var lg := m.loggers[name].(name := name);
      (m.(loggers := m.loggers[name := lg]), lg)
    else
      var lg := Logger(name, m.globalLevel, m.globalUseColors, m.globalFilePath != [] && fileOpens);
      (m.(loggers := m.loggers[name := lg]), lg)
  }

  /** A known name returns its cached logger and changes nothing; an
      unknown one registers a logger with the global settings, which the
      next lookup returns as is. */
  lemma GetLoggerCaches(m: Manager, name: string, fileOpens: bool, again: bool)
    requires ValidManager(m)
    ensures name in m.loggers ==> GetLogger(m, name, fileOpens) == (m, m.loggers[name])
    ensures name !in m.loggers ==>
      var (m', lg) := GetLogger(m, name, fileOpens);
      && lg.level == m.globalLevel && lg.useColors == m.globalUseColors
      && (lg.toFile ==> m.globalFilePath != [])
      && m'.loggers == m.loggers[name := lg]
      && GetLogger(m', name, again) == (m', lg)
  {
  }

  /** `setGlobalLevel(level)`: the global level and every registered
      logger's level. */
  function SetGlobalLevel(m: Manager, level: LogLevel): (r: Manager)
    ensures r.globalLevel == level && r.loggers.Keys == m.loggers.Keys
    ensures forall k | k in r.loggers :: r.loggers[k] == m.loggers[k].(level := level)
    ensures r.globalUseColors == m.globalUseColors && r.globalFilePath == m.globalFilePath
  {
    m.(globalLevel := level, loggers := map k | k in m.loggers :: SetLevel(m.loggers[k], level))
  }

  /** `setUseColors(on)`: the global setting and every registered
      logger's. */
  function SetGlobalUseColors(m: Manager, on: bool): (r: Manager)
    ensures r.globalUseColors == on && r.loggers.Keys == m.loggers.Keys
    ensures forall k | k in r.loggers :: r.loggers[k] == m.loggers[k].(useColors := on)
    ensures r.globalLevel == m.globalLevel && r.globalFilePath == m.globalFilePath
  {
    m.(globalUseColors := on, loggers := map k | k in m.loggers :: SetUseColors(m.loggers[k], on))
  }

  /** After `setGlobalLevel`, every logger handed out, old or new, has
      that level. */
  lemma SetGlobalLevelReachesAll(m: Manager, level: LogLevel, name: string, fileOpens: bool)
    requires ValidManager(m)
    ensures ValidManager(SetGlobalLevel(m, level))
    ensures GetLogger(SetGlobalLevel(m, level), name, fileOpens).1.level == level
  {
  }

  /** From the defaults, the first logger of any name is a new logger with
      colours on and no file. */
  lemma DefaultManagerGivesNewLogger(name: string, fileOpens: bool)
    ensures GetLogger(DefaultManager, name, fileOpens).1 == NewLogger(name)
  {
  }
}
