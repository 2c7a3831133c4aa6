/** PrefixFormatter: the console formatter that writes a log entry as an
    optional timestamp and prefix, the coloured level, a `category[eventId]`
    header, the scopes and the message. The text writer is the list of the
    strings written to it, in order. */
module Logging {
  import opened Wrappers
  import opened Text
  import opened Paths

  datatype LogLevel = Trace | Debug | Information | Warning | Error | Critical
                    | Other(code: int) // `LogLevel.None` and values outside the enumeration

  datatype ConsoleColor =
    | Black | DarkBlue | DarkGreen | DarkCyan | DarkRed | DarkMagenta | DarkYellow | Gray
    | DarkGray | Blue | Green | Cyan | Red | Magenta | Yellow | White

  /** `LoggerColorBehavior`. */
  datatype ColorBehavior = Default | Enabled | Disabled

  /** `PrefixFormatterOptions`, with the fields it inherits. */
  datatype FormatterOptions = FormatterOptions(
    timestampFormat: Option<string>,
    useUtcTimestamp: bool,
    includeScopes: bool,
    prefix: Option<string>,
    colorBehavior: ColorBehavior,
    singleLine: bool)

  datatype ConsoleColors = ConsoleColors(foreground: Option<ConsoleColor>, background: Option<ConsoleColor>)

  type Int32 = x: int | -0x8000_0000 <= x < 0x8000_0000

  /** A `LogEntry`: its level, category and event id, the formatted message
      (none when the formatter gives `null`) and the text of its exception. */
  datatype LogEntry = LogEntry(level: LogLevel, category: string, eventId: Int32,
                               message: Option<string>, exception: Option<string>)

  const Escape: char := 27 as char

  /** An ANSI select-graphic-rendition sequence, `ESC [ n m`. */
  function Sgr(n: string): string
  {
    [Escape] + "[" + n + "m"
  }

  const LoglevelPadding := ": "
  const DefaultForegroundColor := Sgr("39") + Sgr("22")
  const DefaultBackgroundColor := Sgr("49")
  const Bold := Sgr("1")

  /** `GetLogLevelString`: none stands for the `ArgumentOutOfRangeException`. */
  function LogLevelString(level: LogLevel): (r: Option<string>)
    ensures r.Some? <==> !level.Other?
  {
    match level
    case Trace => Some("trce")
    case Debug => Some("dbug")
    case Information => Some("info")
    case Warning => Some("warn")
    case Error => Some("fail")
    case Critical => Some("crit")
    case Other(_) => None
  }

  function Spaces(n: nat): (r: string)
    ensures |r| == n && forall i | 0 <= i < n :: r[i] == ' '
  {
    seq(n, _ => ' ')
  }

  /** As wide as the level string of `Information` and `": "`. */
  const MessagePadding: string := Spaces(|LogLevelString(Information).value| + |LoglevelPadding|)

  /** Every level string is as wide as that of `Information`, so a padded line
      starts where the text after `"info: "` does; and the levels can be told
      apart by their strings. */
  lemma LevelStringsAlign(a: LogLevel, b: LogLevel)
    requires !a.Other? && !b.Other?
    ensures |LogLevelString(a).value| + |LoglevelPadding| == |MessagePadding| == 6
    ensures LogLevelString(a) == LogLevelString(b) ==> a == b
  {
  }

  function BackgroundColorEscapeCode(color: ConsoleColor): string
  {
    match color
    case Black => Sgr("40")
    case DarkRed => Sgr("41")
    case DarkGreen => Sgr("42")
    case DarkYellow => Sgr("43")
    case DarkBlue => Sgr("44")
    case DarkMagenta => Sgr("45")
    case DarkCyan => Sgr("46")
    case Gray => Sgr("47")
    case _ => DefaultBackgroundColor
  }

  function ForegroundColorEscapeCode(color: ConsoleColor): string
  {
    match color
    case Black => Sgr("30")
    case DarkRed => Sgr("31")
    case DarkGreen => Sgr("32")
    case DarkYellow => Sgr("33")
    case DarkBlue => Sgr("34")
    case DarkMagenta => Sgr("35")
    case DarkCyan => Sgr("36")
    case Gray => Sgr("37")
    case Red => Bold + Sgr("31")
    case Green => Bold + Sgr("32")
    case Yellow => Bold + Sgr("33")
    case Blue => Bold + Sgr("34")
    case Magenta => Bold + Sgr("35")
    case Cyan => Bold + Sgr("36")
    case White => Bold + Sgr("37")
    case _ => DefaultForegroundColor
  }

  /** A bright foreground is bold and the dark colour's code; the colours
      without a code of their own get the reset instead. */
  lemma ColorCodes()
    ensures ForegroundColorEscapeCode(Red) == Bold + ForegroundColorEscapeCode(DarkRed)
    ensures ForegroundColorEscapeCode(Green) == Bold + ForegroundColorEscapeCode(DarkGreen)
    ensures ForegroundColorEscapeCode(Yellow) == Bold + ForegroundColorEscapeCode(DarkYellow)
    ensures ForegroundColorEscapeCode(Blue) == Bold + ForegroundColorEscapeCode(DarkBlue)
    ensures ForegroundColorEscapeCode(Magenta) == Bold + ForegroundColorEscapeCode(DarkMagenta)
    ensures ForegroundColorEscapeCode(Cyan) == Bold + ForegroundColorEscapeCode(DarkCyan)
    ensures ForegroundColorEscapeCode(White) == Bold + ForegroundColorEscapeCode(Gray)
    ensures ForegroundColorEscapeCode(DarkGray) == DefaultForegroundColor
    ensures forall c | c in {DarkGray, Blue, Green, Cyan, Red, Magenta, Yellow, White} ::
              BackgroundColorEscapeCode(c) == DefaultBackgroundColor
  {
  }

  /** `GetLogLevelConsoleColors`: no colours unless colours are enabled, and
      a foreground never without a background. */
  function LogLevelConsoleColors(behavior: ColorBehavior, level: LogLevel): (r: ConsoleColors)
    ensures r.foreground.Some? <==> r.background.Some?
    ensures r.foreground.Some? <==> behavior.Enabled? && !level.Other?
  {
    if behavior == Disabled || behavior == Default then ConsoleColors(None, None)
    else
      match level
      case Trace => ConsoleColors(Some(Gray), Some(Black))
      case Debug => ConsoleColors(Some(Gray), Some(Black))
      case Information => ConsoleColors(Some(DarkGreen), Some(Black))
      case Warning => ConsoleColors(Some(Yellow), Some(Black))
      case Error => ConsoleColors(Some(Black), Some(DarkRed))
      case Critical => ConsoleColors(Some(White), Some(DarkRed))
      case Other(_) => ConsoleColors(None, None)
  }

  function Count(present: bool): nat
  {
    if present then 1 else 0
  }

  /** `WriteColoredMessage`: the background code, the foreground code, the
      text, the foreground reset and the background reset, each code and
      reset written when its colour is given. */
  function ColoredMessage(message: string, background: Option<ConsoleColor>, foreground: Option<ConsoleColor>): (r: seq<string>)
    ensures var n := Count(background.Some?) + Count(foreground.Some?);
            |r| == 2 * n + 1 && r[n] == message
    ensures background.Some? ==> r[0] == BackgroundColorEscapeCode(background.value) && r[|r| - 1] == DefaultBackgroundColor
    ensures foreground.Some? ==> r[Count(background.Some?)] == ForegroundColorEscapeCode(foreground.value)
                                 && r[|r| - 1 - Count(background.Some?)] == DefaultForegroundColor
  {
    (if background.Some? then [BackgroundColorEscapeCode(background.value)] else [])
    + (if foreground.Some? then [ForegroundColorEscapeCode(foreground.value)] else [])
    + [message]
    + (if foreground.Some? then [DefaultForegroundColor] else [])
    + (if background.Some? then [DefaultBackgroundColor] else [])
  }

  /** The event id as `TryFormat` writes it into ten characters: nothing when
      it needs more. */
  function EventIdText(id: Int32): string
  {
    var s := IntToString(id);
    if |s| <= 10 then s else ""
  }

  function Pow10(k: nat): nat
  {
    if k == 0 then 1 else 10 * Pow10(k - 1)
  }

  lemma {:induction false} DigitsFit(n: nat, k: nat)
    requires k >= 1
    ensures |NatToString(n)| <= k <==> n < Pow10(k)
    decreases n
  {
    NatToStringLength(n);
    if n >= 10 {
      if k >= 2 {
        DigitsFit(n / 10, k - 1);
      } else {
        assert Pow10(1) == 10;
        NatToStringLength(n / 10);
      }
    } else {
      Pow10Grows(k);
    }
  }

  lemma {:induction false} Pow10Grows(k: nat)
    requires k >= 1
    ensures Pow10(k) >= 10
  {
    if k > 1 {
      Pow10Grows(k - 1);
    }
  }

  /** The event id is written in full exactly when it is above -1000000000;
      below, it needs eleven characters and nothing is written. */
  lemma EventIdWritten(id: Int32)
    ensures EventIdText(id) == IntToString(id) <==> id > -1_000_000_000
    ensures id <= -1_000_000_000 ==> EventIdText(id) == ""
  {
    assert Pow10(9) == 1_000_000_000 && Pow10(10) == 10_000_000_000 by {
      assert Pow10(3) == 1000;
      assert Pow10(6) == 1_000_000;
    }
    var n: int := id;
    if n < 0 {
      DigitsFit(-n, 9);
    } else {
      DigitsFit(n, 10);
    }
    if id <= -1_000_000_000 {
      assert |IntToString(id)| > 10;
      assert IntToString(id) != [];
    }
  }

  /** `WriteMessage`: nothing for a missing or empty message; on a single
      line a space and the message with every newline made a space;
      otherwise the padding, the message with every newline followed by the
      padding, and a newline. */
  function MessagePieces(p: Platform, message: Option<string>, singleLine: bool): seq<string>
  {
    if message.None? || message.value == "" then []
    else if singleLine then [" ", Replace(message.value, NewLine(p), " ")]
    else [MessagePadding, Replace(message.value, NewLine(p), NewLine(p) + MessagePadding), NewLine(p)]
  }

  /** On Unix a single-line message holds no line feed. */
  lemma SingleLineMessageUnix(message: Option<string>)
    ensures NoLineFeed(MessagePieces(Unix, message, true))
  {
    if message.Some? && message.value != "" {
      ReplaceRemovesChar(message.value, '\n', " ");
    }
  }

  /** On Windows a single-line message holds no `\r\n`; a bare `\n` is kept. */
  lemma SingleLineMessageWindows(message: string)
    requires message != ""
    ensures !ContainsPair(MessagePieces(Windows, Some(message), true)[1], '\r', '\n')
    ensures MessagePieces(Windows, Some("a\nb"), true) == [" ", "a\nb"]
  {
    ReplaceRemovesPair(message, '\r', '\n', " ");
    assert Replace("b", "\r\n", " ") == "b";
    assert "a\nb"[..2] != "\r\n" && "a\nb"[1..] == "\nb" && "\nb"[..2] != "\r\n" && "\nb"[1..] == "b";
    assert Replace("\nb", "\r\n", " ") == "\nb";
    assert Replace("a\nb", "\r\n", " ") == ['a'] + Replace("\nb", "\r\n", " ");
    assert ['a'] + "\nb" == "a\nb";
    assert "a\nb" != "" && NewLine(Windows) == "\r\n";
    assert MessagePieces(Windows, Some("a\nb"), true) == [" ", Replace("a\nb", "\r\n", " ")];
  }

  /** A multi-line message is the padding, the padded text and a newline;
      taking the padding out of the padded text gives the message back. */
  lemma MultiLineMessage(p: Platform, message: string)
    requires message != ""
    ensures var pieces := MessagePieces(p, Some(message), false);
            |pieces| == 3 && pieces[0] == MessagePadding && pieces[2] == NewLine(p)
            && Replace(pieces[1], NewLine(p) + MessagePadding, NewLine(p)) == message
  {
    ReplaceUndo(message, NewLine(p), MessagePadding);
  }

  /** One scope as the `ForEachScope` callback writes it. */
  function ScopeItem(padded: bool, scope: string): seq<string>
  {
    if padded then [MessagePadding, "=> ", scope] else [" => ", scope]
  }

  /** The callback over the scopes: only the first of a multi-line entry is
      padded. */
  function Scopes(scopes: seq<string>, singleLine: bool): seq<string>
    decreases |scopes|
  {
    if scopes == [] then []
    else
      var n := |scopes| - 1;
      Scopes(scopes[..n], singleLine) + ScopeItem(n == 0 && !singleLine, scopes[n])
  }

  /** Every scope is written after an arrow, the first of a multi-line entry
      also after the padding. */
  lemma {:induction false} ScopesShape(scopes: seq<string>, singleLine: bool)
    ensures |Scopes(scopes, singleLine)| == 2 * |scopes| + Count(scopes != [] && !singleLine)
    ensures scopes != [] ==> Scopes(scopes, singleLine)[|Scopes(scopes, singleLine)| - 1] == scopes[|scopes| - 1]
    ensures scopes != [] && !singleLine ==> Scopes(scopes, singleLine)[..2] == [MessagePadding, "=> "]
    decreases |scopes|
  {
    if scopes != [] {
      var n := |scopes| - 1;
      ScopesShape(scopes[..n], singleLine);
    }
  }

  /** `WriteScopeInformation`, with `scopes` the scopes the provider holds
      (none without a provider). */
  function ScopeInformation(p: Platform, includeScopes: bool, scopes: Option<seq<string>>, singleLine: bool): seq<string>
  {
    if includeScopes && scopes.Some? then
      Scopes(scopes.value, singleLine) + (if scopes.value != [] && !singleLine then [NewLine(p)] else [])
    else []
  }

  /** The start of `CreateDefaultLogMessage`: `": category[id]"` and a
      newline unless on a single line. */
  function Header(p: Platform, singleLine: bool, category: string, eventId: Int32): seq<string>
  {
    [LoglevelPadding, category, "["] + EventIdPieces(eventId) + ["]"] + LineBreak(p, !singleLine)
  }

  /** The event id, when it was written at all. */
  function EventIdPieces(eventId: Int32): seq<string>
  {
    if EventIdText(eventId) != "" then [EventIdText(eventId)] else []
  }

  /** A newline when `written`. */
  function LineBreak(p: Platform, written: bool): seq<string>
  {
    if written then [NewLine(p)] else []
  }

  /** `CreateDefaultLogMessage`: the header, the scopes, the message, the
      exception, and a final newline on a single line. */
  function DefaultLogMessage(p: Platform, options: FormatterOptions, entry: LogEntry, scopes: Option<seq<string>>): seq<string>
  {
    var singleLine := options.singleLine;
    Header(p, singleLine, entry.category, entry.eventId)
    + ScopeInformation(p, options.includeScopes, scopes, singleLine)
    + MessagePieces(p, entry.message, singleLine)
    + (if entry.exception.Some? then MessagePieces(p, entry.exception, singleLine) else [])
    + (if singleLine then [NewLine(p)] else [])
  }

  /** The timestamp and the prefix written before the level. */
  function Lead(options: FormatterOptions, formatNow: (bool, string) -> string): seq<string>
  {
    (if options.timestampFormat.Some? then [formatNow(options.useUtcTimestamp, options.timestampFormat.value)] else [])
    + (if options.prefix.Some? && options.prefix.value != "" then [options.prefix.value] else [])
  }

  /** What `Write` writes for an entry, or none when it throws for a level
      outside the table. `formatNow(utc, format)` is the current time
      formatted. */
  function LogPieces(p: Platform, options: FormatterOptions, entry: LogEntry, scopes: Option<seq<string>>,
                     formatNow: (bool, string) -> string): (r: Option<seq<string>>)
    ensures entry.message.None? && entry.exception.None? ==> r == Some([])
    ensures r.None? <==> (entry.message.Some? || entry.exception.Some?) && entry.level.Other?
  {
    if entry.exception.None? && entry.message.None? then Some([])
    else
      var colors := LogLevelConsoleColors(options.colorBehavior, entry.level);
      match LogLevelString(entry.level)
      case None => None
      case Some(level) =>
        Some(Lead(options, formatNow)
             + ColoredMessage(level, colors.background, colors.foreground)
             + DefaultLogMessage(p, options, entry, scopes))
  }

  /** The text of the strings written, in order. */
  function Concat(pieces: seq<string>): string
  {
    if pieces == [] then "" else pieces[0] + Concat(pieces[1..])
  }

  lemma {:induction false} ConcatAppend(a: seq<string>, b: seq<string>)
    ensures Concat(a + b) == Concat(a) + Concat(b)
    decreases |a|
  {
    if a != [] {
      assert (a + b)[0] == a[0] && (a + b)[1..] == a[1..] + b;
      ConcatAppend(a[1..], b);
      calc {
        Concat(a + b);
        a[0] + Concat(a[1..] + b);
        a[0] + (Concat(a[1..]) + Concat(b));
        a[0] + Concat(a[1..]) + Concat(b);
      }
    } else {
      assert a + b == b;
    }
  }

  lemma {:induction false} ConcatWithout(pieces: seq<string>, c: char)
    requires forall i | 0 <= i < |pieces| :: c !in pieces[i]
    ensures c !in Concat(pieces)
    decreases |pieces|
  {
    if pieces != [] {
      ConcatWithout(pieces[1..], c);
    }
  }

  predicate NoLineFeed(pieces: seq<string>)
  {
    forall i | 0 <= i < |pieces| :: '\n' !in pieces[i]
  }

  /** On Unix a single-line entry is one line: its text is a line without a
      line feed and a line feed, as long as the timestamp, the prefix, the
      category and the scopes hold none. */
  lemma SingleLineEntryUnix(options: FormatterOptions, entry: LogEntry, scopes: Option<seq<string>>,
                            formatNow: (bool, string) -> string)
    requires options.singleLine && !entry.level.Other? && (entry.message.Some? || entry.exception.Some?)
    requires NoLineFeed(Lead(options, formatNow))
    requires '\n' !in entry.category
    requires scopes.Some? ==> NoLineFeed(scopes.value)
    ensures var pieces := LogPieces(Unix, options, entry, scopes, formatNow).value;
            exists line :: Concat(pieces) == line + "\n" && '\n' !in line
  {
    var pieces := LogPieces(Unix, options, entry, scopes, formatNow).value;
    var colors := LogLevelConsoleColors(options.colorBehavior, entry.level);
    var colored := ColoredMessage(LogLevelString(entry.level).value, colors.background, colors.foreground);
    var header := Header(Unix, true, entry.category, entry.eventId);
    var scopeInfo := ScopeInformation(Unix, options.includeScopes, scopes, true);
    var message := MessagePieces(Unix, entry.message, true);
    var exception := if entry.exception.Some? then MessagePieces(Unix, entry.exception, true) else [];
    var head := Lead(options, formatNow) + colored;
    var tail := header + scopeInfo + message + exception;
    assert pieces == head + (tail + ["\n"]);
    var body := head + tail;
    SeqAssoc4(head, tail, ["\n"], []);
    assert pieces == body + ["\n"];
    ColoredNoLineFeed(entry.level, colors);
    HeaderNoLineFeed(entry.category, entry.eventId);
    if scopes.Some? && options.includeScopes {
      ScopesWithout(scopes.value);
    }
    assert NoLineFeed(scopeInfo);
    SingleLineMessageUnix(entry.message);
    SingleLineMessageUnix(entry.exception);
    NoLineFeedAppend(Lead(options, formatNow), colored);
    NoLineFeedAppend(header, scopeInfo);
    NoLineFeedAppend(header + scopeInfo, message);
    NoLineFeedAppend(header + scopeInfo + message, exception);
    NoLineFeedAppend(head, tail);
    ConcatWithout(body, '\n');
    ConcatAppend(body, ["\n"]);
    assert Concat(["\n"]) == "\n";
  }

  lemma NoLineFeedAppend(a: seq<string>, b: seq<string>)
    requires NoLineFeed(a) && NoLineFeed(b)
    ensures NoLineFeed(a + b)
  {
    forall i | 0 <= i < |a + b| ensures '\n' !in (a + b)[i] {
      if i < |a| {
        assert (a + b)[i] == a[i];
      } else {
        assert (a + b)[i] == b[i - |a|];
      }
    }
  }

  lemma HeaderNoLineFeed(category: string, eventId: Int32)
    requires '\n' !in category
    ensures NoLineFeed(Header(Unix, true, category, eventId))
  {
    NoLineFeedInId(eventId);
  }

  lemma SgrNoLineFeed(n: string)
    requires '\n' !in n
    ensures '\n' !in Sgr(n)
  {
    assert Sgr(n) == [Escape, '['] + n + ['m'];
  }

  lemma EscapeCodesNoLineFeed(c: ConsoleColor)
    ensures '\n' !in BackgroundColorEscapeCode(c) && '\n' !in ForegroundColorEscapeCode(c)
    ensures '\n' !in DefaultForegroundColor && '\n' !in DefaultBackgroundColor
  {
    SgrNoLineFeed("1");
    SgrNoLineFeed("22");
    SgrNoLineFeed("39");
    SgrNoLineFeed("49");
    SgrNoLineFeed("30");
    SgrNoLineFeed("31");
    SgrNoLineFeed("32");
    SgrNoLineFeed("33");
    SgrNoLineFeed("34");
    SgrNoLineFeed("35");
    SgrNoLineFeed("36");
    SgrNoLineFeed("37");
    SgrNoLineFeed("40");
    SgrNoLineFeed("41");
    SgrNoLineFeed("42");
    SgrNoLineFeed("43");
    SgrNoLineFeed("44");
    SgrNoLineFeed("45");
    SgrNoLineFeed("46");
    SgrNoLineFeed("47");
  }

  lemma ColoredNoLineFeed(level: LogLevel, colors: ConsoleColors)
    requires !level.Other?
    ensures NoLineFeed(ColoredMessage(LogLevelString(level).value, colors.background, colors.foreground))
  {
    var background := colors.background;
    var foreground := colors.foreground;
    EscapeCodesNoLineFeed(Black);
    var bgCode := if background.Some? then [BackgroundColorEscapeCode(background.value)] else [];
    var fgCode := if foreground.Some? then [ForegroundColorEscapeCode(foreground.value)] else [];
    var fgReset := if foreground.Some? then [DefaultForegroundColor] else [];
    var bgReset := if background.Some? then [DefaultBackgroundColor] else [];
    if background.Some? {
      EscapeCodesNoLineFeed(background.value);
    }
    if foreground.Some? {
      EscapeCodesNoLineFeed(foreground.value);
    }
    assert NoLineFeed([LogLevelString(level).value]);
    NoLineFeedAppend(bgCode, fgCode);
    NoLineFeedAppend(bgCode + fgCode, [LogLevelString(level).value]);
    NoLineFeedAppend(bgCode + fgCode + [LogLevelString(level).value], fgReset);
    NoLineFeedAppend(bgCode + fgCode + [LogLevelString(level).value] + fgReset, bgReset);
  }

  lemma NoLineFeedInId(id: Int32)
    ensures '\n' !in EventIdText(id)
  {
    var s := IntToString(id);
    var n: int := id;
    if n >= 0 {
      assert s == NatToString(n);
    } else {
      assert s == "-" + NatToString(-n);
      assert forall i | 1 <= i < |s| :: s[i] == NatToString(-n)[i - 1];
    }
  }

  lemma {:induction false} ScopesWithout(scopes: seq<string>)
    requires NoLineFeed(scopes)
    ensures NoLineFeed(Scopes(scopes, true))
    decreases |scopes|
  {
    if scopes != [] {
      var n := |scopes| - 1;
      assert forall i | 0 <= i < n :: scopes[..n][i] == scopes[i];
      ScopesWithout(scopes[..n]);
    }
  }

  lemma ScopesSnoc(scopes: seq<string>, i: nat, singleLine: bool)
    requires i < |scopes|
    ensures Scopes(scopes[..i + 1], singleLine) == Scopes(scopes[..i], singleLine) + ScopeItem(i == 0 && !singleLine, scopes[i])
  {
    assert scopes[..i + 1][..i] == scopes[..i];
  }

  lemma SeqAssoc3(a: seq<string>, b: seq<string>, c: seq<string>)
    ensures a + b + c == a + (b + c)
  {
  }

  lemma SeqAssoc4(a: seq<string>, b: seq<string>, c: seq<string>, d: seq<string>)
    ensures a + b + c + d == a + (b + c + d)
  {
  }

  lemma SeqAssoc5(a: seq<string>, b: seq<string>, c: seq<string>, d: seq<string>, e: seq<string>, f: seq<string>)
    ensures a + b + c + d + e + f == a + (b + c + d + e + f)
  {
  }

  /** A `TextWriter`: the strings written to it, in order. */
  class TextWriter {
    var written: seq<string>

    constructor ()
      ensures written == []
    {
      written := [];
    }

    method Write(s: string)
      modifies this
      ensures written == old(written) + [s]
    {
      written := written + [s];
    }
  }

  class PrefixFormatter {
    /** `FormatterOptions`, replaced whenever the options change. */
    var options: FormatterOptions

    constructor (options: FormatterOptions)
      ensures this.options == options
    {
      this.options := options;
    }

    method ReloadLoggerOptions(options: FormatterOptions)
      modifies this
      ensures this.options == options
    {
      this.options := options;
    }

    /** `Write`: nothing without a writer; otherwise what LogPieces gives,
        or nothing and `thrown` for a level outside the table. */
    method Write(p: Platform, entry: LogEntry, scopes: Option<seq<string>>, formatNow: (bool, string) -> string,
                 writer: TextWriter?) returns (thrown: bool)
      modifies writer
      ensures writer == null ==> !thrown
      ensures writer != null ==>
                var pieces := LogPieces(p, options, entry, scopes, formatNow);
                (thrown <==> pieces.None?) && writer.written == old(writer.written) + (if pieces.Some? then pieces.value else [])
    {
      if writer == null {
        return false;
      }
      if entry.exception.None? && entry.message.None? {
        return false;
      }
      var colors := LogLevelConsoleColors(options.colorBehavior, entry.level);
      var level := LogLevelString(entry.level);
      if level.None? {
        return true;
      }
      ghost var lead := Lead(options, formatNow);
      ghost var colored := ColoredMessage(level.value, colors.background, colors.foreground);
      ghost var rest := DefaultLogMessage(p, options, entry, scopes);
      assert LogPieces(p, options, entry, scopes, formatNow) == Some(lead + colored + rest);
      ghost var w0 := writer.written;
      WriteLead(writer, formatNow);
      ghost var w1 := writer.written;
      WriteColoredMessage(writer, level.value, colors.background, colors.foreground);
      ghost var w2 := writer.written;
      CreateDefaultLogMessage(p, writer, entry, scopes);
      assert writer.written == w2 + rest && w2 == w1 + colored && w1 == w0 + lead;
      SeqAssoc4(w0, lead, colored, rest);
      return false;
    }

    method WriteLead(writer: TextWriter, formatNow: (bool, string) -> string)
      modifies writer
      ensures writer.written == old(writer.written) + Lead(options, formatNow)
    {
      if options.timestampFormat.Some? {
        writer.Write(formatNow(options.useUtcTimestamp, options.timestampFormat.value));
      }
      if options.prefix.Some? && options.prefix.value != "" {
        writer.Write(options.prefix.value);
      }
    }

    static method WriteColoredMessage(writer: TextWriter, message: string,
                                      background: Option<ConsoleColor>, foreground: Option<ConsoleColor>)
      modifies writer
      ensures writer.written == old(writer.written) + ColoredMessage(message, background, foreground)
    {
      if background.Some? {
        writer.Write(BackgroundColorEscapeCode(background.value));
      }
      if foreground.Some? {
        writer.Write(ForegroundColorEscapeCode(foreground.value));
      }
      writer.Write(message);
      if foreground.Some? {
        writer.Write(DefaultForegroundColor);
      }
      if background.Some? {
        writer.Write(DefaultBackgroundColor);
      }
    }

    method CreateDefaultLogMessage(p: Platform, writer: TextWriter, entry: LogEntry, scopes: Option<seq<string>>)
      modifies writer
      ensures writer.written == old(writer.written) + DefaultLogMessage(p, options, entry, scopes)
    {
      var singleLine := options.singleLine;
      ghost var header := Header(p, singleLine, entry.category, entry.eventId);
      ghost var scopeInfo := ScopeInformation(p, options.includeScopes, scopes, singleLine);
      ghost var message := MessagePieces(p, entry.message, singleLine);
      ghost var exception := if entry.exception.Some? then MessagePieces(p, entry.exception, singleLine) else [];
      ghost var last := if singleLine then [NewLine(p)] else [];
      assert DefaultLogMessage(p, options, entry, scopes) == header + scopeInfo + message + exception + last;
      ghost var w0 := writer.written;
      WriteHeader(p, writer, singleLine, entry.category, entry.eventId);
      ghost var w1 := writer.written;
      WriteScopeInformation(p, writer, scopes, singleLine);
      ghost var w2 := writer.written;
      WriteMessage(p, writer, entry.message, singleLine);
      ghost var w3 := writer.written;
      if entry.exception.Some? {
        WriteMessage(p, writer, entry.exception, singleLine);
      }
      ghost var w4 := writer.written;
      if singleLine {
        writer.Write(NewLine(p));
      }
      assert w1 == w0 + header && w2 == w1 + scopeInfo && w3 == w2 + message && w4 == w3 + exception;
      assert writer.written == w4 + last;
      calc {
        writer.written;
        w0 + header + scopeInfo + message + exception + last;
        { SeqAssoc5(w0, header, scopeInfo, message, exception, last); }
        w0 + (header + scopeInfo + message + exception + last);
      }
    }

    static method WriteHeader(p: Platform, writer: TextWriter, singleLine: bool, category: string, eventId: Int32)
      modifies writer
      ensures writer.written == old(writer.written) + Header(p, singleLine, category, eventId)
    {
      ghost var w0 := writer.written;
      writer.Write(LoglevelPadding);
      writer.Write(category);
      writer.Write("[");
      ghost var w1 := writer.written;
      var id := IntToString(eventId);
      if |id| <= 10 {
        writer.Write(id);
      }
      ghost var w2 := writer.written;
      writer.Write("]");
      ghost var w3 := writer.written;
      if !singleLine {
        writer.Write(NewLine(p));
      }
      assert w1 == w0 + [LoglevelPadding, category, "["];
      assert w2 == w1 + EventIdPieces(eventId);
      assert writer.written == w3 + LineBreak(p, !singleLine);
      SeqAssoc5(w0, [LoglevelPadding, category, "["], EventIdPieces(eventId), ["]"], LineBreak(p, !singleLine), []);
    }

    static method WriteMessage(p: Platform, writer: TextWriter, message: Option<string>, singleLine: bool)
      modifies writer
      ensures writer.written == old(writer.written) + MessagePieces(p, message, singleLine)
    {
      if message.Some? && message.value != "" {
        if singleLine {
          writer.Write(" ");
          writer.Write(Replace(message.value, NewLine(p), " "));
        } else {
          writer.Write(MessagePadding);
          writer.Write(Replace(message.value, NewLine(p), NewLine(p) + MessagePadding));
          writer.Write(NewLine(p));
        }
      }
    }

    method WriteScopeInformation(p: Platform, writer: TextWriter, scopes: Option<seq<string>>, singleLine: bool)
      modifies writer
      ensures writer.written == old(writer.written) + ScopeInformation(p, options.includeScopes, scopes, singleLine)
    {
      if options.includeScopes && scopes.Some? {
        ghost var w0 := writer.written;
        WriteScopes(writer, scopes.value, singleLine);
        ghost var w1 := writer.written;
        if scopes.value != [] && !singleLine {
          writer.Write(NewLine(p));
        }
        SeqAssoc4(w0, Scopes(scopes.value, singleLine), if scopes.value != [] && !singleLine then [NewLine(p)] else [], []);
      }
    }

    /** The `ForEachScope` callback over the scopes, one at a time. */
    static method WriteScopes(writer: TextWriter, scopes: seq<string>, singleLine: bool)
      modifies writer
      ensures writer.written == old(writer.written) + Scopes(scopes, singleLine)
    {
      ghost var w0 := writer.written;
      var paddingNeeded := !singleLine;
      var i := 0;
      while i < |scopes|
        invariant 0 <= i <= |scopes|
        invariant paddingNeeded == (!singleLine && i == 0)
        invariant writer.written == w0 + Scopes(scopes[..i], singleLine)
      {
        ScopesSnoc(scopes, i, singleLine);
        WriteScope(writer, paddingNeeded, scopes[i]);
        SeqAssoc3(w0, Scopes(scopes[..i], singleLine), ScopeItem(paddingNeeded, scopes[i]));
        paddingNeeded := false;
        i := i + 1;
      }
      assert scopes[..i] == scopes;
    }

    /** One call of the `ForEachScope` callback. */
    static method WriteScope(writer: TextWriter, padded: bool, scope: string)
      modifies writer
      ensures writer.written == old(writer.written) + ScopeItem(padded, scope)
    {
      if padded {
        writer.Write(MessagePadding);
        writer.Write("=> ");
      } else {
        writer.Write(" => ");
      }
      writer.Write(scope);
    }
  }
}
