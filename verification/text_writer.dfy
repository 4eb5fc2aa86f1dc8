/**
  The logger's text writer (`TextWriter` in text_writer.go): it renders one
  event into one newline-terminated line and hands that line to a sink in a
  single write. The colour codes, the colour catalogue, time formatting and
  the sinks are not defined in this file of the logger, so they enter the
  model as the `Externals` record and as the `deliver` function of a write.
 */
module TextWriters {
  import opened GoStrings
  import opened FlagSets

  /** A colour as the logger names it; only its emptiness matters here. */
  type AnsiColor = string

  /** An instant; what text it becomes is up to `Externals.formatTime`. */
  datatype Time = Time(unixNanos: int)

  /** Go's `time.RFC3339` layout, the default time format. */
  const RFC3339: string := "2006-01-02T15:04:05Z07:00"

  const DefaultTextTimeFormat: string := RFC3339
  const DefaultTextWriterUseColor: bool := true
  const DefaultTextWriterShowTimestamp: bool := true
  const DefaultTextWriterShowLabel: bool := true

  /** The primitives the writer calls but does not define: `AnsiColor.Apply`,
      the package-level status-code colourisers, `GetFlagTextColor`,
      `time.Time.Format`, and the two palette entries it names. */
  datatype Externals = Externals(
    apply: (AnsiColor, string) -> string,
    colorizeStatusCode: int -> string,
    colorizeByStatusCode: (int, string) -> string,
    getFlagTextColor: Flag -> AnsiColor,
    formatTime: (Time, string) -> string,
    colorBlue: AnsiColor,
    colorGray: AnsiColor)

  /** An output stream, identified only by which one it is. */
  datatype Sink = Sink(id: nat)

  /** The writer's configuration. The buffer pool is left out: a buffer is
      leased and returned around every write and never observed. */
  datatype TextWriter = TextWriter(
    output: Sink,
    errorOutput: Option<Sink>,
    showTimestamp: bool,
    showLabel: bool,
    useColor: bool,
    timeFormat: string,
    labelText: string)

  /** What an event's `WriteText` is given: the `TextFormatter` face of the
      writer, which is its colour switch and the primitives behind it. */
  datatype TextFormatter = TextFormatter(useColor: bool, ext: Externals)

  /** An event, with the optional capabilities it may implement:
      `FlagTextColorProvider`, `TextWritable` (the text it appends, given the
      formatter) and `fmt.Stringer`. */
  datatype Event = Event(
    flag: Flag,
    timestamp: Time,
    flagTextColor: Option<AnsiColor>,
    writeText: Option<TextFormatter -> string>,
    stringer: Option<string>)

  /** The one write of a rendered line: the sink it went to, the bytes, and
      the error the sink reported, if any. */
  datatype Flush = Flush(sink: Sink, data: string, err: Option<string>)

  // ---------------------------------------------------------------------------
  // Construction and outputs
  // ---------------------------------------------------------------------------

  /** `NewTextWriter`: the defaults, with no separate error output. */
  function NewTextWriter(output: Sink): (wr: TextWriter)
    ensures wr.output == output && wr.errorOutput == None
    ensures wr.showTimestamp && wr.showLabel && wr.useColor
    ensures wr.timeFormat == RFC3339 && wr.labelText == ""
  {
    TextWriter(output, None, DefaultTextWriterShowTimestamp, DefaultTextWriterShowLabel,
               DefaultTextWriterUseColor, DefaultTextTimeFormat, "")
  }

  /** `ErrorOutput`: the error sink when one is set, the primary one otherwise. */
  function ErrorOutput(wr: TextWriter): (s: Sink)
    ensures wr.errorOutput.Some? ==> s == wr.errorOutput.value
    ensures wr.errorOutput.None? ==> s == wr.output
  {
    match wr.errorOutput
    case Some(e) => e
    case None => wr.output
  }

  /** The formatter a writer passes to `WriteText`. */
  function Formatter(wr: TextWriter, ext: Externals): (tf: TextFormatter)
    ensures tf.useColor == wr.useColor && tf.ext == ext
  {
    TextFormatter(wr.useColor, ext)
  }

  // ---------------------------------------------------------------------------
  // The TextFormatter operations
  // ---------------------------------------------------------------------------

  /** `Colorize`: applies the colour only when colour is on. */
  function Colorize(tf: TextFormatter, value: string, color: AnsiColor): (r: string)
    ensures !tf.useColor ==> r == value
    ensures tf.useColor ==> r == tf.ext.apply(color, value)
  {
    if tf.useColor then tf.ext.apply(color, value) else value
  }

  /** `ColorizeStatusCode`: with colour off, the plain decimal numeral of the
      code, which reads back as the code. */
  function ColorizeStatusCode(tf: TextFormatter, code: int): (r: string)
    ensures tf.useColor ==> r == tf.ext.colorizeStatusCode(code)
    ensures !tf.useColor ==>
      && |r| >= 1
      && (r[0] == '-' <==> code < 0)
      && (code < 0 ==> IsNumeral(r[1..]))
      && (code >= 0 ==> IsNumeral(r))
      && ParseInt(r) == code
  {
    ItoaRoundTrip(code);
    if tf.useColor then tf.ext.colorizeStatusCode(code) else Itoa(code)
  }

  /** `ColorizeByStatusCode`: the value itself when colour is off. */
  function ColorizeByStatusCode(tf: TextFormatter, code: int, value: string): (r: string)
    ensures !tf.useColor ==> r == value
    ensures tf.useColor ==> r == tf.ext.colorizeByStatusCode(code, value)
  {
    if tf.useColor then tf.ext.colorizeByStatusCode(code, value) else value
  }

  /** With colour off every formatter operation passes its value through. */
  lemma PlainFormatterPassesThrough(tf: TextFormatter, value: string, color: AnsiColor, code: int)
    requires !tf.useColor
    ensures Colorize(tf, value, color) == value
    ensures ColorizeByStatusCode(tf, code, value) == value
    ensures ColorizeStatusCode(tf, code) == Itoa(code)
    ensures ParseInt(ColorizeStatusCode(tf, code)) == code
  {
  }

  // ---------------------------------------------------------------------------
  // Segments
  // ---------------------------------------------------------------------------

  /** Wraps a segment in square brackets. */
  function Bracketed(s: string): (r: string)
    ensures |r| == |s| + 2 && r[0] == '[' && r[|r| - 1] == ']' && r[1..|r| - 1] == s
  {
    "[" + s + "]"
  }

  /** `FormatFlag`: the flag, coloured, in brackets. */
  function FormatFlag(wr: TextWriter, ext: Externals, flag: Flag, color: AnsiColor): (r: string)
    ensures !wr.useColor ==> r == "[" + flag + "]"
    ensures wr.useColor ==> r == "[" + ext.apply(color, flag) + "]"
  {
    Bracketed(Colorize(Formatter(wr, ext), flag, color))
  }

  /** `FormatLabel`: the label, in blue, in brackets. */
  function FormatLabel(wr: TextWriter, ext: Externals): (r: string)
    ensures !wr.useColor ==> r == "[" + wr.labelText + "]"
    ensures wr.useColor ==> r == "[" + ext.apply(ext.colorBlue, wr.labelText) + "]"
  {
    Bracketed(Colorize(Formatter(wr, ext), wr.labelText, ext.colorBlue))
  }

  /** The layout `FormatTimestamp` uses: the configured one when it is not
      empty, RFC 3339 otherwise. Never empty. */
  function TimeFormat(wr: TextWriter): (f: string)
    ensures |f| > 0
    ensures |wr.timeFormat| > 0 ==> f == wr.timeFormat
    ensures |wr.timeFormat| == 0 ==> f == RFC3339
  {
    if |wr.timeFormat| > 0 then wr.timeFormat else DefaultTextTimeFormat
  }

  /** `FormatTimestamp(optionalTime...)`: the first supplied time, or `now`
      (the caller's `time.Now().UTC()`) when none is supplied, formatted with
      the writer's layout and coloured gray. */
  function FormatTimestamp(wr: TextWriter, ext: Externals, optionalTime: seq<Time>, now: Time): (r: string)
    ensures var t := if |optionalTime| > 0 then optionalTime[0] else now;
      && (!wr.useColor ==> r == ext.formatTime(t, TimeFormat(wr)))
      && (wr.useColor ==> r == ext.apply(ext.colorGray, ext.formatTime(t, TimeFormat(wr))))
  {
    if |optionalTime| > 0 then
      Colorize(Formatter(wr, ext), ext.formatTime(optionalTime[0], TimeFormat(wr)), ext.colorGray)
    else
      Colorize(Formatter(wr, ext), ext.formatTime(now, TimeFormat(wr)), ext.colorGray)
  }

  /** The colour of the flag segment: the event's own colour when it provides
      a non-empty one, the global lookup for the flag otherwise. */
  function FlagColor(ext: Externals, e: Event): (c: AnsiColor)
    ensures e.flagTextColor.Some? && |e.flagTextColor.value| > 0 ==> c == e.flagTextColor.value
    ensures e.flagTextColor.None? || |e.flagTextColor.value| == 0 ==> c == ext.getFlagTextColor(e.flag)
  {
    match e.flagTextColor
    case Some(c) => if |c| > 0 then c else ext.getFlagTextColor(e.flag)
    case None => ext.getFlagTextColor(e.flag)
  }

  /** The body: `WriteText`'s text when the event is `TextWritable`, else its
      `String()` when it is a `Stringer`, else nothing. */
  function BodyText(tf: TextFormatter, e: Event): (b: string)
    ensures e.writeText.Some? ==> b == e.writeText.value(tf)
    ensures e.writeText.None? && e.stringer.Some? ==> b == e.stringer.value
    ensures e.writeText.None? && e.stringer.None? ==> b == ""
  {
    match e.writeText
    case Some(w) => w(tf)
    case None =>
      match e.stringer
      case Some(s) => s
      case None => ""
  }

  /** Whether the label segment is written: shown and not empty. */
  predicate LabelShown(wr: TextWriter)
  {
    wr.showLabel && |wr.labelText| > 0
  }

  function TimestampSegment(wr: TextWriter, ext: Externals, e: Event): string
  {
    if wr.showTimestamp then FormatTimestamp(wr, ext, [e.timestamp], e.timestamp) + " " else ""
  }

  function LabelSegment(wr: TextWriter, ext: Externals): string
  {
    if LabelShown(wr) then FormatLabel(wr, ext) + " " else ""
  }

  function FlagSegment(wr: TextWriter, ext: Externals, e: Event): string
  {
    FormatFlag(wr, ext, e.flag, FlagColor(ext, e)) + " "
  }

  // ---------------------------------------------------------------------------
  // The line
  // ---------------------------------------------------------------------------

  /** What precedes the flag segment: the timestamp and label segments, each
      present or absent on its own switch. */
  function Head(wr: TextWriter, ext: Externals, e: Event): string
  {
    TimestampSegment(wr, ext, e) + LabelSegment(wr, ext)
  }

  /** The flag segment, the body and the newline `write` appends. */
  function Tail(wr: TextWriter, ext: Externals, e: Event): string
  {
    FlagSegment(wr, ext, e) + BodyText(Formatter(wr, ext), e) + "\n"
  }

  /** The buffer `write` fills: timestamp, label, flag, body, then one newline. */
  function Render(wr: TextWriter, ext: Externals, e: Event): (line: string)
    ensures |line| >= 4 && line[|line| - 1] == '\n'
  {
    Head(wr, ext, e) + Tail(wr, ext, e)
  }

  /** The line always ends in the bracketed flag, a space, the body and a
      newline. */
  lemma RenderEndsWithTail(wr: TextWriter, ext: Externals, e: Event)
    ensures var line, tail := Render(wr, ext, e), Tail(wr, ext, e);
      && |tail| <= |line| && line[|line| - |tail|..] == tail
      && tail[0] == '[' && tail[|tail| - 1] == '\n'
  {
    var head, tail := Head(wr, ext, e), Tail(wr, ext, e);
    assert (head + tail)[|head + tail| - |tail|..] == tail;
  }

  /** The line opens with the timestamp when timestamps are shown, with the
      label when only the label is, and is the tail alone when neither is. */
  lemma RenderOpening(wr: TextWriter, ext: Externals, e: Event)
    ensures wr.showTimestamp ==> FormatTimestamp(wr, ext, [e.timestamp], e.timestamp) + " " <= Render(wr, ext, e)
    ensures !wr.showTimestamp && LabelShown(wr) ==> FormatLabel(wr, ext) + " " <= Render(wr, ext, e)
    ensures !wr.showTimestamp && !LabelShown(wr) ==> Render(wr, ext, e) == Tail(wr, ext, e)
  {
  }

  /** The timestamp segment and its space are there exactly when timestamps
      are shown: switching them on prepends that segment and changes nothing else. */
  lemma TimestampSegmentIff(wr: TextWriter, ext: Externals, e: Event)
    ensures Render(wr.(showTimestamp := true), ext, e)
         == FormatTimestamp(wr, ext, [e.timestamp], e.timestamp) + " " + Render(wr.(showTimestamp := false), ext, e)
    ensures Render(wr.(showTimestamp := true), ext, e) != Render(wr.(showTimestamp := false), ext, e)
  {
    var on, off := wr.(showTimestamp := true), wr.(showTimestamp := false);
    var ts := FormatTimestamp(wr, ext, [e.timestamp], e.timestamp) + " ";
    RenderWithoutTimestamp(wr, ext, e);
    RenderWithTimestamp(wr, ext, e);
    assert |Render(on, ext, e)| == |ts| + |Render(off, ext, e)| > |Render(off, ext, e)|;
  }

  /** With timestamps off the line is the label segment and the tail. */
  lemma RenderWithoutTimestamp(wr: TextWriter, ext: Externals, e: Event)
    ensures var off := wr.(showTimestamp := false);
      Render(off, ext, e) == LabelSegment(off, ext) + Tail(off, ext, e)
  {
    var off := wr.(showTimestamp := false);
    assert TimestampSegment(off, ext, e) == "";
  }

  /** With timestamps on the line is the timestamp, a space, and what the
      line would be with them off. */
  lemma RenderWithTimestamp(wr: TextWriter, ext: Externals, e: Event)
    ensures var on, off := wr.(showTimestamp := true), wr.(showTimestamp := false);
      Render(on, ext, e)
        == FormatTimestamp(wr, ext, [e.timestamp], e.timestamp) + " " + (LabelSegment(off, ext) + Tail(off, ext, e))
  {
    var on, off := wr.(showTimestamp := true), wr.(showTimestamp := false);
    assert TimestampSegment(on, ext, e) == FormatTimestamp(wr, ext, [e.timestamp], e.timestamp) + " " by {
      assert Formatter(on, ext) == Formatter(wr, ext);
    }
    assert LabelSegment(on, ext) == LabelSegment(off, ext);
    assert Tail(on, ext, e) == Tail(off, ext, e);
  }

  /** The label segment and its space are there exactly when the label is
      shown and not empty; with timestamps off it opens the line. */
  lemma LabelSegmentIff(wr: TextWriter, ext: Externals, e: Event)
    requires !wr.showTimestamp
    ensures |wr.labelText| > 0 ==>
      Render(wr.(showLabel := true), ext, e) == FormatLabel(wr, ext) + " " + Render(wr.(showLabel := false), ext, e)
    ensures |wr.labelText| > 0 ==>
      Render(wr.(showLabel := true), ext, e) != Render(wr.(showLabel := false), ext, e)
    ensures |wr.labelText| == 0 ==>
      Render(wr.(showLabel := true), ext, e) == Render(wr.(showLabel := false), ext, e)
  {
    var on, off := wr.(showLabel := true), wr.(showLabel := false);
    var tail := Tail(off, ext, e);
    assert Render(off, ext, e) == tail by {
      assert TimestampSegment(off, ext, e) == "" && LabelSegment(off, ext) == "";
    }
    assert Render(on, ext, e) == LabelSegment(on, ext) + tail by {
      assert TimestampSegment(on, ext, e) == "";
      assert Tail(on, ext, e) == tail;
    }
    if |wr.labelText| > 0 {
      assert LabelSegment(on, ext) == FormatLabel(wr, ext) + " ";
    } else {
      assert LabelSegment(on, ext) == "";
    }
  }

  /** A provider that returns an empty colour is the same as no provider;
      and with colour off the flag's colour, however it is chosen, leaves no
      trace in the line. */
  lemma FlagColorResolution(wr: TextWriter, ext: Externals, e: Event)
    ensures e.flagTextColor.None? || |e.flagTextColor.value| == 0 ==>
      Render(wr, ext, e) == Render(wr, ext, e.(flagTextColor := None))
    ensures !wr.useColor ==>
      Render(wr, ext, e) == Render(wr, ext, e.(flagTextColor := None))
  {
    var plain := e.(flagTextColor := None);
    assert BodyText(Formatter(wr, ext), e) == BodyText(Formatter(wr, ext), plain);
    assert TimestampSegment(wr, ext, e) == TimestampSegment(wr, ext, plain);
    if e.flagTextColor.None? || |e.flagTextColor.value| == 0 {
      assert FlagColor(ext, e) == FlagColor(ext, plain);
    }
    if !wr.useColor {
      assert FlagSegment(wr, ext, e) == "[" + e.flag + "] " == FlagSegment(wr, ext, plain);
    }
  }

  /** `TextWritable` takes precedence over `Stringer`, and an event that is
      neither contributes an empty body, so the flag segment is followed
      directly by the newline. */
  lemma BodyPrecedence(wr: TextWriter, ext: Externals, e: Event)
    ensures e.writeText.Some? ==> Render(wr, ext, e) == Render(wr, ext, e.(stringer := None))
    ensures e.writeText.None? && e.stringer.None? ==>
      Render(wr, ext, e) == Head(wr, ext, e) + FlagSegment(wr, ext, e) + "\n"
  {
    var plain := e.(stringer := None);
    assert TimestampSegment(wr, ext, e) == TimestampSegment(wr, ext, plain);
    assert FlagSegment(wr, ext, e) == FlagSegment(wr, ext, plain);
    if e.writeText.None? && e.stringer.None? {
      assert Tail(wr, ext, e) == FlagSegment(wr, ext, e) + "\n";
    }
  }

  /** With colour off, timestamps on, an empty label, flag "ping" and the
      string body "b", the line is the formatted time, " [ping] b" and a newline. */
  lemma PingExample(wr: TextWriter, ext: Externals, t: Time)
    requires !wr.useColor && wr.showTimestamp && wr.labelText == ""
    ensures Render(wr, ext, Event("ping", t, None, None, Some("b")))
         == ext.formatTime(t, TimeFormat(wr)) + " [ping] b\n"
  {
    var e := Event("ping", t, None, None, Some("b"));
    assert TimestampSegment(wr, ext, e) == ext.formatTime(t, TimeFormat(wr)) + " ";
    assert LabelSegment(wr, ext) == "";
    assert Tail(wr, ext, e) == "[ping] b\n";
  }

  // ---------------------------------------------------------------------------
  // Writing
  // ---------------------------------------------------------------------------

  /** `write(output, e)`: renders the line and hands the whole of it to
      `output` in one write, returning that write's error. */
  function WriteTo(wr: TextWriter, ext: Externals, output: Sink, e: Event,
                   deliver: (Sink, string) -> Option<string>): (f: Flush)
    ensures f.sink == output
    ensures f.data == Render(wr, ext, e) && f.data[|f.data| - 1] == '\n'
    ensures f.err == deliver(output, f.data)
  {
    var line := Render(wr, ext, e);
    Flush(output, line, deliver(output, line))
  }

  /** `Write`: to the primary output. */
  function Write(wr: TextWriter, ext: Externals, e: Event,
                 deliver: (Sink, string) -> Option<string>): (f: Flush)
    ensures f.sink == wr.output
    ensures f.data == Render(wr, ext, e) && f.err == deliver(f.sink, f.data)
  {
    WriteTo(wr, ext, wr.output, e, deliver)
  }

  /** `WriteError`: to the error output, or the primary one when unset. */
  function WriteError(wr: TextWriter, ext: Externals, e: Event,
                      deliver: (Sink, string) -> Option<string>): (f: Flush)
    ensures wr.errorOutput.Some? ==> f.sink == wr.errorOutput.value
    ensures wr.errorOutput.None? ==> f.sink == wr.output
    ensures f.data == Render(wr, ext, e) && f.err == deliver(f.sink, f.data)
  {
    WriteTo(wr, ext, ErrorOutput(wr), e, deliver)
  }

  /** Both entry points write the same line; they differ only in the sink,
      and without an error output (as in a fresh writer) they are the same write. */
  lemma WriteAndWriteErrorAgree(wr: TextWriter, ext: Externals, e: Event,
                                deliver: (Sink, string) -> Option<string>)
    ensures Write(wr, ext, e, deliver).data == WriteError(wr, ext, e, deliver).data
    ensures wr.errorOutput.None? ==> Write(wr, ext, e, deliver) == WriteError(wr, ext, e, deliver)
    ensures WriteError(NewTextWriter(wr.output), ext, e, deliver).sink == wr.output
  {
  }
}
