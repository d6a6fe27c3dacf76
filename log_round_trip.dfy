/** The security log read back: the line `FileIntegrityMonitor._log`
    (file_integrity_monitor.py) appends for a `Writable` event is accepted
    by `LogAnalyzer._parse_logs` (log_analyzer.py) and gives back the
    instant, level and text it was written with. Other lines may be dropped
    (`EmptyMessageDropped`), read back with their trailing whitespace
    trimmed (`TrailingSpaceTrimmed`), or broken apart at a line break, and
    the reader also accepts lines the writer never produces, such as one
    with an unparsable timestamp. */
module LogRoundTrip {
  import opened Wrappers
  import opened Strings
  import opened Seqs
  import opened Clock
  import opened EventLog
  import opened LogParser

  /** The log file as the reader's line iterator yields it: each written
      line with its terminating newline. */
  function LogFile(log: seq<Event>): seq<string>
  {
    seq(|log|, k requires 0 <= k < |log| => RenderLine(log[k]) + "\n")
  }

  /** The file of a longer log is the file of its front and one more line. */
  lemma LogFileStep(log: seq<Event>)
    requires log != []
    ensures Init(LogFile(log)) == LogFile(Init(log))
    ensures Last(LogFile(log)) == RenderLine(Last(log)) + "\n"
  {
  }

  /** An event whose line survives the reader's `strip()` and line
      splitting: its text after `LEVEL: ` is not empty, does not end in
      whitespace and holds no line break. */
  predicate Writable(e: Event)
  {
    var b := Body(e);
    b != [] && !IsSpace(b[|b| - 1]) && '\n' !in b && '\r' !in b
  }

  /** The entry the reader builds from the line of `e`. */
  function WrittenEntry(e: Event): LogEntry
  {
    LogEntry(Some(e.time), LevelName(e.level), Body(e), RenderLine(e))
  }

  /** The characters of a formatted instant are digits and separators. */
  lemma FormatCharacters(t: DateTime)
    requires Valid(t)
    ensures forall k :: 0 <= k < |Format(t)| ==> IsDigit(Format(t)[k]) || Format(t)[k] in "- :"
  {
    FormatThenParse(t);
    assert HasTimestampShape(Format(t));
  }

  /** The written line fits the reader's grammar with the formatted
      instant, the level name and the body as its three groups. */
  lemma LineGrammar(e: Event)
    ensures Grammar(RenderLine(e), Format(e.time), LevelName(e.level), Body(e))
  {
    var ts := Format(e.time);
    FormatCharacters(e.time);
    assert !HasPair(ts, ']', ' ') by {
      forall k | 0 <= k < |ts| ensures !PairAt(ts, k, ']', ' ') {
        assert IsDigit(ts[k]) || ts[k] in "- :";
      }
    }
    var l := LevelName(e.level);
    assert !HasPair(l, ':', ' ') by {
      forall k | 0 <= k < |l| ensures !PairAt(l, k, ':', ' ') {
      }
    }
  }

  /** One written line reads back as the event it was written for. */
  lemma LineRoundTrip(e: Event)
    requires Writable(e)
    ensures ParseLine(RenderLine(e) + "\n") == Some(WrittenEntry(e))
  {
    var ts := Format(e.time);
    LineGrammar(e);
    FormatCharacters(e.time);
    assert '\n' !in ts by {
      forall k | 0 <= k < |ts| ensures ts[k] != '\n' {
        assert IsDigit(ts[k]) || ts[k] in "- :";
      }
    }
    WellFormedLine(ts, LevelName(e.level), Body(e));
    FormatThenParse(e.time);
  }

  /** The reader has no separate file name: the message of an event that
      named a file reads back as `File "<name>" <message>`. */
  lemma NamedFileMessage(e: Event)
    requires Writable(e) && NamesFile(e)
    ensures ParseLine(RenderLine(e) + "\n").Some?
    ensures ParseLine(RenderLine(e) + "\n").value.message == "File \"" + e.fileName.value + "\" " + e.message
    ensures ParseLine(RenderLine(e) + "\n").value.level == LevelName(e.level)
  {
    LineRoundTrip(e);
  }

  /** A message that ends in whitespace, as the `str(e)` of
      file_integrity_monitor.py:33 may, is written but is not `Writable`:
      the reader's `strip()` takes the whitespace off, and the line reads
      back as the event without it. */
  lemma TrailingSpaceTrimmed(e: Event, w: string)
    requires Writable(e) && w != [] && forall k :: 0 <= k < |w| ==> IsSpace(w[k])
    ensures !Writable(Event(e.time, e.level, e.message + w, e.fileName))
    ensures ParseLine(RenderLine(Event(e.time, e.level, e.message + w, e.fileName)) + "\n")
         == Some(WrittenEntry(e))
  {
    var padded := Event(e.time, e.level, e.message + w, e.fileName);
    assert Body(padded) == Body(e) + w;
    assert Body(padded)[|Body(padded)| - 1] == w[|w| - 1];
    var line, paddedLine := RenderLine(e) + "\n", RenderLine(padded) + "\n";
    assert paddedLine == RenderLine(e) + (w + "\n");
    assert line[0] == '[' && paddedLine[0] == '[';
    assert LStrip(line) == line && LStrip(paddedLine) == paddedLine;
    RStripPadded(RenderLine(e), w + "\n");
    RStripPadded(RenderLine(e), "\n");
    assert Strip(paddedLine) == Strip(line);
    LineRoundTrip(e);
  }

  /** Reading the whole file gives one entry per event, in the order written. */
  lemma {:induction false} LogRoundTripAll(log: seq<Event>)
    requires forall k :: 0 <= k < |log| ==> Writable(log[k])
    ensures |ParseAll(LogFile(log))| == |log|
    ensures forall k :: 0 <= k < |log| ==> ParseAll(LogFile(log))[k] == WrittenEntry(log[k])
  {
    if log != [] {
      var front, e := Init(log), Last(log);
      var lines := LogFile(log);
      LogRoundTripAll(front);
      LogFileStep(log);
      LineRoundTrip(e);
      var rest := ParseAll(LogFile(front));
      assert ParseAll(lines) == rest + [WrittenEntry(e)];
      forall k | 0 <= k < |log| ensures ParseAll(lines)[k] == WrittenEntry(log[k]) {
        if k < |front| {
          assert ParseAll(lines)[k] == rest[k] && log[k] == front[k];
        } else {
          assert k == |log| - 1;
          assert ParseAll(lines)[k] == WrittenEntry(e);
        }
      }
    }
  }

  /** `[ts] level:` with nothing after the colon does not match when the
      timestamp holds no ']' and the level no space: the first `"] "` closes
      the timestamp, and no `": "` follows it. */
  lemma NoMessageNoMatch(ts: string, l: string)
    requires ']' !in ts && ' ' !in l
    ensures Split("[" + ts + "] " + l + ":").None?
  {
    var kept := "[" + ts + "] " + l + ":";
    var i := 1 + |ts|;
    assert PairAt(kept, i, ']', ' ');
    forall k | 1 <= k < i ensures !PairAt(kept, k, ']', ' ') {
      assert kept[k] == ts[k - 1];
    }
    assert FindPair(kept, 1, ']', ' ') == Some(i);
    forall k | i + 2 <= k ensures !PairAt(kept, k, ':', ' ') {
      if k + 1 < |kept| - 1 {
        assert kept[k + 1] == l[k + 1 - (i + 2)];
      }
    }
  }

  /** A line whose text after `LEVEL: ` is empty loses its last space to
      `strip()` and is dropped: `_log("INFO", "")` leaves no entry. */
  lemma EmptyMessageDropped(t: Instant, level: Level)
    ensures ParseLine(RenderLine(Event(t, level, "", None)) + "\n").None?
  {
    var ts, l := Format(t), LevelName(level);
    var s := RenderLine(Event(t, level, "", None));
    var kept := "[" + ts + "] " + l + ":";
    assert s == kept + " ";
    var line := s + "\n";
    assert line[0] == '[' && LStrip(line) == line;
    assert line[..|line| - 1] == s && RStrip(line) == RStrip(s);
    assert s[..|s| - 1] == kept && RStrip(s) == RStrip(kept);
    StripUnpadded(kept);
    FormatCharacters(t);
    assert '\n' !in kept by {
      forall k | 0 <= k < |kept| ensures kept[k] != '\n' {
        if 1 <= k < 1 + |ts| {
          assert kept[k] == ts[k - 1];
        }
      }
    }
    BeforeNewlineSpec(kept);
    assert MatchedText(line) == kept;
    assert ']' !in ts by {
      forall k | 0 <= k < |ts| ensures ts[k] != ']' {
        assert IsDigit(ts[k]) || ts[k] in "- :";
      }
    }
    NoMessageNoMatch(ts, l);
  }
}
