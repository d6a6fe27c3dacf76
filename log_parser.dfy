/** `LogAnalyzer._parse_logs` (log_analyzer.py): every line of the log file
    is stripped and matched against `\[(.*?)\] (.*?): (.*)`; a line that
    does not match is dropped, a timestamp `strptime` rejects becomes
    `None`. The regular expression is modelled by a splitter that is proved
    to find exactly the decomposition the lazy groups choose. */
module LogParser {
  import opened Wrappers
  import opened Strings
  import opened Seqs
  import opened Clock

  /** One parsed line: `{timestamp, level, message, raw}`. */
  datatype LogEntry = LogEntry(timestamp: Option<Instant>, level: string, message: string, raw: string)

  /** `t` is `[ts] level: msg` with the groups the regular expression picks:
      the lazy first group ends at the first `"] "`, the lazy second group at
      the first `": "` after it, and the greedy third takes the rest. (Were
      there no `": "` after the first `"] "`, there would be none after a
      later one either, so backtracking never picks a later `"] "`.) */
  predicate Grammar(t: string, ts: string, level: string, msg: string)
  {
    && t == "[" + ts + "] " + level + ": " + msg
    && !HasPair(ts, ']', ' ')
    && !HasPair(level, ':', ' ')
  }

  /** The splitter standing for `re.match(r'\[(.*?)\] (.*?): (.*)', t)` on
      a text without newlines. */
  function Split(t: string): (r: Option<(string, string, string)>)
    ensures r.Some? ==> Grammar(t, r.value.0, r.value.1, r.value.2)
  {
    if t == [] || t[0] != '[' then None
    else
      match FindPair(t, 1, ']', ' ')
      case None => None
      case Some(i) =>
        match FindPair(t, i + 2, ':', ' ')
        case None => None
        case Some(j) =>
          var ts, level, msg := t[1..i], t[i + 2..j], t[j + 2..];
          assert t == "[" + ts + "] " + level + ": " + msg;
          assert !HasPair(ts, ']', ' ') by {
            forall k | 0 <= k < |ts| ensures !PairAt(ts, k, ']', ' ') {
              assert PairAt(ts, k, ']', ' ') ==> PairAt(t, k + 1, ']', ' ');
            }
          }
          assert !HasPair(level, ':', ' ') by {
            forall k | 0 <= k < |level| ensures !PairAt(level, k, ':', ' ') {
              assert PairAt(level, k, ':', ' ') ==> PairAt(t, k + i + 2, ':', ' ');
            }
          }
          Some((ts, level, msg))
  }

  /** The splitter finds every decomposition the grammar admits. */
  lemma SplitComplete(t: string, ts: string, level: string, msg: string)
    requires Grammar(t, ts, level, msg)
    ensures Split(t) == Some((ts, level, msg))
  {
    var i := 1 + |ts|;
    var j := i + 2 + |level|;
    assert t[0] == '[';
    assert t[1..i] == ts && t[i..i + 2] == "] ";
    assert t[i + 2..j] == level && t[j..j + 2] == ": " && t[j + 2..] == msg;
    assert PairAt(t, i, ']', ' ');
    forall k | 1 <= k < i ensures !PairAt(t, k, ']', ' ') {
      if k < i - 1 {
        assert PairAt(t, k, ']', ' ') ==> PairAt(ts, k - 1, ']', ' ');
      } else {
        assert t[k + 1] == ']';
      }
    }
    assert FindPair(t, 1, ']', ' ') == Some(i);
    assert PairAt(t, j, ':', ' ');
    forall k | i + 2 <= k < j ensures !PairAt(t, k, ':', ' ') {
      if k < j - 1 {
        assert PairAt(t, k, ':', ' ') ==> PairAt(level, k - i - 2, ':', ' ');
      } else {
        assert t[k + 1] == ':';
      }
    }
    assert FindPair(t, i + 2, ':', ' ') == Some(j);
  }

  /** The splitter matches every text the regular expression matches: any
      `[a] b: c` has a first `"] "` after the bracket, and a `": "` after it
      (at the latest the one after `b`). */
  lemma SplitTotal(t: string, a: string, b: string, c: string)
    requires t == "[" + a + "] " + b + ": " + c
    ensures Split(t).Some?
  {
    var i := 1 + |a|;
    var j := i + 2 + |b|;
    assert PairAt(t, i, ']', ' ');
    assert PairAt(t, j, ':', ' ');
    var r := FindPair(t, 1, ']', ' ');
    assert r.Some?;
    assert r.value <= i;
    // The `": "` after `b` follows the first `"] "` too.
    assert r.value + 2 <= j;
  }

  /** What the regular expression sees of a stripped line: `.` stops at a
      newline, and `re.match` needs no match to the end. */
  function MatchedText(line: string): string
  {
    BeforeNewline(Strip(line))
  }

  /** One line of the log file. */
  function ParseLine(line: string): Option<LogEntry>
  {
    match Split(MatchedText(line))
    case None => None
    case Some((ts, level, msg)) => Some(LogEntry(ParseTimestamp(ts), level, msg, Strip(line)))
  }

  /** A line gives an entry exactly when its matched text fits the grammar,
      whatever its timestamp text: the entry carries the grammar's level and
      message, the stripped line as `raw`, and `None` for a timestamp
      `strptime` rejects. */
  lemma ParseLineGrammar(line: string)
    ensures ParseLine(line).Some? <==> exists ts, level, msg :: Grammar(MatchedText(line), ts, level, msg)
    ensures ParseLine(line).Some? ==>
      var e := ParseLine(line).value;
      && e.raw == Strip(line)
      && exists ts :: Grammar(MatchedText(line), ts, e.level, e.message) && e.timestamp == ParseTimestamp(ts)
  {
    var t := MatchedText(line);
    if exists ts, level, msg :: Grammar(t, ts, level, msg) {
      var ts, level, msg :| Grammar(t, ts, level, msg);
      SplitComplete(t, ts, level, msg);
    }
  }

  /** A line `[ts] level: msg` followed by its newline reads back with
      those three groups, when the groups keep to the grammar, hold no
      newline and the message does not end in whitespace. */
  lemma WellFormedLine(ts: string, level: string, msg: string)
    requires !HasPair(ts, ']', ' ') && !HasPair(level, ':', ' ')
    requires '\n' !in ts && '\n' !in level && '\n' !in msg
    requires msg != [] && !IsSpace(msg[|msg| - 1])
    ensures var text := "[" + ts + "] " + level + ": " + msg;
      ParseLine(text + "\n") == Some(LogEntry(ParseTimestamp(ts), level, msg, text))
  {
    var text := "[" + ts + "] " + level + ": " + msg;
    var line := text + "\n";
    assert line[0] == '[' && LStrip(line) == line;
    assert line[..|line| - 1] == text && RStrip(line) == RStrip(text);
    assert text[|text| - 1] == msg[|msg| - 1];
    StripUnpadded(text);
    assert '\n' !in text;
    BeforeNewlineSpec(text);
    assert MatchedText(line) == text;
    SplitComplete(text, ts, level, msg);
  }

  lemma ParseAllStep(lines: seq<string>, i: nat)
    requires i < |lines|
    ensures ParseAll(lines[..i + 1]) == ParseAll(lines[..i]) + EntryOf(ParseLine(lines[i]))
  {
    PrefixStep(lines, i);
  }

  function EntryOf(r: Option<LogEntry>): seq<LogEntry>
  {
    if r.Some? then [r.value] else []
  }

  /** The entries of a whole file, in line order. */
  function ParseAll(lines: seq<string>): seq<LogEntry>
  {
    if lines == [] then [] else ParseAll(Init(lines)) + EntryOf(ParseLine(Last(lines)))
  }

  /** Parsing is line by line: the entries of two stretches of a file are
      those of each, in order. */
  lemma {:induction false} ParseAllConcat(a: seq<string>, b: seq<string>)
    ensures ParseAll(a + b) == ParseAll(a) + ParseAll(b)
  {
    if b != [] {
      assert Init(a + b) == a + Init(b);
      assert Last(a + b) == Last(b);
      ParseAllConcat(a, Init(b));
    } else {
      assert a + b == a;
    }
  }

  /** A line that does not match is dropped without disturbing its neighbours. */
  lemma MalformedLineDropped(a: seq<string>, line: string, b: seq<string>)
    requires ParseLine(line).None?
    ensures ParseAll(a + [line] + b) == ParseAll(a) + ParseAll(b)
  {
    var front := a + [line];
    ParseAllConcat(front, b);
    ParseAllConcat(a, [line]);
    assert ParseAll([line]) == [] by {
      assert Init([line]) == [] && Last([line]) == line;
    }
    assert ParseAll(front) == ParseAll(a);
  }

  /** Each entry comes from a line, and there are never more entries than lines. */
  lemma {:induction false} ParseAllFromLines(lines: seq<string>)
    ensures |ParseAll(lines)| <= |lines|
    ensures forall e :: e in ParseAll(lines) ==> exists k :: 0 <= k < |lines| && ParseLine(lines[k]) == Some(e)
  {
    if lines != [] {
      ParseAllFromLines(Init(lines));
      forall e | e in ParseAll(lines)
        ensures exists k :: 0 <= k < |lines| && ParseLine(lines[k]) == Some(e)
      {
        if e in ParseAll(Init(lines)) {
          var k :| 0 <= k < |Init(lines)| && ParseLine(Init(lines)[k]) == Some(e);
          assert lines[k] == Init(lines)[k];
        } else {
          assert ParseLine(lines[|lines| - 1]) == Some(e);
        }
      }
    }
  }

  /** The class `LogAnalyzer`: the parsed entries of one log file. */
  class LogAnalyzer {
    /** `self.logs`. */
    var logs: seq<LogEntry>

    /** `__init__`: no entries, then `_parse_logs`. A missing or unreadable
        file (`None`) leaves no entries. */
    constructor (source: Option<seq<string>>)
      ensures logs == (if source.Some? then ParseAll(source.value) else [])
    {
      logs := [];
      new;
      ParseLogs(source);
    }

    /** `_parse_logs`: appends the entry of each matching line, in order. */
    method ParseLogs(source: Option<seq<string>>)
      modifies this
      ensures logs == old(logs) + (if source.Some? then ParseAll(source.value) else [])
    {
      if source.Some? {
        var lines := source.value;
        ghost var logs0 := logs;
        var i := 0;
        while i < |lines|
          invariant 0 <= i <= |lines|
          invariant logs == logs0 + ParseAll(lines[..i])
        {
          AddLine(lines[i]);
          ParseAllStep(lines, i);
          i := i + 1;
        }
        assert lines[..|lines|] == lines;
      }
    }

    /** One pass of the loop of `_parse_logs`: a matching line appends its
        entry, any other line nothing. */
    method AddLine(line: string)
      modifies this
      ensures logs == old(logs) + EntryOf(ParseLine(line))
    {
      var entry := ParseLine(line);
      if entry.Some? {
        logs := logs + [entry.value];
      }
    }
  }
}
