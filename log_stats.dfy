/** The read side of `LogAnalyzer` (log_analyzer.py) over its parsed
    entries: `get_statistics`, `get_logs_by_level`,
    `get_logs_by_date_range` and the recent-anomaly list of
    `display_report`. All are filters and counts over the entry sequence. */
module LogStats {
  import opened Wrappers
  import opened Strings
  import opened Seqs
  import opened Clock
  import opened LogParser

  // ------------------------------------------------------------- filters

  /** A list comprehension `[x for x in s if f(x)]`. */
  function Filter<T>(s: seq<T>, f: T -> bool): (r: seq<T>)
    ensures |r| <= |s|
    ensures forall x :: x in r ==> x in s && f(x)
    ensures forall x :: x in s && f(x) ==> x in r
  {
    if s == [] then [] else Filter(Init(s), f) + (if f(Last(s)) then [Last(s)] else [])
  }

  /** A comprehension keeps the order of its source: filtering two stretches
      and joining the results is filtering the joined stretches. */
  lemma {:induction false} FilterConcat<T>(a: seq<T>, b: seq<T>, f: T -> bool)
    ensures Filter(a + b, f) == Filter(a, f) + Filter(b, f)
  {
    if b == [] {
      assert a + b == a;
    } else {
      assert Init(a + b) == a + Init(b) && Last(a + b) == Last(b);
      FilterConcat(a, Init(b), f);
    }
  }

  /** `sum(1 for x in s if f(x) or g(x))` counts each entry once: the two
      single counts add up to the count of either plus the count of both. */
  lemma {:induction false} FilterEither<T>(s: seq<T>, f: T -> bool, g: T -> bool, either: T -> bool, both: T -> bool)
    requires forall x :: either(x) == (f(x) || g(x))
    requires forall x :: both(x) == (f(x) && g(x))
    ensures |Filter(s, either)| + |Filter(s, both)| == |Filter(s, f)| + |Filter(s, g)|
    ensures |Filter(s, f)| <= |Filter(s, either)| && |Filter(s, g)| <= |Filter(s, either)|
  {
    if s != [] {
      FilterEither(Init(s), f, g, either, both);
    }
  }

  /** `get_logs_by_level(level)`. */
  function GetLogsByLevel(logs: seq<LogEntry>, level: string): seq<LogEntry>
  {
    Filter(logs, (e: LogEntry) => e.level == level)
  }

  /** The entry's timestamp is known and lies between `start` and `end`. */
  predicate InRange(e: LogEntry, start: DateTime, end: DateTime)
  {
    e.timestamp.Some? && NotAfter(start, e.timestamp.value) && NotAfter(e.timestamp.value, end)
  }

  /** `get_logs_by_date_range(start, end)`. */
  function GetLogsByDateRange(logs: seq<LogEntry>, start: DateTime, end: DateTime): seq<LogEntry>
  {
    Filter(logs, (e: LogEntry) => InRange(e, start, end))
  }

  /** `get_logs_by_level` keeps, in order, exactly the entries of that level. */
  lemma GetLogsByLevelSpec(a: seq<LogEntry>, b: seq<LogEntry>, level: string)
    ensures GetLogsByLevel(a + b, level) == GetLogsByLevel(a, level) + GetLogsByLevel(b, level)
    ensures forall e :: e in GetLogsByLevel(a, level) <==> e in a && e.level == level
    ensures |GetLogsByLevel(a, level)| <= |a|
  {
    FilterConcat(a, b, (e: LogEntry) => e.level == level);
  }

  /** `get_logs_by_date_range` keeps, in order, exactly the entries with a
      known timestamp in the closed range; an entry whose timestamp did not
      parse is never returned. */
  lemma GetLogsByDateRangeSpec(a: seq<LogEntry>, b: seq<LogEntry>, start: DateTime, end: DateTime)
    ensures GetLogsByDateRange(a + b, start, end) == GetLogsByDateRange(a, start, end) + GetLogsByDateRange(b, start, end)
    ensures forall e :: e in GetLogsByDateRange(a, start, end) <==>
      e in a && e.timestamp.Some? && NotAfter(start, e.timestamp.value) && NotAfter(e.timestamp.value, end)
  {
    FilterConcat(a, b, (e: LogEntry) => InRange(e, start, end));
  }

  // ----------------------------------------------------------- anomalies

  /** `log['level'] in ['WARNING', 'ALERT']`. */
  predicate IsAnomaly(e: LogEntry)
  {
    e.level == "WARNING" || e.level == "ALERT"
  }

  function Anomalies(logs: seq<LogEntry>): seq<LogEntry>
  {
    Filter(logs, IsAnomaly)
  }

  /** `anomalies[-1]['timestamp'] if anomalies else None`. */
  function LastAnomaly(logs: seq<LogEntry>): Option<Instant>
  {
    var a := Anomalies(logs);
    if a == [] then None else Last(a).timestamp
  }

  /** A `Some` result of `last_anomaly` is the timestamp of the last anomaly
      in log order, and there is no result without an anomaly. */
  lemma {:induction false} LastAnomalySound(logs: seq<LogEntry>)
    ensures LastAnomaly(logs).Some? ==>
      exists k :: 0 <= k < |logs| && IsAnomaly(logs[k]) && logs[k].timestamp == LastAnomaly(logs)
                  && forall j :: k < j < |logs| ==> !IsAnomaly(logs[j])
    ensures (forall k :: 0 <= k < |logs| ==> !IsAnomaly(logs[k])) ==> LastAnomaly(logs).None?
  {
    if logs != [] {
      var n := |logs| - 1;
      LastAnomalySound(Init(logs));
      if IsAnomaly(logs[n]) {
        assert Anomalies(logs) == Anomalies(Init(logs)) + [logs[n]];
      } else {
        assert Anomalies(logs) == Anomalies(Init(logs));
        assert forall k :: 0 <= k < n ==> Init(logs)[k] == logs[k];
        if LastAnomaly(logs).Some? {
          var k :| 0 <= k < n && IsAnomaly(Init(logs)[k]) && Init(logs)[k].timestamp == LastAnomaly(logs)
                   && forall j :: k < j < n ==> !IsAnomaly(Init(logs)[j]);
          assert forall j :: k < j < |logs| ==> !IsAnomaly(logs[j]);
        }
      }
    }
  }

  /** `last_anomaly` is the timestamp of the last anomaly in log order
      (itself `None` when that entry's timestamp did not parse), and `None`
      when there is no anomaly: a `Some` result is such a timestamp, and the
      last anomaly's timestamp is always the result. */
  lemma LastAnomalyIsLatest(logs: seq<LogEntry>)
    ensures LastAnomaly(logs).Some? ==>
      exists k :: 0 <= k < |logs| && IsAnomaly(logs[k]) && logs[k].timestamp == LastAnomaly(logs)
                  && forall j :: k < j < |logs| ==> !IsAnomaly(logs[j])
    ensures (forall k :: 0 <= k < |logs| ==> !IsAnomaly(logs[k])) ==> LastAnomaly(logs).None?
    ensures forall k :: 0 <= k < |logs| && IsAnomaly(logs[k]) && (forall j :: k < j < |logs| ==> !IsAnomaly(logs[j]))
                        ==> LastAnomaly(logs) == logs[k].timestamp
  {
    LastAnomalySound(logs);
    forall k | 0 <= k < |logs| && IsAnomaly(logs[k]) && (forall j :: k < j < |logs| ==> !IsAnomaly(logs[j]))
      ensures LastAnomaly(logs) == logs[k].timestamp
    {
      LastAnomalyOfLast(logs, k);
    }
  }

  /** Whenever there is an anomaly, `last_anomaly` is the timestamp of the
      last one in log order. */
  lemma {:induction false} LastAnomalyOfLast(logs: seq<LogEntry>, k: nat)
    requires k < |logs| && IsAnomaly(logs[k])
    requires forall j :: k < j < |logs| ==> !IsAnomaly(logs[j])
    ensures LastAnomaly(logs) == logs[k].timestamp
  {
    var n := |logs| - 1;
    if k == n {
      assert Anomalies(logs) == Anomalies(Init(logs)) + [logs[n]];
    } else {
      assert Anomalies(logs) == Anomalies(Init(logs));
      assert forall j :: 0 <= j < n ==> Init(logs)[j] == logs[j];
      LastAnomalyOfLast(Init(logs), k);
    }
  }

  function Reverse<T>(s: seq<T>): (r: seq<T>)
    ensures |r| == |s|
    ensures forall i :: 0 <= i < |s| ==> r[i] == s[|s| - 1 - i]
  {
    if s == [] then [] else [Last(s)] + Reverse(Init(s))
  }

  /** `reversed(anomalies[-5:])`, the list `display_report` prints. */
  function RecentAnomalies(logs: seq<LogEntry>): seq<LogEntry>
  {
    var a := Anomalies(logs);
    Reverse(if |a| > 5 then a[|a| - 5..] else a)
  }

  /** The last (at most) five elements of a sequence, newest first. */
  lemma LastFiveReversed<T>(a: seq<T>)
    ensures var r := Reverse(if |a| > 5 then a[|a| - 5..] else a);
      && |r| == (if |a| < 5 then |a| else 5)
      && forall i :: 0 <= i < |r| ==> r[i] == a[|a| - 1 - i]
  {
    if |a| > 5 {
      var tail := a[|a| - 5..];
      assert forall i :: 0 <= i < 5 ==> tail[i] == a[|a| - 5 + i];
    }
  }

  /** The recent anomalies are the last (at most) five anomalies, newest first. */
  lemma RecentAnomaliesSpec(logs: seq<LogEntry>)
    ensures var a, r := Anomalies(logs), RecentAnomalies(logs);
      && |r| == (if |a| < 5 then |a| else 5)
      && (forall i :: 0 <= i < |r| ==> r[i] == a[|a| - 1 - i])
      && (forall i :: 0 <= i < |r| ==> IsAnomaly(r[i]))
  {
    var a := Anomalies(logs);
    LastFiveReversed(a);
    forall i | 0 <= i < |a| ensures IsAnomaly(a[i]) {
      assert a[i] in a;
    }
  }

  // ---------------------------------------------------------- statistics

  /** `Counter(log['level'] for log in logs)`. */
  function LevelCounts(logs: seq<LogEntry>): map<string, nat>
  {
    if logs == [] then map[]
    else
      var m := LevelCounts(Init(logs));
      var l := Last(logs).level;
      m[l := (if l in m then m[l] else 0) + 1]
  }

  /** The sum of the values of a map. */
  ghost function SumValues(m: map<string, nat>): nat
    decreases |m|
  {
    if m == map[] then 0
    else
      var k :| k in m;
      assert |m - {k}| < |m| by { assert (m - {k}).Keys == m.Keys - {k}; }
      m[k] + SumValues(m - {k})
  }

  /** The sum does not depend on which key is taken first. */
  lemma {:induction false} SumValuesRemove(m: map<string, nat>, k: string)
    requires k in m
    ensures SumValues(m) == m[k] + SumValues(m - {k})
    decreases |m|
  {
    var k' :| k' in m && SumValues(m) == m[k'] + SumValues(m - {k'});
    if k' != k {
      assert (m - {k'}).Keys == m.Keys - {k'};
      assert (m - {k}).Keys == m.Keys - {k};
      SumValuesRemove(m - {k'}, k);
      SumValuesRemove(m - {k}, k');
      assert m - {k'} - {k} == m - {k} - {k'};
    }
  }

  /** One more entry of level `l` adds one to the sum of the level counts. */
  lemma SumValuesBump(m: map<string, nat>, l: string)
    ensures SumValues(m[l := (if l in m then m[l] else 0) + 1]) == SumValues(m) + 1
  {
    var m' := m[l := (if l in m then m[l] else 0) + 1];
    SumValuesRemove(m', l);
    if l in m {
      SumValuesRemove(m, l);
      assert m' - {l} == m - {l};
    } else {
      assert m' - {l} == m;
    }
  }

  /** The level counts name exactly the levels present. */
  lemma {:induction false} LevelCountsKeys(logs: seq<LogEntry>)
    ensures forall l :: l in LevelCounts(logs) <==> exists e :: e in logs && e.level == l
  {
    if logs != [] {
      var front, e := Init(logs), Last(logs);
      assert logs == front + [e];
      LevelCountsKeys(front);
    }
  }

  /** The count of each level is the number of entries of that level. */
  lemma {:induction false} LevelCountsValues(logs: seq<LogEntry>, l: string)
    requires l in LevelCounts(logs)
    ensures LevelCounts(logs)[l] == |GetLogsByLevel(logs, l)|
  {
    var front, e := Init(logs), Last(logs);
    assert logs == front + [e];
    var f := (x: LogEntry) => x.level == l;
    FilterConcat(front, [e], f);
    assert Init([e]) == [];
    assert GetLogsByLevel(logs, l) == GetLogsByLevel(front, l) + Filter([e], f);
    if l in LevelCounts(front) {
      LevelCountsValues(front, l);
    } else {
      LevelCountsKeys(front);
      assert l == e.level;
      FilterNone(front, f);
    }
  }

  /** The level counts sum to the number of entries. */
  lemma {:induction false} LevelCountsSum(logs: seq<LogEntry>)
    ensures SumValues(LevelCounts(logs)) == |logs|
  {
    if logs != [] {
      LevelCountsSum(Init(logs));
      SumValuesBump(LevelCounts(Init(logs)), Last(logs).level);
    }
  }

  /** The substring tests of `get_statistics`. */
  predicate MentionsSafe(e: LogEntry) { Contains(e.message, "verified OK") }
  predicate MentionsFailed(e: LogEntry) { Contains(e.message, "integrity failed") }
  predicate MentionsUnknown(e: LogEntry) { Contains(e.message, "Unknown file") }
  predicate MentionsDetected(e: LogEntry) { Contains(e.message, "detected") }
  predicate MentionsNew(e: LogEntry) { MentionsUnknown(e) || MentionsDetected(e) }
  predicate MentionsDeleted(e: LogEntry) { Contains(e.message, "deleted") }
  predicate MentionsMissing(e: LogEntry) { Contains(e.message, "missing") }
  predicate MentionsGone(e: LogEntry) { MentionsDeleted(e) || MentionsMissing(e) }

  /** The dictionary `get_statistics` returns. */
  datatype Stats = Stats(
    totalLogs: nat,
    levelCounts: map<string, nat>,
    safeFiles: nat,
    failedFiles: nat,
    newFiles: nat,
    deletedFiles: nat,
    lastAnomaly: Option<Instant>,
    anomalyCount: nat)

  /** `get_statistics`: `None` for an empty log. */
  function GetStatistics(logs: seq<LogEntry>): (r: Option<Stats>)
    ensures r.None? <==> logs == []
    ensures r.Some? ==> var s := r.value;
      && s.totalLogs == |logs|
      && s.safeFiles <= s.totalLogs && s.failedFiles <= s.totalLogs
      && s.newFiles <= s.totalLogs && s.deletedFiles <= s.totalLogs
      && s.anomalyCount <= s.totalLogs
  {
    if logs == [] then None
    else Some(Stats(
      |logs|,
      LevelCounts(logs),
      |Filter(logs, MentionsSafe)|,
      |Filter(logs, MentionsFailed)|,
      |Filter(logs, MentionsNew)|,
      |Filter(logs, MentionsGone)|,
      LastAnomaly(logs),
      |Anomalies(logs)|))
  }

  /** The level counts of the statistics sum to `total_logs`; an entry that
      mentions both "Unknown file" and "detected" counts once in
      `new_files`; `anomaly_count` counts the WARNING and ALERT entries. */
  lemma StatisticsSpec(logs: seq<LogEntry>)
    requires logs != []
    ensures var s := GetStatistics(logs).value;
      && SumValues(s.levelCounts) == s.totalLogs
      && s.newFiles + |Filter(logs, (e: LogEntry) => MentionsUnknown(e) && MentionsDetected(e))|
         == |Filter(logs, MentionsUnknown)| + |Filter(logs, MentionsDetected)|
      && s.anomalyCount == |Filter(logs, (e: LogEntry) => e.level == "WARNING")|
                           + |Filter(logs, (e: LogEntry) => e.level == "ALERT")|
  {
    LevelCountsSum(logs);
    FilterEither(logs, MentionsUnknown, MentionsDetected, MentionsNew,
                 (e: LogEntry) => MentionsUnknown(e) && MentionsDetected(e));
    FilterEither(logs, (e: LogEntry) => e.level == "WARNING", (e: LogEntry) => e.level == "ALERT",
                 IsAnomaly, (e: LogEntry) => e.level == "WARNING" && e.level == "ALERT");
    FilterNone(logs, (e: LogEntry) => e.level == "WARNING" && e.level == "ALERT");
  }

  /** Nothing is kept when no element passes the test. */
  lemma {:induction false} FilterNone<T>(s: seq<T>, f: T -> bool)
    requires forall x :: x in s ==> !f(x)
    ensures Filter(s, f) == []
  {
    if s != [] {
      assert forall x :: x in Init(s) ==> x in s;
      FilterNone(Init(s), f);
    }
  }
  // ----------------------------------------------- the printed anomalies

  /** The line `display_report` prints for one recent anomaly as written:
      `None` where the timestamp is `None`, since calling `strftime` on it
      raises. */
  function ReportLine(e: LogEntry): Option<string>
  {
    if e.timestamp.None? then None
    else Some("   [" + Format(e.timestamp.value) + "] " + e.level + ": " + e.message)
  }

  /** The loop over the recent anomalies as written: `None` once one line raises. */
  function PrintAll(r: seq<LogEntry>): Option<seq<string>>
  {
    if r == [] then Some([])
    else
      match (ReportLine(r[0]), PrintAll(r[1..]))
      case (Some(line), Some(rest)) => Some([line] + rest)
      case _ => None
  }

  function RecentReportAsWritten(logs: seq<LogEntry>): Option<seq<string>>
  {
    PrintAll(RecentAnomalies(logs))
  }

  /** The loop completes exactly when every entry has a timestamp, and then
      prints one line per entry. */
  lemma {:induction false} PrintAllRaises(r: seq<LogEntry>)
    ensures PrintAll(r).None? <==> exists i :: 0 <= i < |r| && r[i].timestamp.None?
    ensures PrintAll(r).Some? ==>
      |PrintAll(r).value| == |r| && forall i :: 0 <= i < |r| ==> Some(PrintAll(r).value[i]) == ReportLine(r[i])
  {
    if r != [] {
      PrintAllRaises(r[1..]);
      assert forall i :: 1 <= i < |r| ==> r[1..][i - 1] == r[i];
      if PrintAll(r).Some? {
        var rest := PrintAll(r[1..]).value;
        assert PrintAll(r).value == [ReportLine(r[0]).value] + rest;
      }
    }
  }

  /** As written, the report raises exactly when one of the last five
      anomalies has no parsed timestamp. */
  lemma RecentReportRaises(logs: seq<LogEntry>)
    ensures RecentReportAsWritten(logs).None? <==>
      exists i :: 0 <= i < |RecentAnomalies(logs)| && RecentAnomalies(logs)[i].timestamp.None?
  {
    PrintAllRaises(RecentAnomalies(logs));
  }

  /** Timestamp text `strptime` rejects, such as `yesterday`, exists and
      can stand in a matching line. */
  lemma GarbledTimestampText()
    ensures ParseTimestamp("yesterday").None?
    ensures !HasPair("yesterday", ']', ' ') && '\n' !in "yesterday"
  {
    forall k | 0 <= k < 9 ensures !PairAt("yesterday", k, ']', ' ') { }
  }

  /** A log file holding the one line `[ts] WARNING: msg`, whose timestamp
      text `strptime` rejects, has statistics, yet its report raises. */
  lemma ReportRaisesOnUnparsedTimestamp(ts: string, msg: string)
    requires ParseTimestamp(ts).None? && !HasPair(ts, ']', ' ') && '\n' !in ts
    requires msg != [] && !IsSpace(msg[|msg| - 1]) && '\n' !in msg
    ensures var logs := ParseAll(["[" + ts + "] " + "WARNING" + ": " + msg + "\n"]);
      GetStatistics(logs).Some? && RecentReportAsWritten(logs).None?
  {
    var text := "[" + ts + "] " + "WARNING" + ": " + msg;
    var line := text + "\n";
    assert !HasPair("WARNING", ':', ' ') by {
      forall k | 0 <= k < 7 ensures !PairAt("WARNING", k, ':', ' ') { }
    }
    WellFormedLine(ts, "WARNING", msg);
    var e := LogEntry(None, "WARNING", msg, text);
    assert ParseLine(line) == Some(e);
    assert Init([line]) == [] && Last([line]) == line;
    assert ParseAll([line]) == [e];
    assert Anomalies([e]) == [e] by {
      assert Init([e]) == [] && Last([e]) == e;
    }
    assert RecentAnomalies([e]) == [e];
    RecentReportRaises([e]);
  }

  /** The report line with the evident intent: an anomaly whose timestamp
      did not parse is shown by its raw log line instead of raising. */
  function ReportLineFixed(e: LogEntry): string
  {
    if e.timestamp.Some? then ReportLine(e).value else "   " + e.raw
  }

  function RecentReport(logs: seq<LogEntry>): seq<string>
  {
    var r := RecentAnomalies(logs);
    seq(|r|, i requires 0 <= i < |r| => ReportLineFixed(r[i]))
  }

  /** The corrected report always prints one line per recent anomaly, newest
      first; each line is the one the written code prints wherever that
      code does not raise. */
  lemma RecentReportSpec(logs: seq<LogEntry>)
    ensures var a, p := Anomalies(logs), RecentReport(logs);
      && |p| == (if |a| < 5 then |a| else 5)
      && forall i :: 0 <= i < |p| ==>
           (a[|a| - 1 - i].timestamp.Some? ==> Some(p[i]) == ReportLine(a[|a| - 1 - i]))
    ensures RecentReportAsWritten(logs).Some? ==> RecentReportAsWritten(logs).value == RecentReport(logs)
  {
    RecentAnomaliesSpec(logs);
    PrintAllRaises(RecentAnomalies(logs));
  }
}
