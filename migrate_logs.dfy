/**
 * The `migrate_logs` tool: reads the log file, orders its records by
 * timestamp, fills in each disconnect's session length from the matching
 * connect, and writes every record back as a seven-field line.
 *
 * The clock-text parser (`DateTime::parse_from_str` with
 * "%Y-%m-%d %H:%M:%S %z") is the parameter `parseTime`, giving seconds since
 * an epoch, or `None` when the text does not parse.
 */
module MigrateLogs {
  import opened Wrappers
  import opened Text
  import opened LogDomain
  import opened LogSort
  import LogRepository

  // ------------------------------------------------------------------
  // Session lengths

  /** A count followed by its unit letter, as in "12m". */
  function WithUnit(n: nat, unit: char): string
  {
    Dec(n) + [unit]
  }

  /** `format_duration`: seconds below a minute, minutes and seconds below an hour, else hours and minutes. */
  function FormatDuration(secs: int): string
  {
    if secs < 60 then DecInt(secs) + "s"
    else if secs < 3600 then WithUnit(secs / 60, 'm') + " " + WithUnit(secs % 60, 's')
    else WithUnit(secs / 3600, 'h') + " " + WithUnit((secs % 3600) / 60, 'm')
  }

  /** Reads a count with its unit letter back, as in "12m". */
  function Amount(p: string, unit: char): Option<int>
  {
    if |p| >= 2 && p[|p| - 1] == unit && AllDigits(p[..|p| - 1])
    then Some(DigitsValue(p[..|p| - 1]))
    else None
  }

  /** Reads a session length back as seconds: "Ns", "Mm Ss" or "Hh Mm". */
  function ReadDuration(text: string): Option<int>
  {
    var parts := Split(text, ' ');
    if |parts| == 1 then Amount(parts[0], 's')
    else if |parts| == 2 then ReadPair(parts[0], parts[1])
    else None
  }

  /** "Mm Ss" or "Hh Mm". */
  function ReadPair(first: string, second: string): Option<int>
  {
    match (Amount(first, 'm'), Amount(second, 's'))
    case (Some(m), Some(s)) => Some(m * 60 + s)
    case _ =>
      match (Amount(first, 'h'), Amount(second, 'm'))
      case (Some(h), Some(m)) => Some(h * 3600 + m * 60)
      case _ => None
  }

  lemma DigitsHaveNoLetters(d: string, c: char)
    requires AllDigits(d) && !IsDigit(c)
    ensures c !in d
  {
    forall i | 0 <= i < |d| ensures d[i] != c {
      assert IsDigit(d[i]);
    }
  }

  /** A count with its unit reads back as the count, and holds no space. */
  lemma WithUnitRead(n: nat, unit: char)
    requires unit in "smh"
    ensures Amount(WithUnit(n, unit), unit) == Some(n)
    ensures ' ' !in WithUnit(n, unit)
  {
    var p := WithUnit(n, unit);
    assert p[..|p| - 1] == Dec(n);
    DecValue(n);
    DigitsHaveNoLetters(Dec(n), ' ');
  }

  /** A count does not read back under another unit. */
  lemma WithUnitOther(n: nat, unit: char, other: char)
    requires unit != other
    ensures Amount(WithUnit(n, unit), other) == None
  {
    var p := WithUnit(n, unit);
    assert p[|p| - 1] == unit;
  }

  /** Two space-free parts joined by a space read back as that pair. */
  lemma ReadPairText(p: string, q: string)
    requires ' ' !in p && ' ' !in q
    ensures ReadDuration(p + " " + q) == ReadPair(p, q)
  {
    SplitHead(p, q, ' ');
    SplitNone(q, ' ');
  }

  /** A session length as its text keeps it: exact below an hour, rounded down to a whole minute from an hour on. */
  function Rounded(secs: nat): nat
  {
    if secs < 3600 then secs else secs - secs % 60
  }

  /**
   * What a formatted session length says: the exact seconds below an hour,
   * and from an hour on the seconds rounded down to a whole minute.
   */
  lemma FormatDurationReadBack(secs: nat)
    ensures ReadDuration(FormatDuration(secs)) == Some(Rounded(secs))
  {
    if secs < 60 {
      SecondsReadBack(secs);
    } else if secs < 3600 {
      MinutesReadBack(secs);
    } else {
      HoursReadBack(secs);
    }
  }

  lemma SecondsReadBack(secs: nat)
    requires secs < 60
    ensures FormatDuration(secs) == WithUnit(secs, 's')
    ensures ReadDuration(FormatDuration(secs)) == Some(secs)
  {
    assert FormatDuration(secs) == WithUnit(secs, 's');
    WithUnitRead(secs, 's');
    SplitNone(WithUnit(secs, 's'), ' ');
  }

  lemma MinutesReadBack(secs: nat)
    requires 60 <= secs < 3600
    ensures FormatDuration(secs) == WithUnit(secs / 60, 'm') + " " + WithUnit(secs % 60, 's')
    ensures ReadDuration(FormatDuration(secs)) == Some(secs)
  {
    var m, s := secs / 60, secs % 60;
    MinutesText(secs, m, s);
    MinutesPairRead(m, s);
    MinutesSeconds(secs, m, s);
  }

  lemma HoursReadBack(secs: nat)
    requires 3600 <= secs
    ensures FormatDuration(secs) == WithUnit(secs / 3600, 'h') + " " + WithUnit((secs % 3600) / 60, 'm')
    ensures ReadDuration(FormatDuration(secs)) == Some(secs - secs % 60)
  {
    var h, m := secs / 3600, (secs % 3600) / 60;
    HoursText(secs, h, m);
    HoursPairRead(h, m);
    HoursMinutes(secs, h, m);
  }

  /** "Mm Ss" reads back as its seconds. */
  lemma MinutesPairRead(m: nat, s: nat)
    ensures ReadDuration(WithUnit(m, 'm') + " " + WithUnit(s, 's')) == Some(m * 60 + s)
  {
    var p, q := WithUnit(m, 'm'), WithUnit(s, 's');
    WithUnitRead(m, 'm');
    WithUnitRead(s, 's');
    ReadPairText(p, q);
    ReadMinutes(p, q, m, s);
  }

  /** "Hh Mm" reads back as its seconds. */
  lemma HoursPairRead(h: nat, m: nat)
    ensures ReadDuration(WithUnit(h, 'h') + " " + WithUnit(m, 'm')) == Some(h * 3600 + m * 60)
  {
    var p, q := WithUnit(h, 'h'), WithUnit(m, 'm');
    WithUnitRead(h, 'h');
    WithUnitRead(m, 'm');
    WithUnitOther(h, 'h', 'm');
    ReadPairText(p, q);
    ReadHours(p, q, h, m);
  }

  lemma MinutesText(secs: nat, m: nat, s: nat)
    requires 60 <= secs < 3600 && m == secs / 60 && s == secs % 60
    ensures FormatDuration(secs) == WithUnit(m, 'm') + " " + WithUnit(s, 's')
  {
  }

  lemma HoursText(secs: nat, h: nat, m: nat)
    requires 3600 <= secs && h == secs / 3600 && m == (secs % 3600) / 60
    ensures FormatDuration(secs) == WithUnit(h, 'h') + " " + WithUnit(m, 'm')
  {
  }

  lemma ReadMinutes(p: string, q: string, m: nat, s: nat)
    requires Amount(p, 'm') == Some(m) && Amount(q, 's') == Some(s)
    ensures ReadPair(p, q) == Some(m * 60 + s)
  {
  }

  lemma ReadHours(p: string, q: string, h: nat, m: nat)
    requires Amount(p, 'm') == None && Amount(p, 'h') == Some(h) && Amount(q, 'm') == Some(m)
    ensures ReadPair(p, q) == Some(h * 3600 + m * 60)
  {
  }

  lemma MinutesSeconds(secs: nat, m: nat, s: nat)
    requires m == secs / 60 && s == secs % 60
    ensures m * 60 + s == secs
  {
  }

  lemma HoursMinutes(secs: nat, h: nat, m: nat)
    requires h == secs / 3600 && m == (secs % 3600) / 60
    ensures h * 3600 + m * 60 == secs - secs % 60
  {
    var r := secs % 3600;
    assert secs == (secs / 3600) * 3600 + r;
    assert r == (r / 60) * 60 + r % 60;
    assert secs % 60 == r % 60 by {
      assert secs == ((secs / 3600) * 60 + r / 60) * 60 + r % 60;
    }
  }

  // ------------------------------------------------------------------
  // Reading the file

  /**
   * `parse_log_line`: fewer than five fields is no record; exactly five is
   * the legacy format; the duration comes from a non-empty seventh field.
   */
  function ParseLogLine(line: string): Option<LogEntry>
  {
    var parts := Split(line, ',');
    if |parts| < 5 then None
    else
      var isOldFormat := |parts| == 5;
      var deviceId := if isOldFormat then LEGACY_DEVICE_ID else parts[3];
      var action := if isOldFormat then parts[3] else parts[4];
      var count := if isOldFormat then LogRepository.ParseCount(parts[4]) else LogRepository.ParseCount(parts[5]);
      var duration := if |parts| >= 7 && parts[6] != "" then Some(parts[6]) else None;
      Some(LogEntry(parts[0], parts[1], parts[2], deviceId, action, count, duration, line))
  }

  /** The migration reads every line exactly as the repository's `find_all` does. */
  lemma ParseLogLineAgrees(line: string)
    ensures ParseLogLine(line) == LogRepository.DecodeLine(line)
  {
  }

  /** The records of the lines that parse, in line order. */
  function ParseAll(lines: seq<string>): (r: seq<LogEntry>)
    ensures |r| <= |lines|
  {
    if lines == [] then []
    else
      ParseAll(lines[..|lines| - 1]) +
      match ParseLogLine(lines[|lines| - 1]) { case Some(e) => [e] case None => [] }
  }

  /** Parsing the whole file gives the records `find_all` decodes. */
  lemma {:induction false} ParseAllAgrees(lines: seq<string>)
    ensures ParseAll(lines) == LogRepository.DecodeAll(lines)
  {
    if lines != [] {
      ParseAllAgrees(lines[..|lines| - 1]);
      ParseLogLineAgrees(lines[|lines| - 1]);
    }
  }

  /** `a.timestamp.cmp(&b.timestamp)`: oldest first. */
  const BY_TIME := SortOrder(ByTimestamp, true)

  // ------------------------------------------------------------------
  // Pairing connects with disconnects

  /** The `start_times` update for one record: a connect opens, a disconnect closes, anything else leaves it. */
  function Track(starts: map<string, string>, log: LogEntry): map<string, string>
  {
    if log.action == CONNECTED then starts[log.deviceId := log.timestamp]
    else if log.action == DISCONNECTED then starts - {log.deviceId}
    else starts
  }

  /** `start_times` after the given records. */
  function StartsAfter(logs: seq<LogEntry>): map<string, string>
  {
    if logs == [] then map[] else Track(StartsAfter(logs[..|logs| - 1]), logs[|logs| - 1])
  }

  function Lookup(starts: map<string, string>, id: string): Option<string>
  {
    if id in starts then Some(starts[id]) else None
  }

  /**
   * The session length of a disconnect given the time its session opened:
   * set only when there is an opening time, both times parse and the
   * difference is not negative.
   */
  function Fill(log: LogEntry, start: Option<string>, parseTime: string -> Option<int>): LogEntry
  {
    match start
    case None => log
    case Some(startText) =>
      match (parseTime(startText), parseTime(log.timestamp))
      case (Some(a), Some(b)) => if b - a >= 0 then log.(duration := Some(FormatDuration(b - a))) else log
      case _ => log
  }

  /**
   * The seconds from the opening time to the record's time, when there is
   * an opening time, both times read and the clock did not go backwards.
   */
  function Gap(log: LogEntry, start: Option<string>, parseTime: string -> Option<int>): Option<nat>
  {
    if start.Some? && parseTime(start.value).Some? && parseTime(log.timestamp).Some?
       && parseTime(log.timestamp).value >= parseTime(start.value).value
    then Some(parseTime(log.timestamp).value - parseTime(start.value).value)
    else None
  }

  /**
   * Filling touches only the duration. When there is a gap, the duration is
   * set to its text, which reads back as the gap (to the minute from an hour
   * on); in every other case the record is unchanged.
   */
  lemma FillReadBack(log: LogEntry, start: Option<string>, parseTime: string -> Option<int>)
    ensures Fill(log, start, parseTime).(duration := log.duration) == log
    ensures Gap(log, start, parseTime).None? ==> Fill(log, start, parseTime) == log
    ensures Gap(log, start, parseTime).Some? ==>
              var d := Gap(log, start, parseTime).value;
              Fill(log, start, parseTime).duration == Some(FormatDuration(d))
              && ReadDuration(FormatDuration(d)) == Some(Rounded(d))
  {
    if Gap(log, start, parseTime).Some? {
      FillSets(log, start, parseTime);
      FormatDurationReadBack(Gap(log, start, parseTime).value);
    }
  }

  /** With a gap, the record gets the gap's text as its duration. */
  lemma FillSets(log: LogEntry, start: Option<string>, parseTime: string -> Option<int>)
    requires Gap(log, start, parseTime).Some?
    ensures Fill(log, start, parseTime) == log.(duration := Some(FormatDuration(Gap(log, start, parseTime).value)))
  {
  }

  /** The records after the pass of `main`: disconnects filled in from `start_times`. */
  function Backfilled(logs: seq<LogEntry>, parseTime: string -> Option<int>): seq<LogEntry>
  {
    if logs == [] then []
    else
      var prefix := logs[..|logs| - 1];
      var log := logs[|logs| - 1];
      Backfilled(prefix, parseTime) +
      [if log.action == DISCONNECTED then Fill(log, Lookup(StartsAfter(prefix), log.deviceId), parseTime) else log]
  }

  /**
   * The open session of a device after some records: the time of its last
   * connect, unless a disconnect of the same device came after it.
   */
  function OpenSince(logs: seq<LogEntry>, id: string): Option<string>
  {
    if logs == [] then None
    else
      var log := logs[|logs| - 1];
      if log.deviceId == id && log.action == CONNECTED then Some(log.timestamp)
      else if log.deviceId == id && log.action == DISCONNECTED then None
      else OpenSince(logs[..|logs| - 1], id)
  }

  /** `start_times` holds exactly the open sessions, at their connect times. */
  lemma {:induction false} StartsAfterAreOpenSessions(logs: seq<LogEntry>, id: string)
    ensures Lookup(StartsAfter(logs), id) == OpenSince(logs, id)
  {
    if logs != [] {
      StartsAfterAreOpenSessions(logs[..|logs| - 1], id);
    }
  }

  /**
   * The pass keeps every record and every field but the duration, and fills
   * each disconnect from the latest connect of the same device that no
   * other disconnect closed in between.
   */
  lemma {:induction false} BackfilledAt(logs: seq<LogEntry>, parseTime: string -> Option<int>, i: nat)
    requires i < |logs|
    ensures |Backfilled(logs, parseTime)| == |logs|
    ensures Backfilled(logs, parseTime)[i] ==
      if logs[i].action == DISCONNECTED then Fill(logs[i], OpenSince(logs[..i], logs[i].deviceId), parseTime)
      else logs[i]
    ensures Backfilled(logs, parseTime)[i].(duration := logs[i].duration) == logs[i]
  {
    var prefix := logs[..|logs| - 1];
    BackfilledLength(prefix, parseTime);
    if i < |logs| - 1 {
      BackfilledAt(prefix, parseTime, i);
      assert prefix[..i] == logs[..i];
    } else {
      assert prefix == logs[..i];
      StartsAfterAreOpenSessions(prefix, logs[i].deviceId);
    }
  }

  lemma {:induction false} BackfilledLength(logs: seq<LogEntry>, parseTime: string -> Option<int>)
    ensures |Backfilled(logs, parseTime)| == |logs|
  {
    if logs != [] {
      BackfilledLength(logs[..|logs| - 1], parseTime);
    }
  }

  /** `process_disconnected`: closes the device's session and, if it can, sets the record's session length. */
  method ProcessDisconnected(log: LogEntry, startTimes: map<string, string>, parseTime: string -> Option<int>)
    returns (filled: LogEntry, remaining: map<string, string>)
    ensures remaining == startTimes - {log.deviceId}
    ensures filled == Fill(log, Lookup(startTimes, log.deviceId), parseTime)
    ensures filled.(duration := log.duration) == log
    ensures filled.duration != log.duration ==> log.deviceId in startTimes
  {
    filled := log;
    remaining := startTimes;
    if log.deviceId in startTimes {
      var startText := startTimes[log.deviceId];
      remaining := startTimes - {log.deviceId};
      var start := parseTime(startText);
      if start.Some? {
        var end := parseTime(log.timestamp);
        if end.Some? {
          var secs := end.value - start.value;
          if secs >= 0 {
            filled := log.(duration := Some(FormatDuration(secs)));
          }
        }
      }
    }
  }

  // ------------------------------------------------------------------
  // Writing the file back

  /** The seven-field line `main` writes; unlike `append`, the device is written as read. */
  function RenderLine(e: LogEntry): string
  {
    Join(RenderFields(e), ',')
  }

  /** The file `main` writes: one line per record. */
  function Render(logs: seq<LogEntry>): string
  {
    if logs == [] then "" else Render(logs[..|logs| - 1]) + RenderLine(logs[|logs| - 1]) + "\n"
  }

  /** The records `main` writes back for a file's text. */
  function Migrated(content: string, parseTime: string -> Option<int>): seq<LogEntry>
  {
    Backfilled(StableSort(BY_TIME, ParseAll(Lines(content))), parseTime)
  }

  /**
   * The rewritten records are the parsed records rearranged oldest first,
   * each differing from the record at its place in that order in the
   * duration at most.
   */
  lemma MigratedInTimeOrder(content: string, parseTime: string -> Option<int>)
    ensures var parsed := ParseAll(Lines(content));
            var sorted := StableSort(BY_TIME, parsed);
            var m := Migrated(content, parseTime);
            multiset(sorted) == multiset(parsed)
            && |sorted| == |parsed| && |m| == |parsed|
            && (forall i :: 0 <= i < |m| ==> m[i].(duration := sorted[i].duration) == sorted[i])
            && (forall i, j :: 0 <= i < j < |m| ==> CompareStr(m[i].timestamp, m[j].timestamp) != Greater)
  {
    var parsed := ParseAll(Lines(content));
    var sorted := StableSort(BY_TIME, parsed);
    StableSortPermutes(BY_TIME, parsed);
    StableSortSorted(BY_TIME, parsed);
    assert |sorted| == |parsed| by {
      assert |multiset(sorted)| == |multiset(parsed)|;
    }
    BackfilledOnlyDurations(sorted, parseTime);
    BackfilledInTimeOrder(sorted, parseTime);
  }

  lemma BackfilledOnlyDurations(logs: seq<LogEntry>, parseTime: string -> Option<int>)
    ensures var m := Backfilled(logs, parseTime);
            |m| == |logs| && forall i :: 0 <= i < |m| ==> m[i].(duration := logs[i].duration) == logs[i]
  {
    BackfilledLength(logs, parseTime);
    forall i | 0 <= i < |logs| ensures Backfilled(logs, parseTime)[i].(duration := logs[i].duration) == logs[i] {
      BackfilledAt(logs, parseTime, i);
    }
  }

  lemma BackfilledInTimeOrder(logs: seq<LogEntry>, parseTime: string -> Option<int>)
    requires Sorted(BY_TIME, logs)
    ensures var m := Backfilled(logs, parseTime);
            forall i, j :: 0 <= i < j < |m| ==> CompareStr(m[i].timestamp, m[j].timestamp) != Greater
  {
    BackfilledLength(logs, parseTime);
    var m := Backfilled(logs, parseTime);
    forall i, j | 0 <= i < j < |m| ensures CompareStr(m[i].timestamp, m[j].timestamp) != Greater {
      assert InOrder(BY_TIME, logs[i], logs[j]);
      assert BY_TIME.ascending && BY_TIME.key == ByTimestamp;
      assert CompareKeys(ByTimestamp, logs[i], logs[j]) == CompareStr(logs[i].timestamp, logs[j].timestamp);
      BackfilledAt(logs, parseTime, i);
      BackfilledAt(logs, parseTime, j);
    }
  }

  /** The pass of `main` over the sorted records, keeping `start_times` as it goes. */
  method FillSessions(logs: seq<LogEntry>, parseTime: string -> Option<int>) returns (updated: seq<LogEntry>)
    ensures updated == Backfilled(logs, parseTime)
  {
    var startTimes: map<string, string> := map[];
    updated := [];
    var i := 0;
    while i < |logs|
      invariant 0 <= i <= |logs|
      invariant updated == Backfilled(logs[..i], parseTime)
      invariant startTimes == StartsAfter(logs[..i])
    {
      var log := logs[i];
      assert logs[..i + 1][..i] == logs[..i];
      if log.action == CONNECTED {
        startTimes := startTimes[log.deviceId := log.timestamp];
      } else if log.action == DISCONNECTED {
        log, startTimes := ProcessDisconnected(log, startTimes, parseTime);
      }
      updated := updated + [log];
      i := i + 1;
    }
    assert logs[..i] == logs;
  }

  /** The writing loop of `main`: one seven-field line per record. */
  method WriteRecords(logs: seq<LogEntry>) returns (text: string)
    ensures text == Render(logs)
  {
    text := "";
    var j := 0;
    while j < |logs|
      invariant 0 <= j <= |logs|
      invariant text == Render(logs[..j])
    {
      assert logs[..j + 1][..j] == logs[..j];
      text := text + RenderLine(logs[j]) + "\n";
      j := j + 1;
    }
    assert logs[..j] == logs;
  }

  /**
   * `main`: with no file there is nothing to do; otherwise the file's
   * records are parsed, sorted oldest first, filled in one pass over a
   * start-time map, and written back. Returns the new file text and how
   * many records were processed.
   */
  method Migrate(file: Option<string>, parseTime: string -> Option<int>) returns (rewritten: Option<string>, processed: nat)
    ensures file.None? ==> rewritten.None? && processed == 0
    ensures file.Some? ==> rewritten == Some(Render(Migrated(file.value, parseTime)))
    ensures file.Some? ==> processed == |ParseAll(Lines(file.value))|
  {
    if file.None? {
      return None, 0;
    }
    var records := ParseAll(Lines(file.value));
    var logs := new LogEntry[|records|](i requires 0 <= i < |records| => records[i]);
    assert logs[..logs.Length] == records;
    SortInPlace(logs, logs.Length, BY_TIME);
    assert logs[..logs.Length] == StableSort(BY_TIME, records);
    assert logs[..] == logs[..logs.Length];
    ghost var sorted := logs[..];
    var updated := FillSessions(logs[..], parseTime);
    var text := WriteRecords(updated);
    StableSortPermutes(BY_TIME, records);
    BackfilledLength(sorted, parseTime);
    assert |sorted| == |records| by {
      assert |multiset(sorted)| == |multiset(records)|;
    }
    assert text == Render(Migrated(file.value, parseTime));
    rewritten := Some(text);
    processed := |updated|;
  }

  // ------------------------------------------------------------------
  // Reading the rewritten file

  /** A record every field of which can be written on one line and read back. */
  predicate Rewritable(e: LogEntry)
  {
    LogRepository.CleanField(e.timestamp) && LogRepository.CleanField(e.ip)
    && LogRepository.CleanField(e.device) && LogRepository.CleanField(e.deviceId)
    && LogRepository.CleanField(e.action)
    && (e.duration.Some? ==> LogRepository.CleanField(e.duration.value) && e.duration.value != "")
  }

  /** The seven fields of a rewritten line. */
  function RenderFields(e: LogEntry): seq<string>
  {
    [e.timestamp, e.ip, e.device, e.deviceId, e.action, Dec(e.count), e.duration.GetOr("")]
  }

  lemma RenderFieldsClean(e: LogEntry)
    requires Rewritable(e)
    ensures forall k :: 0 <= k < 7 ==> LogRepository.CleanField(RenderFields(e)[k])
  {
    DecIsPlain(e.count);
  }

  /** A rewritten line reads back as the record it was written from, legacy records now in the current format. */
  lemma RenderLineReadBack(e: LogEntry)
    requires Rewritable(e)
    ensures ParseLogLine(RenderLine(e)) == Some(e.(raw := RenderLine(e)))
  {
    RenderFieldsClean(e);
    SplitJoin(RenderFields(e), ',');
    ParseU32Dec(e.count);
  }

  /** A rewritten line is one line: no line break inside and no carriage return at its end. */
  lemma RenderLineWritable(e: LogEntry)
    requires Rewritable(e)
    ensures WritableLine(RenderLine(e))
  {
    RenderFieldsClean(e);
    JoinAvoids(RenderFields(e), ',', '\n');
    JoinAvoids(RenderFields(e), ',', '\r');
    var l := RenderLine(e);
    if |l| > 0 {
      assert l[|l| - 1] in l;
    }
  }

  /** The same records with each `raw` set to the line they were written as. */
  function WithRaw(logs: seq<LogEntry>): (r: seq<LogEntry>)
    ensures |r| == |logs|
  {
    if logs == [] then [] else WithRaw(logs[..|logs| - 1]) + [logs[|logs| - 1].(raw := RenderLine(logs[|logs| - 1]))]
  }

  /** Reading a rewritten file gives back the records written, in the order written. */
  lemma {:induction false} RenderReadBack(logs: seq<LogEntry>)
    requires forall k :: 0 <= k < |logs| ==> Rewritable(logs[k])
    ensures LineTerminated(Render(logs))
    ensures ParseAll(Lines(Render(logs))) == WithRaw(logs)
  {
    if logs != [] {
      var prefix, last := logs[..|logs| - 1], logs[|logs| - 1];
      RenderReadBack(prefix);
      RenderLineReadBack(last);
      RenderLineWritable(last);
      LinesAppend(Render(prefix), RenderLine(last));
      assert (Lines(Render(prefix)) + [RenderLine(last)])[..|Lines(Render(prefix))|] == Lines(Render(prefix));
    }
  }

  /** A session length is a non-empty field with no separator or line break. */
  lemma FormatDurationClean(secs: int)
    ensures LogRepository.CleanField(FormatDuration(secs)) && FormatDuration(secs) != ""
  {
    if secs < 0 {
      DecIsPlain(-secs);
    } else if secs < 60 {
      DecIsPlain(secs);
    } else if secs < 3600 {
      DecIsPlain(secs / 60);
      DecIsPlain(secs % 60);
    } else {
      DecIsPlain(secs / 3600);
      DecIsPlain((secs % 3600) / 60);
    }
  }

  /** A record read from a line without line breaks or carriage returns can be written back. */
  lemma ParsedRewritable(line: string)
    requires '\n' !in line && '\r' !in line
    ensures ParseLogLine(line).Some? ==> Rewritable(ParseLogLine(line).value)
  {
    SplitAvoids(line, ',', '\n');
    SplitAvoids(line, ',', '\r');
  }

  lemma {:induction false} ParseAllRewritable(lines: seq<string>)
    requires forall l :: l in lines ==> '\n' !in l && '\r' !in l
    ensures forall e :: e in ParseAll(lines) ==> Rewritable(e)
  {
    if lines != [] {
      ParseAllRewritable(lines[..|lines| - 1]);
      ParsedRewritable(lines[|lines| - 1]);
    }
  }

  /** Filling in a session length keeps a record writable. */
  lemma FillRewritable(log: LogEntry, start: Option<string>, parseTime: string -> Option<int>)
    requires Rewritable(log)
    ensures Rewritable(Fill(log, start, parseTime))
  {
    if start.Some? {
      var a, b := parseTime(start.value), parseTime(log.timestamp);
      if a.Some? && b.Some? {
        FormatDurationClean(b.value - a.value);
      }
    }
  }

  lemma BackfilledRewritable(logs: seq<LogEntry>, parseTime: string -> Option<int>)
    requires forall e :: e in logs ==> Rewritable(e)
    ensures forall k :: 0 <= k < |Backfilled(logs, parseTime)| ==> Rewritable(Backfilled(logs, parseTime)[k])
  {
    BackfilledLength(logs, parseTime);
    forall k | 0 <= k < |logs| ensures Rewritable(Backfilled(logs, parseTime)[k]) {
      BackfilledAt(logs, parseTime, k);
      FillRewritable(logs[k], OpenSince(logs[..k], logs[k].deviceId), parseTime);
    }
  }

  /**
   * A file without carriage returns, once migrated, reads back as the
   * migrated records in the order written, by this tool and by the
   * repository's reader alike.
   */
  lemma MigratedReadBack(content: string, parseTime: string -> Option<int>)
    requires '\r' !in content
    ensures var written := Render(Migrated(content, parseTime));
            ParseAll(Lines(written)) == WithRaw(Migrated(content, parseTime))
            && LogRepository.DecodeAll(Lines(written)) == WithRaw(Migrated(content, parseTime))
  {
    var lines := Lines(content);
    LinesAvoid(content, '\n');
    LinesAvoid(content, '\r');
    ParseAllRewritable(lines);
    var records := ParseAll(lines);
    var sorted := StableSort(BY_TIME, records);
    StableSortPermutes(BY_TIME, records);
    forall e | e in sorted ensures Rewritable(e) {
      assert e in multiset(records);
    }
    BackfilledRewritable(sorted, parseTime);
    RenderReadBack(Migrated(content, parseTime));
    ParseAllAgrees(Lines(Render(Migrated(content, parseTime))));
  }
}
