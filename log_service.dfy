/**
 * `fetch_logs`, the older reader of the log file. It runs the same filter,
 * sort and pagination as the repository, but its decoder takes only lines of
 * exactly six fields (with no duration) or exactly five (legacy), and its
 * statistics have no device-id count.
 */
module LogService {
  import opened Wrappers
  import opened Text
  import opened LogDomain
  import opened LogSort
  import opened LogPipeline
  import LogRepository

  /** The statistics `fetch_logs` reports. */
  datatype ServiceStats = ServiceStats(uniqueIps: nat, activeUsers: U32, lastActivity: string)

  /** What `fetch_logs` returns. */
  datatype ServiceResult = ServiceResult(entries: seq<LogEntry>, metadata: LogMetadata, stats: ServiceStats)

  /** The `filter_map` closure of `fetch_logs`: exactly six fields, or exactly five for the legacy format. */
  function ServiceDecodeLine(line: string): (r: Option<LogEntry>)
    ensures r.Some? <==> |Split(line, ',')| in {5, 6}
    ensures r.Some? ==> r.value.raw == line && r.value.duration.None?
  {
    var parts := Split(line, ',');
    if |parts| == 6 then
      Some(LogEntry(parts[0], parts[1], parts[2], parts[3], parts[4],
        LogRepository.ParseCount(parts[5]), None, line))
    else if |parts| == 5 then
      Some(LogEntry(parts[0], parts[1], parts[2], LEGACY_DEVICE_ID, parts[3],
        LogRepository.ParseCount(parts[4]), None, line))
    else None
  }

  /** The records of the lines the service decodes, in line order. */
  function ServiceDecodeAll(lines: seq<string>): (r: seq<LogEntry>)
    ensures |r| <= |lines|
  {
    if lines == [] then []
    else
      ServiceDecodeAll(lines[..|lines| - 1]) +
      match ServiceDecodeLine(lines[|lines| - 1]) { case Some(e) => [e] case None => [] }
  }

  /** On five- and six-field lines the service decodes exactly as the repository does. */
  lemma ServiceAgreesOnShortLines(line: string)
    requires |Split(line, ',')| in {5, 6}
    ensures ServiceDecodeLine(line) == LogRepository.DecodeLine(line)
  {
  }

  /** Every line the repository appends has seven fields, so the service drops it. */
  lemma ServiceDropsAppendedLine(e: LogEntry)
    requires LogRepository.Writable(e)
    ensures |Split(LogRepository.EncodeLine(e), ',')| == 7
    ensures ServiceDecodeLine(LogRepository.EncodeLine(e)) == None
  {
    LogRepository.FieldsClean(e);
    SplitJoin(LogRepository.Fields(e), ',');
  }

  /** A record appended by the repository never shows up in `fetch_logs`. */
  lemma ServiceIgnoresAppend(content: string, e: LogEntry)
    requires LineTerminated(content) && LogRepository.Writable(e)
    ensures ServiceDecodeAll(Lines(content + LogRepository.EncodeLine(e) + "\n")) == ServiceDecodeAll(Lines(content))
  {
    var line := LogRepository.EncodeLine(e);
    LogRepository.EncodeLineWritable(e);
    LinesAppend(content, line);
    ServiceDropsAppendedLine(e);
    assert (Lines(content) + [line])[..|Lines(content)|] == Lines(content);
  }

  /** The statistics of the filtered records, in file order. */
  function Stats(filtered: seq<LogEntry>): ServiceStats
  {
    var (active, last) := LastActivity(filtered);
    ServiceStats(|Distinct(Ips(filtered))|, active, last)
  }

  /** What `fetch_logs` answers when the file cannot be read. */
  function ReadFailure(p: LogQuery): ServiceResult
  {
    ServiceResult([], LogMetadata(0, 1, p.pageSize, 0), ServiceStats(0, 0, "-"))
  }

  /** `fetch_logs` as a function of the file text and the query. */
  function ServiceQuery(file: Option<string>, p: LogQuery): ServiceResult
  {
    match file
    case None => ReadFailure(p)
    case Some(content) => ServiceAnswer(ServiceDecodeAll(Lines(content)), p)
  }

  /** Filter, statistics, sort and page over the decoded records. */
  function ServiceAnswer(decoded: seq<LogEntry>, p: LogQuery): ServiceResult
  {
    var filtered := SearchFilter(decoded, p.q);
    var sorted := StableSort(OrderOf(p.sortBy, p.order), filtered);
    ServiceResult(Paginate(sorted, p.page, p.pageSize), Metadata(|sorted|, p), Stats(filtered))
  }

  /**
   * What a service answer holds: at most a page of records without
   * duration, in the requested order, each decoded from the file and
   * matching the search; the total counts the matching records; the page
   * number is echoed; the statistics count the distinct IPs and report the
   * last matching record in file order, or "-" and 0 when nothing matched.
   */
  lemma ServiceQueryMeaning(content: string, p: LogQuery)
    ensures var r := ServiceQuery(Some(content), p);
            var decoded := ServiceDecodeAll(Lines(content));
            var filtered := SearchFilter(decoded, p.q);
            |r.entries| <= p.pageSize
            && (forall e :: e in r.entries ==>
                  e in decoded && e.duration.None? && (p.q.Some? ==> Matches(e, ToLower(p.q.value))))
            && r.metadata.total == |filtered|
            && r.metadata.page == p.page
            && Sorted(OrderOf(p.sortBy, p.order), r.entries)
            && r.stats.uniqueIps == |set e | e in filtered :: e.ip| <= r.metadata.total
            && (filtered == [] <==> r.stats.lastActivity == "-" && r.stats.activeUsers == 0 && r.metadata.total == 0)
            && (filtered != [] ==> r.stats.lastActivity == filtered[|filtered| - 1].timestamp
                                   && r.stats.activeUsers == filtered[|filtered| - 1].count)
  {
    var decoded := ServiceDecodeAll(Lines(content));
    assert ServiceQuery(Some(content), p) == ServiceAnswer(decoded, p);
    NoneHasDuration(Lines(content));
    ServiceAnswerMeaning(decoded, p);
  }

  /** No record the service decodes has a duration. */
  lemma NoneHasDuration(lines: seq<string>)
    ensures forall e :: e in ServiceDecodeAll(lines) ==> e.duration.None?
  {
    forall e | e in ServiceDecodeAll(lines) ensures e.duration.None? {
      DecodedHaveNoDuration(lines, e);
    }
  }

  /** What the pipeline answers over records decoded without a duration. */
  lemma ServiceAnswerMeaning(decoded: seq<LogEntry>, p: LogQuery)
    requires forall e :: e in decoded ==> e.duration.None?
    ensures var r := ServiceAnswer(decoded, p);
            var filtered := SearchFilter(decoded, p.q);
            |r.entries| <= p.pageSize
            && (forall e :: e in r.entries ==>
                  e in decoded && e.duration.None? && (p.q.Some? ==> Matches(e, ToLower(p.q.value))))
            && r.metadata.total == |filtered|
            && r.metadata.page == p.page
            && Sorted(OrderOf(p.sortBy, p.order), r.entries)
            && r.stats.uniqueIps == |set e | e in filtered :: e.ip| <= r.metadata.total
            && (filtered == [] <==> r.stats.lastActivity == "-" && r.stats.activeUsers == 0 && r.metadata.total == 0)
            && (filtered != [] ==> r.stats.lastActivity == filtered[|filtered| - 1].timestamp
                                   && r.stats.activeUsers == filtered[|filtered| - 1].count)
  {
    var filtered := SearchFilter(decoded, p.q);
    var o := OrderOf(p.sortBy, p.order);
    StatsMeaning(filtered);
    LogRepository.PageOfFiltered(o, decoded, p.q, p.page, p.pageSize);
    LogRepository.PageSorted(o, filtered, p.page, p.pageSize);
  }

  /** The service statistics: the number of different IPs among the matches, and the count and time of the last one. */
  lemma StatsMeaning(filtered: seq<LogEntry>)
    ensures Stats(filtered).uniqueIps == |set e | e in filtered :: e.ip| <= |filtered|
    ensures filtered == [] ==> Stats(filtered) == ServiceStats(0, 0, "-")
    ensures filtered != [] ==> Stats(filtered).lastActivity == filtered[|filtered| - 1].timestamp
                               && Stats(filtered).activeUsers == filtered[|filtered| - 1].count
  {
    DistinctBound(Ips(filtered));
    DistinctIps(filtered);
  }

  lemma {:induction false} DecodedHaveNoDuration(lines: seq<string>, e: LogEntry)
    requires e in ServiceDecodeAll(lines)
    ensures e.duration.None?
  {
    if lines != [] && e in ServiceDecodeAll(lines[..|lines| - 1]) {
      DecodedHaveNoDuration(lines[..|lines| - 1], e);
    }
  }

  /** `fetch_logs`, reading the file text given: decode, narrow in place, stats, sort in place, page. */
  method FetchLogs(file: Option<string>, p: LogQuery) returns (r: ServiceResult)
    ensures r == ServiceQuery(file, p)
  {
    if file.None? {
      return ReadFailure(p);
    }
    var records := ServiceDecodeAll(Lines(file.value));
    var logs := new LogEntry[|records|](i requires 0 <= i < |records| => records[i]);
    assert logs[..] == records;
    var n := logs.Length;
    if p.q.Some? {
      n := RetainMatching(logs, ToLower(p.q.value));
    }
    assert logs[..n] == SearchFilter(records, p.q) by {
      if p.q.None? {
        assert logs[..n] == logs[..];
      }
    }
    var stats := Stats(logs[..n]);
    ghost var filtered := logs[..n];
    var o := OrderOf(p.sortBy, p.order);
    SortInPlace(logs, n, o);
    assert logs[..n] == StableSort(o, filtered);
    r := ServiceResult(Paginate(logs[..n], p.page, p.pageSize), Metadata(n, p), stats);
  }
}
