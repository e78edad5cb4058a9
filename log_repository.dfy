/**
 * `FileLogRepository`: the event log kept as comma-separated lines in one
 * text file. `append` writes one seven-field line, `find_all` reads every
 * line back and runs decode, filter, statistics, sort and pagination,
 * `clear` empties the file and `get_raw_content` returns it verbatim.
 *
 * The file is the field `file`: its whole text, or `None` when it cannot be
 * read. Lines are read back as Rust's `str::lines` splits them.
 */
module LogRepository {
  import opened Wrappers
  import opened Text
  import opened LogDomain
  import opened LogSort
  import opened LogPipeline

  // ------------------------------------------------------------------
  // Writing a record

  /** How many characters of a device string without a parenthesised part are kept. */
  const DEVICE_CHARS: nat := 30

  /** The first `n` characters of `s` (all of them when there are fewer). */
  function Prefix(s: string, n: nat): (r: string)
    ensures |r| == if |s| <= n then |s| else n
    ensures r == s[..|r|]
  {
    s[..if |s| <= n then |s| else n]
  }

  /**
   * `shorten_device`: the text between the first '(' and the first ')' after
   * it; without such a pair, the first 30 characters.
   */
  function ShortenDevice(device: string): string
  {
    match Find(device, '(')
    case None => Prefix(device, DEVICE_CHARS)
    case Some(start) =>
      match Find(device[start..], ')')
      case None => Prefix(device, DEVICE_CHARS)
      case Some(end) =>
        assert device[start..][0] == '(';
        device[start + 1..start + end]
  }

  /** With a '(' and a later ')', the device is cut to the text strictly between the first '(' and the first ')' after it. */
  lemma ShortenBracketed(device: string, i: nat, j: nat)
    requires i < j < |device|
    requires device[i] == '(' && '(' !in device[..i]
    requires device[j] == ')' && ')' !in device[i..j]
    ensures ShortenDevice(device) == device[i + 1..j]
  {
    FindFirst(device, '(', i);
    assert device[i..][..j - i] == device[i..j];
    FindFirst(device[i..], ')', j - i);
  }

  /** With no ')' after any '(', the device is cut to its first 30 characters. */
  lemma ShortenUnbracketed(device: string)
    requires forall i, j :: 0 <= i < j < |device| && device[i] == '(' ==> device[j] != ')'
    ensures ShortenDevice(device) == Prefix(device, DEVICE_CHARS)
  {
    var f := Find(device, '(');
    if f.Some? {
      var start := f.value;
      forall k | 0 <= k < |device[start..]| ensures device[start..][k] != ')' {
        if k > 0 {
          assert device[start..][k] == device[start + k];
        }
      }
      assert ')' !in device[start..];
    }
  }

  /** `replace(",", " ")`. */
  function Sanitize(s: string): (r: string)
    ensures |r| == |s|
  {
    seq(|s|, i requires 0 <= i < |s| => if s[i] == ',' then ' ' else s[i])
  }

  /** Sanitising turns every comma into a space, changes nothing else, and leaves comma-free text alone. */
  lemma SanitizeRemovesCommas(s: string)
    ensures ',' !in Sanitize(s)
    ensures forall i :: 0 <= i < |s| && s[i] == ',' ==> Sanitize(s)[i] == ' '
    ensures forall i :: 0 <= i < |s| && s[i] != ',' ==> Sanitize(s)[i] == s[i]
    ensures ',' !in s ==> Sanitize(s) == s
  {
    var r := Sanitize(s);
    forall i | 0 <= i < |r| ensures r[i] != ',' {
    }
  }

  /** The device text as `append` writes it. */
  function StoredDevice(device: string): string
  {
    Sanitize(ShortenDevice(device))
  }

  /** The seven fields `append` writes, duration `""` when there is none. */
  function Fields(e: LogEntry): seq<string>
  {
    [e.timestamp, e.ip, StoredDevice(e.device), e.deviceId, e.action, Dec(e.count), e.duration.GetOr("")]
  }

  /** The line `append` writes for a record, without its line break. */
  function EncodeLine(e: LogEntry): string
  {
    Join(Fields(e), ',')
  }

  // ------------------------------------------------------------------
  // Reading a record back

  /** `parts[k].parse::<u32>().unwrap_or(0)`. */
  function ParseCount(s: string): (n: U32)
    ensures ParseU32(s).Some? ==> n == ParseU32(s).value
    ensures ParseU32(s).None? ==> n == 0
  {
    ParseU32(s).GetOr(0)
  }

  /**
   * The `filter_map` closure of `find_all`: six or more fields are the
   * current format (duration only from a non-empty seventh field), exactly
   * five the legacy one, anything shorter is dropped.
   */
  function DecodeLine(line: string): (r: Option<LogEntry>)
    ensures r.None? <==> |Split(line, ',')| < 5
    ensures r.Some? ==> r.value.raw == line
    ensures r.Some? && r.value.duration.Some? ==> r.value.duration.value != ""
    ensures r.Some? ==> (r.value.deviceId == LEGACY_DEVICE_ID <== |Split(line, ',')| == 5)
    ensures r.Some? && |Split(line, ',')| < 7 ==> r.value.duration.None?
  {
    var parts := Split(line, ',');
    if |parts| >= 6 then
      Some(LogEntry(parts[0], parts[1], parts[2], parts[3], parts[4], ParseCount(parts[5]),
        if |parts| >= 7 && parts[6] != "" then Some(parts[6]) else None, line))
    else if |parts| == 5 then
      Some(LogEntry(parts[0], parts[1], parts[2], LEGACY_DEVICE_ID, parts[3], ParseCount(parts[4]), None, line))
    else None
  }

  /** Round trip of the legacy format: time, IP, device, action and count, read with device id "N/A" and no duration. */
  lemma DecodeLegacyLine(t: string, ip: string, d: string, a: string, n: U32)
    requires ',' !in t && ',' !in ip && ',' !in d && ',' !in a
    ensures var line := Join([t, ip, d, a, Dec(n)], ',');
            DecodeLine(line) == Some(LogEntry(t, ip, d, LEGACY_DEVICE_ID, a, n, None, line))
  {
    DecIsPlain(n);
    SplitJoin([t, ip, d, a, Dec(n)], ',');
    ParseU32Dec(n);
  }

  /** Round trip of the six-field format: the fields in order, read with no duration. */
  lemma DecodeSixFieldLine(t: string, ip: string, d: string, id: string, a: string, n: U32)
    requires ',' !in t && ',' !in ip && ',' !in d && ',' !in id && ',' !in a
    ensures var line := Join([t, ip, d, id, a, Dec(n)], ',');
            DecodeLine(line) == Some(LogEntry(t, ip, d, id, a, n, None, line))
  {
    DecIsPlain(n);
    SplitJoin([t, ip, d, id, a, Dec(n)], ',');
    ParseU32Dec(n);
  }

  /** Fields after the seventh are ignored: lines agreeing on their first seven fields decode alike but for `raw`. */
  lemma DecodeIgnoresExtraFields(l1: string, l2: string)
    requires |Split(l1, ',')| >= 7 && |Split(l2, ',')| >= 7
    requires Split(l1, ',')[..7] == Split(l2, ',')[..7]
    ensures DecodeLine(l1).value.(raw := "") == DecodeLine(l2).value.(raw := "")
  {
    var p1, p2 := Split(l1, ','), Split(l2, ',');
    FieldsAgree(p1, p2, 0); FieldsAgree(p1, p2, 1); FieldsAgree(p1, p2, 2); FieldsAgree(p1, p2, 3);
    FieldsAgree(p1, p2, 4); FieldsAgree(p1, p2, 5); FieldsAgree(p1, p2, 6);
  }

  lemma FieldsAgree(p1: seq<string>, p2: seq<string>, k: nat)
    requires k < 7 <= |p1| && 7 <= |p2| && p1[..7] == p2[..7]
    ensures p1[k] == p2[k]
  {
    assert p1[k] == p1[..7][k] && p2[k] == p2[..7][k];
  }

  /** The records of the lines that decode, in line order. */
  function DecodeAll(lines: seq<string>): (r: seq<LogEntry>)
    ensures |r| <= |lines|
  {
    if lines == [] then []
    else
      DecodeAll(lines[..|lines| - 1]) +
      match DecodeLine(lines[|lines| - 1]) { case Some(e) => [e] case None => [] }
  }

  /** Decoding more lines appends the records of the new line. */
  lemma DecodeAllSnoc(lines: seq<string>, line: string)
    ensures DecodeAll(lines + [line]) ==
      DecodeAll(lines) + match DecodeLine(line) { case Some(e) => [e] case None => [] }
  {
    assert (lines + [line])[..|lines|] == lines;
  }

  /** No field of a writable record holds a separator or a line break. */
  predicate CleanField(s: string)
  {
    ',' !in s && '\n' !in s && '\r' !in s
  }

  /**
   * A record whose text fields are clean, whose device has no line break
   * and whose duration, if any, is a non-empty clean text.
   */
  predicate Writable(e: LogEntry)
  {
    CleanField(e.timestamp) && CleanField(e.ip) && CleanField(e.deviceId) && CleanField(e.action)
    && '\n' !in e.device && '\r' !in e.device
    && (e.duration.Some? ==> CleanField(e.duration.value) && e.duration.value != "")
  }

  /** The record `find_all` reads back for one that was appended. */
  function Stored(e: LogEntry): LogEntry
  {
    e.(device := StoredDevice(e.device), raw := EncodeLine(e))
  }

  lemma StoredDeviceClean(device: string)
    requires '\n' !in device && '\r' !in device
    ensures CleanField(StoredDevice(device))
  {
    var s := ShortenDevice(device);
    ShortenAvoids(device, '\n');
    ShortenAvoids(device, '\r');
    SanitizeRemovesCommas(s);
    SanitizeAvoids(s, '\n');
    SanitizeAvoids(s, '\r');
  }

  /** Shortening keeps only characters of the device string. */
  lemma ShortenAvoids(device: string, c: char)
    requires c !in device
    ensures c !in ShortenDevice(device)
  {
    match Find(device, '(')
    case None =>
    case Some(start) =>
      match Find(device[start..], ')')
      case None =>
      case Some(end) =>
        forall k | start + 1 <= k < start + end ensures device[k] != c {
          assert device[k] in device;
        }
  }

  /** Sanitising introduces no character but a space. */
  lemma SanitizeAvoids(s: string, c: char)
    requires c !in s && c != ' '
    ensures c !in Sanitize(s)
  {
    forall k | 0 <= k < |s| ensures Sanitize(s)[k] != c {
      assert s[k] in s;
    }
  }


  lemma FieldsClean(e: LogEntry)
    requires Writable(e)
    ensures forall k :: 0 <= k < 7 ==> CleanField(Fields(e)[k])
  {
    StoredDeviceClean(e.device);
    DecIsPlain(e.count);
  }

  /** Round trip: decoding the line `append` writes gives the record back, with its device as stored. */
  lemma EncodeDecode(e: LogEntry)
    requires Writable(e)
    ensures DecodeLine(EncodeLine(e)) == Some(Stored(e))
  {
    var parts := Fields(e);
    FieldsClean(e);
    SplitJoin(parts, ',');
    ParseU32Dec(e.count);
  }

  /** The written line is one line: no line break inside and no carriage return at its end. */
  lemma EncodeLineWritable(e: LogEntry)
    requires Writable(e)
    ensures WritableLine(EncodeLine(e))
  {
    FieldsClean(e);
    JoinAvoids(Fields(e), ',', '\n');
    JoinAvoids(Fields(e), ',', '\r');
    var l := EncodeLine(e);
    if |l| > 0 {
      assert l[|l| - 1] in l;
    }
  }

  /**
   * Appending a writable record to a file that ends in a line break adds
   * exactly that record, as stored, after the records already there.
   */
  lemma AppendAddsOneRecord(content: string, e: LogEntry)
    requires LineTerminated(content) && Writable(e)
    ensures DecodeAll(Lines(content + EncodeLine(e) + "\n")) == DecodeAll(Lines(content)) + [Stored(e)]
  {
    EncodeLineWritable(e);
    LinesAppend(content, EncodeLine(e));
    DecodeAllSnoc(Lines(content), EncodeLine(e));
    EncodeDecode(e);
  }

  // ------------------------------------------------------------------
  // The query

  /** The statistics `find_all` reports for the filtered records, in file order. */
  function Stats(filtered: seq<LogEntry>): LogStats
  {
    var (active, last) := LastActivity(filtered);
    LogStats(|Distinct(Ips(filtered))|, |Distinct(DeviceIds(filtered))|, active, last)
  }

  /** What `find_all` answers when the file cannot be read. */
  function ReadFailure(p: LogQuery): QueryResult
  {
    QueryResult([], LogMetadata(0, 1, p.pageSize, 0), LogStats(0, 0, 0, "-"))
  }

  /** `find_all` as a function of the file text and the query. */
  function Query(file: Option<string>, p: LogQuery): QueryResult
  {
    match file
    case None => ReadFailure(p)
    case Some(content) =>
      var filtered := SearchFilter(DecodeAll(Lines(content)), p.q);
      var sorted := StableSort(OrderOf(p.sortBy, p.order), filtered);
      QueryResult(Paginate(sorted, p.page, p.pageSize), Metadata(|sorted|, p), Stats(filtered))
  }

  /**
   * What a query answer holds: at most a page of records, in the requested
   * order, each decoded from the file and matching the search; the total is
   * the number of matching records; the page number is echoed; the
   * statistics count the distinct IPs and device ids of the matches, and
   * report the count and time of the last matching record in file order,
   * or "-" and 0 when nothing matched.
   */
  lemma QueryMeaning(content: string, p: LogQuery)
    ensures var r := Query(Some(content), p);
            var decoded := DecodeAll(Lines(content));
            var filtered := SearchFilter(decoded, p.q);
            |r.entries| <= p.pageSize
            && (forall e :: e in r.entries ==> e in decoded && (p.q.Some? ==> Matches(e, ToLower(p.q.value))))
            && r.metadata.total == |filtered|
            && r.metadata.page == p.page
            && Sorted(OrderOf(p.sortBy, p.order), r.entries)
            && r.stats.uniqueIps == |set e | e in filtered :: e.ip| <= r.metadata.total
            && r.stats.uniqueDeviceIds == |set e | e in filtered :: e.deviceId| <= r.metadata.total
            && (filtered == [] <==> r.stats.lastActivity == "-" && r.stats.activeUsers == 0 && r.metadata.total == 0)
            && (filtered != [] ==> r.stats.lastActivity == filtered[|filtered| - 1].timestamp
                                   && r.stats.activeUsers == filtered[|filtered| - 1].count)
  {
    QueryParts(content, p);
    var filtered := SearchFilter(DecodeAll(Lines(content)), p.q);
    StatsMeaning(filtered);
    PageOfFiltered(OrderOf(p.sortBy, p.order), DecodeAll(Lines(content)), p.q, p.page, p.pageSize);
    PageSorted(OrderOf(p.sortBy, p.order), filtered, p.page, p.pageSize);
  }

  /** The three parts of a query answer over a readable file. */
  lemma QueryParts(content: string, p: LogQuery)
    ensures var filtered := SearchFilter(DecodeAll(Lines(content)), p.q);
            var sorted := StableSort(OrderOf(p.sortBy, p.order), filtered);
            && Query(Some(content), p).entries == Paginate(sorted, p.page, p.pageSize)
            && Query(Some(content), p).metadata == Metadata(|sorted|, p)
            && Query(Some(content), p).stats == Stats(filtered)
  {
  }

  /**
   * The statistics of the matches: the numbers of different IPs and device
   * ids among them, and the count and timestamp of the last one.
   */
  lemma StatsMeaning(filtered: seq<LogEntry>)
    ensures Stats(filtered).uniqueIps == |set e | e in filtered :: e.ip| <= |filtered|
    ensures Stats(filtered).uniqueDeviceIds == |set e | e in filtered :: e.deviceId| <= |filtered|
    ensures filtered == [] ==> Stats(filtered) == LogStats(0, 0, 0, "-")
    ensures filtered != [] ==> Stats(filtered).lastActivity == filtered[|filtered| - 1].timestamp
                               && Stats(filtered).activeUsers == filtered[|filtered| - 1].count
  {
    StatsBound(filtered);
    DistinctFields(filtered);
  }

  /** A page of the sorted records is itself in the requested order. */
  lemma PageSorted(o: SortOrder, filtered: seq<LogEntry>, page: nat, pageSize: nat)
    ensures Sorted(o, Paginate(StableSort(o, filtered), page, pageSize))
  {
    var sorted := StableSort(o, filtered);
    StableSortSorted(o, filtered);
    PageIsSlice(sorted, page, pageSize);
    var start := PageStart(page, pageSize);
    if start < |sorted| {
      SortedSlice(o, sorted, start, start + |Paginate(sorted, page, pageSize)|);
    }
  }

  /**
   * A page of the sorted matching records holds only decoded records that
   * match the search, and sorting keeps the number of matches.
   */
  lemma PageOfFiltered(o: SortOrder, decoded: seq<LogEntry>, q: Option<string>, page: nat, pageSize: nat)
    ensures var filtered := SearchFilter(decoded, q);
            var sorted := StableSort(o, filtered);
            |sorted| == |filtered|
            && forall e :: e in Paginate(sorted, page, pageSize) ==>
                 e in decoded && (q.Some? ==> Matches(e, ToLower(q.value)))
  {
    var filtered := SearchFilter(decoded, q);
    var sorted := StableSort(o, filtered);
    StableSortPermutes(o, filtered);
    assert |sorted| == |filtered| by {
      assert |multiset(sorted)| == |multiset(filtered)|;
    }
    PageIsSlice(sorted, page, pageSize);
    forall e | e in Paginate(sorted, page, pageSize)
      ensures e in decoded && (q.Some? ==> Matches(e, ToLower(q.value)))
    {
      assert e in sorted;
      assert e in multiset(filtered);
      if q.Some? {
        KeepMember(decoded, ToLower(q.value), e);
      }
    }
  }

  /** The distinct counts are bounded by the matches, and an empty match reports no activity. */
  lemma StatsBound(filtered: seq<LogEntry>)
    ensures Stats(filtered).uniqueIps <= |filtered| && Stats(filtered).uniqueDeviceIds <= |filtered|
    ensures filtered == [] <==> Stats(filtered) == LogStats(0, 0, 0, "-")
  {
    DistinctBound(Ips(filtered));
    DistinctBound(DeviceIds(filtered));
  }

  /** Reading a file that was just cleared finds nothing. */
  lemma QueryClearedFile(p: LogQuery)
    ensures Query(Some(""), p).entries == []
    ensures Query(Some(""), p).metadata.total == 0
    ensures Query(Some(""), p).stats == LogStats(0, 0, 0, "-")
  {
    assert Lines("") == [];
    DistinctBound([]);
  }

  // ------------------------------------------------------------------
  // The repository

  /** The log file behind the repository; `None` when it cannot be read. */
  class FileLogRepository {
    var file: Option<string>

    /**
     * `new`: creates the file, empty, when it does not exist yet.
     * `existing` is `None` for a missing file, `Some(None)` for a file
     * that exists but cannot be read as text, and `Some(Some(text))` otherwise.
     */
    constructor(existing: Option<Option<string>>)
      ensures existing.None? ==> file == Some("")
      ensures existing.Some? ==> file == existing.value
    {
      match existing
      case None => file := Some("");
      case Some(contents) => file := contents;
    }

    /**
     * `append`: one line with the record's seven fields, at the end of the
     * file. A file that cannot be read as text stays unreadable: its bytes
     * are kept and the line is added after them.
     */
    method Append(e: LogEntry)
      modifies this
      ensures old(file).Some? ==> file == Some(old(file).value + EncodeLine(e) + "\n")
      ensures old(file).None? ==> file.None?
    {
      var line := Join([e.timestamp, e.ip, Sanitize(ShortenDevice(e.device)), e.deviceId, e.action,
                        Dec(e.count), e.duration.GetOr("")], ',');
      if file.Some? {
        file := Some(file.value + line + "\n");
      }
    }

    /** `clear`: the file is emptied. */
    method Clear()
      modifies this
      ensures file == Some("")
    {
      file := Some("");
    }

    /** `get_raw_content`: the file text, or an error when it cannot be read. */
    method GetRawContent() returns (r: Result<string, string>)
      ensures r.Ok? <==> file.Some?
      ensures r.Ok? ==> r.value == file.value
    {
      match file
      case None => r := Err("unreadable");
      case Some(content) => r := Ok(content);
    }

    /**
     * `find_all`: decodes every line into a vector, narrows it in place to
     * the matches, takes the statistics, sorts it in place and cuts the page.
     */
    method FindAll(p: LogQuery) returns (r: QueryResult)
      ensures r == Query(file, p)
    {
      if file.None? {
        return ReadFailure(p);
      }
      var records := DecodeAll(Lines(file.value));
      var logs := new LogEntry[|records|](i requires 0 <= i < |records| => records[i]);
      assert logs[..] == records;
      var n := logs.Length;
      if p.q.Some? {
        n := RetainMatching(logs, ToLower(p.q.value));
      }
      assert logs[..n] == SearchFilter(records, p.q) by {
        if p.q.None? {
          assert logs[..n] == logs[..];
        }
      }
      var stats := Stats(logs[..n]);
      ghost var filtered := logs[..n];
      var o := OrderOf(p.sortBy, p.order);
      SortInPlace(logs, n, o);
      assert logs[..n] == StableSort(o, filtered);
      r := QueryResult(Paginate(logs[..n], p.page, p.pageSize), Metadata(n, p), stats);
    }
  }
}
