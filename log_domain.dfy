/**
 * The records of the event log and the shapes of a query and its answer, as
 * `LogEntry`, `LogQuery`, `LogMetadata` and `LogStats` are used by the
 * repository, the older log service and the migration tool.
 */
module LogDomain {
  import opened Wrappers
  import opened Text

  /**
   * One connect or disconnect event decoded from a stored line: when, from
   * where, which client, what happened, how many clients were connected
   * right after it, how long the session lasted (disconnects only) and the
   * line it was read from.
   */
  datatype LogEntry = LogEntry(
    timestamp: string,
    ip: string,
    device: string,
    deviceId: string,
    action: string,
    count: U32,
    duration: Option<string>,
    raw: string)

  /** A read request: 1-based page, page size, optional search text, sort field and direction. */
  datatype LogQuery = LogQuery(page: nat, pageSize: nat, q: Option<string>, sortBy: string, order: string)

  /** Where a page sits in the whole filtered result. */
  datatype LogMetadata = LogMetadata(total: nat, page: nat, pageSize: nat, totalPages: nat)

  /** Summary of the filtered records, taken in file order. */
  datatype LogStats = LogStats(uniqueIps: nat, uniqueDeviceIds: nat, activeUsers: U32, lastActivity: string)

  /** The answer to one query: the page of records, its metadata and the statistics. */
  datatype QueryResult = QueryResult(entries: seq<LogEntry>, metadata: LogMetadata, stats: LogStats)

  const CONNECTED := "CONNECTED"
  const DISCONNECTED := "DISCONNECTED"
  /** The device id that legacy five-field lines are read with. */
  const LEGACY_DEVICE_ID := "N/A"
}
