# mesh-vpn-portal: presence registry and event log, modelled in Dafny

This project models the sequential core of the mesh-vpn-portal server:

- **Event log store** (`FileLogRepository`, module `LogRepository`). `append` writes one seven-field CSV line per event. `find_all` reads the file back and runs decode, search filter, statistics, stable sort and pagination. `clear` empties the file and `get_raw_content` returns it.
- **Older reader** (`fetch_logs`, module `LogService`). It runs the same pipeline, but its decoder accepts only five- or six-field lines.
- **Presence registry** (`AppState`, module `State`). This is a map from device id to open connection:
  - `join` and `leave` update the map, log the event and publish user metrics;
  - readers count and list the map without the admin dashboard's own socket;
  - the uptime is split into hours, minutes and seconds.
- **Duration back-fill migration** (`migrate_logs`, module `MigrateLogs`):
  - it parses every line, sorts by timestamp and pairs each DISCONNECTED record with the open CONNECTED record of its device id;
  - it writes the length of the session into the DISCONNECTED record and rewrites the file.
- **Connection identity** (`extract_connection_info`, module `WebSocket`). The client address comes from `X-Forwarded-For`, then `X-Real-IP`, then the socket peer. The device comes from the User-Agent, and the device id from the query or a random anonymous id.

Shared pieces:
- `Text` models Rust's `str::split`, `str::lines`, `trim`, `find`, decimal formatting and `u32` parsing.
- `LogSort` holds the comparator of both readers, a reference stable insertion sort and an in-place array sort proved equal to it.
- `LogPipeline` holds the filter, distinct counts and pagination.

How the outside world appears:
- The log file is its whole text, or `None` when it cannot be read. Lines are read back as `str::lines` splits them.
- Clocks are instants passed in as parameters.
- The random anonymous id and the socket peer address are parameters.
- The event logger and the users broadcast channel are sequences that record what was sent to them.
- `crate::utils::format_duration` and chrono's timestamp parser are function parameters.

Notes on the code:
- The stored device label is not limited to 30 characters. A parenthesised part is kept whole, whatever its length (`src/repositories/log_repository.rs:31-34`).
- `leave` formats its duration with `crate::utils::format_duration`. That is a different function from the three-band formatter of the migration, and it is not part of this model.
- There is no top-actor ranking and no time-bucketed count in the code, so neither is modelled.
- `fetch_logs` builds records without a duration field. It decodes only five- or six-field lines, so it drops every seven-field line `append` now writes (`LogService.ServiceIgnoresAppend`).

## Model

| member | source | states |
|---|---|---|
| Text.Find | src/repositories/log_repository.rs:31-32 | `find` gives the first position of the character, and nothing exactly when it does not occur |
| Text.FindFirst | src/repositories/log_repository.rs:31-32 | the first occurrence of a character is what `find` returns |
| Text.SplitJoin | src/repositories/log_repository.rs:65-75 | splitting the comma-joined fields, none holding a comma, gives back the fields |
| Text.SplitFirst | src/api/websocket.rs:56 | the first piece of `split` is the longest prefix without the separator, followed by the separator or the end |
| Text.LinesAppend | src/repositories/log_repository.rs:65-75 | after a file of complete lines, writing one more line and a line break adds exactly that line to what `lines()` yields |
| Text.ContainsIff | src/repositories/log_repository.rs:143-149 | `contains` holds exactly when the needle occurs at some position |
| Text.TrimSlice | src/api/websocket.rs:56 | `trim` returns a slice of the input with only white space cut from either end |
| Text.CompareStrTransitive | src/repositories/log_repository.rs:166-179 | the lexicographic order of strings is transitive |
| Text.DecValue | src/bin/migrate_logs.rs:19-27 | the decimal text of a number denotes that number |
| Text.ParseU32Dec | src/repositories/log_repository.rs:119 | parsing the decimal text of a `u32` gives it back |
| LogRepository.ShortenBracketed | src/repositories/log_repository.rs:30-35 | with the first '(' at i and the first ')' after it at j, the shortened device is exactly the text strictly between them |
| LogRepository.ShortenUnbracketed | src/repositories/log_repository.rs:30-37 | when no ')' follows any '(', the shortened device is the first 30 characters (the whole string when shorter) |
| LogRepository.ShortenDevice | src/repositories/log_repository.rs:30-37 | `shorten_device`; its meaning is stated by `ShortenBracketed` and `ShortenUnbracketed`, and `StoredDeviceClean` shows the stored form is a clean field |
| LogRepository.SanitizeRemovesCommas | src/repositories/log_repository.rs:50 | after `replace(",", " ")` every comma has become a space and no comma remains; every other character is unchanged, and comma-free text is left alone |
| LogRepository.StoredDeviceClean | src/repositories/log_repository.rs:49-50 | the device text `append` writes holds no comma and no line break when the device had none |
| LogRepository.DecodeLine | src/repositories/log_repository.rs:104-136 | a line is dropped exactly when it has fewer than five fields; a kept record's raw text is the line; five or six fields give no duration, and a duration, when present, is never empty; five fields give device id "N/A" |
| LogRepository.DecodeLegacyLine | src/repositories/log_repository.rs:123-133 | a five-field line `time,ip,device,action,count` reads back as those fields in those places, with device id "N/A", the count as a `u32` and no duration |
| LogRepository.DecodeSixFieldLine | src/repositories/log_repository.rs:107-122 | a six-field line `time,ip,device,device_id,action,count` reads back as those fields in order, with no duration |
| LogRepository.DecodeIgnoresExtraFields | src/repositories/log_repository.rs:107-122 | two lines that agree on their first seven fields decode to the same record except for the raw text |
| LogRepository.DecodeAllSnoc | src/repositories/log_repository.rs:102-138 | decoding one more line appends that line's record, if any, after the records of the earlier lines |
| LogRepository.EncodeDecode | src/repositories/log_repository.rs:49-75 | a record with clean fields reads back from its appended line with every field equal, the device in its shortened, comma-free form |
| LogRepository.EncodeLine | src/repositories/log_repository.rs:65-75 | the line `append` writes; `EncodeDecode` reads it back, `EncodeLineWritable` shows it is one line |
| LogRepository.EncodeLineWritable | src/repositories/log_repository.rs:65-75 | the appended line holds no line break and does not end in '\r', so `lines()` reads it back whole |
| LogRepository.AppendAddsOneRecord | src/repositories/log_repository.rs:41-78 | appending to a file of complete lines adds exactly one record, the stored form of the appended one, after all earlier records |
| LogRepository.FileLogRepository.constructor | src/repositories/log_repository.rs:18-28 | a missing file is created empty; an existing file is kept as it is, readable or not |
| LogRepository.FileLogRepository.Append | src/repositories/log_repository.rs:41-78 | the text of a readable file becomes the old text followed by the encoded line and a line break; a file that cannot be read as text stays unreadable |
| LogRepository.FileLogRepository.Clear | src/repositories/log_repository.rs:214-218 | the file is empty afterwards |
| LogRepository.FileLogRepository.GetRawContent | src/repositories/log_repository.rs:220-223 | returns the file text verbatim, or an error when it cannot be read |
| LogRepository.FileLogRepository.FindAll | src/repositories/log_repository.rs:80-212 | decodes, narrows in place, computes statistics, sorts the array in place and pages; the answer equals the functional pipeline `Query` |
| LogRepository.QueryMeaning | src/repositories/log_repository.rs:80-212 | every returned record is decoded from the file and matches the search; at most a page is returned, in the requested order; the total counts the matching records; the page is echoed; the distinct counts are the numbers of different IPs and device ids among the matches; with no match the statistics are "-" and 0; otherwise they are the count and timestamp of the last match in file order |
| LogRepository.Query | src/repositories/log_repository.rs:80-212 | `find_all` as a function; `QueryMeaning` states what its answer holds and `FindAll` is proved to compute it |
| LogRepository.PageSorted | src/repositories/log_repository.rs:165-195 | a page cut from the sorted matches is itself in the requested order |
| LogRepository.PageOfFiltered | src/repositories/log_repository.rs:141-195 | sorting keeps the number of matches, and every record on a page is a decoded, matching record |
| LogRepository.StatsBound | src/repositories/log_repository.rs:152-163 | the distinct IP and device-id counts are at most the number of matches; statistics are (0, 0, 0, "-") exactly when nothing matched |
| LogRepository.StatsMeaning | src/repositories/log_repository.rs:152-163 | the distinct IP and device-id counts are the numbers of different values among the matches; no match gives (0, 0, 0, "-"); otherwise the count and timestamp are those of the last match in file order |
| LogRepository.QueryClearedFile | src/repositories/log_repository.rs:214-218 | after `clear` a query returns no records, total 0 and empty statistics |
| LogPipeline.KeepMember | src/repositories/log_repository.rs:141-150 | a record is kept exactly when it was in the input and the lower-cased query occurs in one of its five text fields |
| LogPipeline.KeepConcat | src/repositories/log_repository.rs:143-149 | the filter works record by record, so kept records stay in input order |
| LogPipeline.KeepSubMultiset | src/repositories/log_repository.rs:143-149 | the filter only removes records |
| LogPipeline.EmptySearchKeepsAll | src/repositories/log_repository.rs:141-150 | an empty search string keeps every record |
| LogPipeline.SearchFilter | src/repositories/log_repository.rs:141-150 | the search step: no query keeps every record; otherwise `KeepMember` and `KeepConcat` give its meaning |
| LogPipeline.MatchesIgnoresUnsearched | src/repositories/log_repository.rs:143-149 | count, duration and raw line never decide whether a record matches |
| LogPipeline.RetainMatching | src/repositories/log_repository.rs:143-149 | in-place `retain` on an array: its first n cells become exactly the matching records in order |
| LogPipeline.DistinctBound | src/repositories/log_repository.rs:153-158 | a distinct count is at most the number of values, and zero only for none |
| LogPipeline.DistinctFieldsPermutation | src/repositories/log_repository.rs:152-166 | distinct IP and device-id counts do not depend on record order, so computing them before the sort gives the same numbers |
| LogPipeline.DistinctFields | src/repositories/log_repository.rs:153-158 | the distinct counts are the sizes of the sets of IPs and of device ids of the records, as the `HashSet`s collect them |
| LogPipeline.TotalPagesCeiling | src/repositories/log_repository.rs:184 | for a positive page size, `total_pages` is the fewest pages that hold every record |
| LogPipeline.TotalPages | src/repositories/log_repository.rs:184 | `total_pages`; `TotalPagesCeiling` gives its meaning for a positive page size |
| LogPipeline.PageIsSlice | src/repositories/log_repository.rs:185-195 | the page is the slice from `(max(page,1)-1)*page_size` of at most `page_size` records, cut short only by the end; it is empty when the start is at or past the end |
| LogPipeline.PageStart | src/repositories/log_repository.rs:185 | where a page starts; `PageIsSlice` and `PagePlacement` give its meaning |
| LogPipeline.PagePlacement | src/repositories/log_repository.rs:185-195 | record i appears on page i / page_size + 1 at position i % page_size |
| LogPipeline.PagesInRange | src/repositories/log_repository.rs:184-195 | a page is non-empty exactly when its number is between 1 and `total_pages` (or 0, read as page 1, with records) |
| LogPipeline.Paginate | src/repositories/log_repository.rs:187-195 | a page never holds more than `page_size` records |
| LogPipeline.Metadata | src/repositories/log_repository.rs:183-204 | the metadata echoes the page and page size, counts the total, and has enough pages for every record |
| LogSort.KeyNamed | src/repositories/log_repository.rs:167-174 | an unrecognised `sort_by` sorts by timestamp, and only then |
| LogSort.SortedDirection | src/repositories/log_repository.rs:166-179 | on records sorted by the query's order, with `order == "asc"` no key compares greater than a later one; with any other order none compares smaller |
| LogSort.CompareEqual | src/repositories/log_repository.rs:166-179 | the comparator says Equal exactly when the selected keys are equal |
| LogSort.CompareAntisymmetric | src/repositories/log_repository.rs:175-179 | swapping the arguments reverses the comparison |
| LogSort.InOrderTransitive | src/repositories/log_repository.rs:166-179 | the order the comparator induces is transitive |
| LogSort.StableSortPermutes | src/repositories/log_repository.rs:166-180 | the sort is a permutation of its input |
| LogSort.StableSortSorted | src/repositories/log_repository.rs:166-180 | the output is ordered by the comparator |
| LogSort.StableSortKeepsTies | src/repositories/log_repository.rs:166-180 | records with equal keys keep their input order |
| LogSort.StableSortUnique | src/repositories/log_repository.rs:166-180 | any ordered output that keeps ties in input order equals the reference sort, so it is what a stable `sort_by` returns |
| LogSort.StableSort | src/repositories/log_repository.rs:166-180 | the reference for `sort_by`; `StableSortPermutes`, `StableSortSorted`, `StableSortKeepsTies` and `StableSortUnique` give its meaning |
| LogSort.InsertLast | src/repositories/log_repository.rs:166-180 | one in-place insertion step: the prefix becomes the reference insertion of the next record; the rest is untouched |
| LogSort.SortInPlace | src/repositories/log_repository.rs:166-180 | sorting the first n cells in place yields the reference stable sort of them and leaves the other cells alone |
| LogService.ServiceDecodeLine | src/services/log_service.rs:17-45 | a line is kept exactly when it has five or six fields; the record has no duration and its raw text is the line |
| LogService.ServiceAgreesOnShortLines | src/services/log_service.rs:19-44 | on five- and six-field lines the older decoder agrees with the repository's |
| LogService.ServiceDropsAppendedLine | src/services/log_service.rs:21-43 | every line `append` writes has seven fields, so the older decoder drops it |
| LogService.ServiceIgnoresAppend | src/services/log_service.rs:17-45 | appending a record leaves what `fetch_logs` decodes unchanged |
| LogService.DecodedHaveNoDuration | src/services/log_service.rs:22-40 | no record the older reader decodes has a duration |
| LogService.ServiceQueryMeaning | src/services/log_service.rs:7-105 | returned records come from the file, match the search and have no duration; at most a page, in the requested order; the page is echoed; the total counts matches; the distinct IP count is the number of different IPs among the matches; with no match the statistics are "-" and 0, otherwise the count and timestamp of the last match in file order |
| LogService.ServiceQuery | src/services/log_service.rs:7-105 | `fetch_logs` as a function; `ServiceQueryMeaning` states what its answer holds and `FetchLogs` is proved to compute it |
| LogService.ServiceAnswerMeaning | src/services/log_service.rs:47-105 | over records decoded without a duration: at most a page of matching records in the requested order, the total of matches, the page echoed, the distinct IP count, and the last match's count and time or "-" and 0 |
| LogService.StatsMeaning | src/services/log_service.rs:59-66 | the distinct IP count is the number of different IPs among the matches; no match gives (0, 0, "-"); otherwise the count and timestamp of the last match in file order |
| LogService.FetchLogs | src/services/log_service.rs:7-105 | narrows and sorts an array in place, then pages; the answer equals the functional pipeline, with the read-failure answer for an unreadable file |
| State.AppState.constructor | src/state.rs:35-56 | the registry starts empty, nothing logged, nothing published |
| State.AppState.Join | src/state.rs:58-79 | the id's entry is inserted or replaced and nothing else changes; size grows by one only for a new id; the returned count is the new size; CONNECTED is logged with that count and no duration; metrics are published |
| State.AppState.Leave | src/state.rs:81-102 | the id's entry, if any, is removed and nothing else changes; the count is the remaining size; DISCONNECTED is logged with a duration exactly when the id was present |
| State.AsU32 | src/state.rs:69 | `len() as u32` is the length itself below 2^32 |
| State.ElapsedSecs | src/state.rs:86-87 | the whole seconds between two instants, rounded down |
| State.UserIdsCount | src/state.rs:166-179 | the users are every connection except the dashboard's, one fewer than the map size exactly when the dashboard is connected |
| State.UserCountAtMostActive | src/state.rs:105-107 | the user count is at most `get_active_count`, and one less exactly when the dashboard is connected |
| State.AppState.ActiveCount | src/state.rs:105-107 | `get_active_count`: the map size as `u32` (`AsU32`); `Join` and `Leave` return it and `UserCountAtMostActive` relates it to the user count |
| State.AppState.CurrentUserMetrics | src/state.rs:166-179 | `active_users == total_users` |
| State.AppState.GetActiveUsers | src/state.rs:181-189 | lists each connection that is not the dashboard's exactly once, and nothing else |
| State.UptimeParts | src/state.rs:114-117 | `hrs*3600 + mins*60 + secs == uptime`, with minutes and seconds below 60 |
| State.UptimePartsUnique | src/state.rs:150-153 | these are the only such hours, minutes and seconds |
| State.UptimeTextMeaning | src/state.rs:150-154 | the uptime text shows the hours, and the minutes and seconds below 60, that make up the uptime |
| State.UptimeText | src/state.rs:150-154 | the `"{}h {}m {}s"` text; `UptimeTextMeaning` gives its meaning |
| State.AppState.Uptime | src/state.rs:150-154 | the whole seconds since start (`ElapsedSecs`) as uptime text |
| State.ReplayIsLastJoin | src/state.rs:58-102 | after any run of joins and leaves, a device is connected exactly when its last call was a join, with that join's connection, filed under its own id |
| MigrateLogs.FormatDurationReadBack | src/bin/migrate_logs.rs:19-27 | a formatted length reads back as the exact seconds below an hour, and as the seconds rounded down to whole minutes from an hour on |
| MigrateLogs.FormatDuration | src/bin/migrate_logs.rs:19-27 | the three-band formatter; `FormatDurationReadBack` and `FormatDurationClean` give its meaning |
| MigrateLogs.SecondsReadBack | src/bin/migrate_logs.rs:20-21 | below a minute the text is "Ns", which reads back as exactly those seconds |
| MigrateLogs.MinutesReadBack | src/bin/migrate_logs.rs:22-23 | below an hour the text is "Mm Ss" with the whole minutes and the remaining seconds, which reads back as exactly those seconds |
| MigrateLogs.HoursReadBack | src/bin/migrate_logs.rs:24-25 | from an hour on the text is "Hh Mm" with the whole hours and the remaining whole minutes, which reads back as the seconds rounded down to a minute |
| MigrateLogs.FormatDurationClean | src/bin/migrate_logs.rs:19-27 | a formatted length is never empty and holds no comma or line break, so it survives the rewrite |
| MigrateLogs.ParseLogLineAgrees | src/bin/migrate_logs.rs:79-108 | the migration parser decodes every line exactly as the repository does |
| MigrateLogs.ParseAllAgrees | src/bin/migrate_logs.rs:37-40 | so the migration parses a file into the repository's records |
| MigrateLogs.ParseLogLine | src/bin/migrate_logs.rs:79-108 | `parse_log_line`; `ParseLogLineAgrees` shows it decodes every line as the repository does |
| MigrateLogs.StartsAfterAreOpenSessions | src/bin/migrate_logs.rs:45-60 | the start-time map after a prefix of the records holds, for each id, the time of its last CONNECTED not yet closed by a DISCONNECTED |
| MigrateLogs.BackfilledAt | src/bin/migrate_logs.rs:49-60 | only DISCONNECTED records change, only in their duration, and the new duration comes from the open session of the id before them |
| MigrateLogs.ProcessDisconnected | src/bin/migrate_logs.rs:110-122 | the id's start time is removed whether or not the times parse; the record is filled from the id's open session; only its duration can change, and only when the id had a start time |
| MigrateLogs.FillReadBack | src/bin/migrate_logs.rs:110-122 | only the duration changes; when there is a start time, both times read and the difference is not negative (`Gap`), the duration is the text of that difference, which reads back as the difference (to the minute from an hour on); otherwise the record is unchanged |
| MigrateLogs.FillSets | src/bin/migrate_logs.rs:110-122 | with a gap, the record gets the text of the gap as its duration and nothing else |
| MigrateLogs.Fill | src/bin/migrate_logs.rs:110-122 | the duration step of `process_disconnected`; `FillReadBack` gives its meaning |
| MigrateLogs.FillSessions | src/bin/migrate_logs.rs:45-60 | the loop over the start-time map computes the back-filled records |
| MigrateLogs.WriteRecords | src/bin/migrate_logs.rs:63-73 | writes every record as a seven-field line, in order |
| MigrateLogs.Migrate | src/bin/migrate_logs.rs:29-77 | a missing file is left alone; otherwise the file is rewritten with the back-filled records in timestamp order, and the count is the number of parsed lines |
| MigrateLogs.MigratedInTimeOrder | src/bin/migrate_logs.rs:43-60 | the output is a permutation of the parsed records, as many of them, in non-decreasing timestamp order, each differing from the sorted record only in its duration |
| MigrateLogs.BackfilledOnlyDurations | src/bin/migrate_logs.rs:49-60 | pairing changes no field except the duration, and no record count |
| MigrateLogs.RenderLineReadBack | src/bin/migrate_logs.rs:66-72 | a rewritten line of a record with clean fields parses back to the same record, its raw text being that line |
| MigrateLogs.RenderReadBack | src/bin/migrate_logs.rs:63-73 | the rewritten file parses back to the written records, in order |
| MigrateLogs.MigratedReadBack | src/bin/migrate_logs.rs:29-77 | both the migration parser and the repository read the rewritten file back as the migrated records |
| WebSocket.DeviceIsUserAgent | src/api/websocket.rs:38-42 | the device is the User-Agent when it is present and visible text, otherwise "Unknown Device"; it is always visible text |
| WebSocket.DeviceIdChoice | src/api/websocket.rs:45-50 | the `device_id` parameter is taken verbatim; without it the id is "anon-" and a decimal that reads back as the random number |
| WebSocket.AnonIdReadBack | src/api/websocket.rs:46-50 | an anonymous id is "anon-" followed by the decimal of its number |
| WebSocket.AnonIdsDiffer | src/api/websocket.rs:46-50 | different random numbers give different anonymous ids |
| WebSocket.ForwardedClientMeaning | src/api/websocket.rs:53-56 | the client is the text before the first comma with surrounding white space removed: no comma, no white space at either end, and only white space around it in that first entry |
| WebSocket.ForwardedClientFirstHop | src/api/websocket.rs:56 | proxies appended after the first comma never change the client |
| WebSocket.ForwardedClientSingle | src/api/websocket.rs:56 | a single clean address is returned unchanged |
| WebSocket.AddressPrecedence | src/api/websocket.rs:52-63 | a readable `X-Forwarded-For` wins, then `X-Real-IP` verbatim, then the peer address |
| WebSocket.ExtractConnectionInfo | src/api/websocket.rs:32-66 | `extract_connection_info`; `AddressPrecedence`, `DeviceIsUserAgent` and `DeviceIdChoice` give its meaning |
| WebSocket.ForwardedClient | src/api/websocket.rs:53-56 | the client taken from `X-Forwarded-For`; `ForwardedClientMeaning`, `ForwardedClientFirstHop` and `ForwardedClientSingle` give its meaning |

## Left out

- Concurrency is not modelled: the write mutex, the registry mutex, the broadcast channels and the async socket loops. The logger and the users channel are sequences of what was sent to them.
- I/O errors other than an unreadable file are not modelled. `FileLogRepository.Append` and `Clear` always succeed on the text model, and so does writing the migrated file.
- `None` stands for a file that exists but cannot be read as text. A file deleted after `new` is not modelled; `append` would create it again.
- `Text.ToLower` lower-cases ASCII letters only. Rust's `to_lowercase` also maps other scripts, which can change a string's length.
- `LogPipeline.TotalPages` computes the f64 ceiling as integer ceiling division. For a zero page size it gives what the f64 cast gives: 0 for no records, `usize::MAX` otherwise. `PageStart` does not model overflow of `(page-1)*page_size` in `usize`.
- The order `get_active_users` lists users in follows `HashMap` iteration, which is unspecified. `State.AppState.GetActiveUsers` promises every user once, in any order.
- `State.AsU32` models the `as u32` truncation. The lemmas about counts hold for fewer than 2^32 connections.
- `crate::utils::format_duration`, which `leave` uses, is not part of this model. It is a parameter of `AppState`.
- CPU and RAM sampling through sysinfo, and the one-decimal float formatting of their readings, are not modelled.
- chrono's `DateTime::parse_from_str` is a parameter: a partial map from timestamp text to seconds.
- The random `u32` of an anonymous id and the socket peer address are parameters.
- HTTP headers are a map from lower-case name to the first value's bytes. `HeaderMap`'s case-insensitive lookup and repeated headers are not modelled.
- The migration's console messages are not modelled. Neither is the error when the file exists but cannot be read; in `MigrateLogs.Migrate`, `None` stands for a missing file.
- MigrateLogs.MigratedReadBack: stated only for files without '\r'. A '\r' that ends a line is dropped by `lines()`, so such a file does not read back unchanged.
- LogRepository.EncodeDecode: stated only for records whose text fields hold no comma or line break and whose duration is not empty. Other records do not read back; that is a property of the CSV format.
- State.UserCountAtMostActive: stated only for fewer than 2^32 connections. At 2^32 the `as u32` count wraps to a small number.
