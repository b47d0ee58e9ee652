# scrape-youtube-playlist, modelled in Dafny

The tool saves a table of videos for each target playlist. It works on one
playlist at a time, in four steps:

1. It reads the playlist's membership entries, each a video ID with the time
   the video was added ("addList"). A target ending in `.csv` names a local
   file; any other target is listed through the remote API.
2. It fetches the details of those videos, in requests of at most 50 IDs.
3. It merges the membership entries into the detail records. A membership
   whose video returned no details becomes a stub record.
4. It writes the merged records to `{playlist_name}_{YYYYmmdd_HHMMSS}.csv`.
   The columns are the first record's keys.

This project models those four steps for a single playlist. It proves what
each step does, and what the whole run does.

| file | module | what it holds |
|---|---|---|
| `wrappers.dfy` | `Wrappers` | `Option` |
| `records.dfy` | `Records` | membership entries; the per-video dictionaries (`Detail`/`Stub`), with their key order and lookup |
| `membership_file.dfy` | `MembershipFile` | reading membership rows from a CSV file, filtered by the header's width |
| `detail_batches.dfy` | `DetailBatches` | cutting the ID list into requests, shaping answered items, skipping failed requests |
| `reconciler.dfy` | `Reconciler` | the merge loop as written, a loop-free reference description of its result, and the proof that the two agree |
| `naming.dfy` | `Naming` | routing `.csv` targets to files; the timestamped output name |
| `exporter.dfy` | `Exporter` | creating the output file; the dictionary writer: the header from the first record, the lines, and the errors it raises |
| `worker.dfy` | `Worker` | one playlist's run from end to end |

The outside world comes in as parameters:
- the file system is `files: string -> Option<Rows>`, where `None` means the file is missing;
- the paged remote listing is `remote`;
- the video-details endpoint is `api`, where `None` means the call raised;
- each `time.time()` reading is an opaque `Instant`. A detail record's reading comes with the `api` answer it was shaped from (`Fetched.at`). A stub's reading comes from `clock`, indexed by the membership that created it;
- `datetime.now()` is `now`;
- whether `open(filename, "w")` can create a file of a given name is `creatable: string -> bool`. A name the file system rejects, such as one holding a `/` from the playlist name, makes `open` raise, and then no file exists.

Video IDs in the merge are a type parameter, because the merge only compares
them for equality.

When no detail record arrives, the code appends no stubs at all. `flag` is
raised only inside the scan of the detail list, so with an empty list it stays
`False` and nothing is appended (`src/main.py:154-170`). The merged list is
then empty, and `save_to_file` raises on `data[0]` (`src/main.py:136`). If
`open` succeeded, that leaves an empty file; if `open` raised first
(`src/main.py:135`), there is no file at all. The model follows this code, not the reading that
every membership then becomes a stub. `Reconcile`, `Worker.NoDetailsEmptyFile`
and `Worker.RunSucceeds` state this behaviour.

## Model

| member | source | states |
|---|---|---|
| Reconciler.FindId | src/main.py:156-160 | the inner scan's stopping point: the first record with the ID, no earlier record has it, and `None` exactly when no record has it |
| Reconciler.Reconcile | src/main.py:153-170 | no detail records give an empty result; the detail records keep their positions and differ at most in "addList"; at most one record is appended per membership, and every appended record is a stub with an "addList" |
| Reconciler.MergePass | src/main.py:155-170 | one outer pass with the flag and the `break` updates the first record with the ID; it appends a stub only when the list is non-empty and has no match |
| Reconciler.ReconcileLoop | src/main.py:153-170 | the nested loop, which appends to the list it is scanning, computes the membership-by-membership merge |
| Reconciler.ReconcileIsExpected | src/main.py:153-170 | for all inputs, the merged list equals the loop-free description: every detail record in place, then one stub per first mention of an ID that no detail record carries, in membership order, stamped with the clock reading of that mention |
| Reconciler.DetailAddList | src/main.py:156-160 | the first detail record with an ID gets the "addList" of the LAST membership naming it; any later duplicate record, and any record no membership names, keeps what it had |
| Reconciler.MembershipCovered | src/main.py:154-170 | when some detail record arrived, every membership's video is in the merged list, and its first record there holds the last "addList" given for that video |
| Reconciler.StubsAreNew | src/main.py:161-170 | every stub is for a video that a membership names and that no detail record has, and no two stubs share a video, so repeated unmatched IDs give one stub |
| Reconciler.MergedIdsDistinct | src/main.py:154-170 | when the detail records carry pairwise different videos, so does the merged list |
| Reconciler.MembershipExactlyOnce | src/main.py:154-170 | with at least one detail record and pairwise different detail videos, every membership's video is carried by exactly one merged record, which holds the last "addList" given for it |
| MembershipFile.ReadMembershipFile | src/main.py:81-99 | a missing file, an empty file and a header-only file give no entries; otherwise there are fewer entries than rows |
| MembershipFile.ReadRows | src/main.py:83-99 | the reading loop, including the early exit on a too-narrow row, yields the entries of the filter description |
| MembershipFile.AcceptRowsMembers | src/main.py:87-93 | with a header of at least two columns, an entry is read exactly when some data row has the header's width and starts with that video ID and "addList" |
| MembershipFile.AcceptRowsAppend | src/main.py:88-93 | with a header of at least two columns, the filter keeps row order: reading `a + b` gives the entries of `a` followed by those of `b` |
| MembershipFile.NarrowHeaderYieldsNothing | src/main.py:87-93 | with a header of fewer than two columns, no entry is ever read, because the first row of the header's width raises when it is indexed (`row[0]` for width 0, `row[1]` for width 1) |
| MembershipFile.MalformedRowSkipped | src/main.py:88-93 | a row of the wrong width between two good rows is dropped, and the good rows are kept in order |
| DetailBatches.BatchCount | src/main.py:105 | the number of requests is the least count whose 50-ID capacity covers the list |
| DetailBatches.Batches | src/main.py:105-108 | there is one request per step of `range(0, n, 50)`, and each carries between 1 and 50 IDs |
| DetailBatches.BatchesFull | src/main.py:105-108 | every request except the last carries exactly 50 IDs |
| DetailBatches.BatchesFlatten | src/main.py:105-108 | the requests, concatenated, are the ID list in order: no ID is lost, repeated or reordered |
| DetailBatches.BatchBoundary | src/main.py:105-108 | 51 IDs give a request of 50 and a request of 1; no IDs give no request |
| DetailBatches.Shape | src/main.py:112-124 | an item gives a detail record exactly when every key read unconditionally is present; the record has no "addList", its ID, title, upload time, duration, channel ID, channel name and request time are the item's fields, and a missing view count becomes "0" |
| DetailBatches.ShapeAll | src/main.py:110-124 | an answered request contributes the shaped items in order, up to the first malformed item, which ends its contribution |
| DetailBatches.FetchDetails | src/main.py:101-131 | the loop stepping `i` by 50 gathers the contributions of the requests in order |
| DetailBatches.GatheredAreDetails | src/main.py:112-124 | every fetched record is a detail record without an "addList" |
| DetailBatches.FailedRequestIsSkipped | src/main.py:110-130 | a request that raises contributes exactly what an empty answer would, and the other requests' records are unaffected |
| DetailBatches.AllFailedGathersNothing | src/main.py:103-131 | when every request raises, the detail list is empty |
| Naming.RouteFile | src/main.py:143-146 | every name with the `.csv` suffix goes to the file reader; any target routed to a file ends in `.csv`; any other target is passed to the remote listing unchanged |
| Naming.DigitsRoundTrip | src/main.py:173 | a zero-padded decimal field reads back as the number it was written from |
| Naming.StampRoundTrip | src/main.py:173 | the `%Y%m%d_%H%M%S` stamp has 15 characters, with `_` at position 8, and gives back every field of the moment it was written from |
| Naming.OutputNameRoundTrip | src/main.py:173-174 | the file name is the playlist name, `_`, the stamp and `.csv`, and the name and the stamp can be read back from it |
| Naming.OutputNameInjective | src/main.py:173-174 | two saves share a file name only for the same playlist name in the same second |
| Exporter.FirstMisfit | src/main.py:136-138 | the first record with a key outside the header: all earlier records fit, and `None` exactly when every record fits |
| Exporter.Save | src/main.py:133-138 | the save fails with `OpenFailed`, writing nothing, exactly when the file cannot be created. Otherwise it is the writer's result (`Exporter.Export`), and it succeeds exactly when the data is non-empty and every record's keys are among the first record's |
| Exporter.Export | src/main.py:136-138 | once the file is created: empty data leaves it empty and raises an `IndexError`. Otherwise the header line is the first record's keys, and line `j` is record `j - 1`'s line under that header. The save succeeds exactly when every record's keys are among the columns, writing one line per record. Otherwise it stops at the first record with an extra key, having written the header and the lines of all earlier records |
| Exporter.ExportReadBack | src/main.py:136-138 | every record line written, by a successful save or one that stopped later, when read back by column name gives every value its record has, and "" for the columns the record lacks |
| Exporter.FullFirstRecordExports | src/main.py:136-138 | a first record that is a detail with an "addList" has columns covering every record, so the save succeeds |
| Exporter.BareFirstRecordRejectsAddList | src/main.py:136-138 | a first record that is a detail without an "addList" makes the save fail at or before the first later record that has one |
| Records.KeysAgreeWithField | src/main.py:113-124 | a dictionary's key list and its lookup agree, and no key is listed twice |
| Worker.VideoIds | src/main.py:150 | the ID list has one entry per membership, in order |
| Worker.ExportOfReconciled | src/main.py:153-170 | writing the merged list into a created file succeeds exactly when some detail record arrived and either there were no memberships or the first detail record's video is named by one |
| Worker.RunSucceeds | src/main.py:140-174 | a playlist's save succeeds exactly when its output file can be created, the details API returned at least one record, and the first of them is a video the playlist names. When the file cannot be created, the save fails on `open` and writes nothing |
| Worker.NoDetailsEmptyFile | src/main.py:133-136 | when no detail record arrives, the save fails and writes nothing, whatever the memberships were: with an `IndexError` on an empty file when the file can be created, and with `OpenFailed` and no file otherwise |
| Worker.RunFileName | src/main.py:173-174 | the run's file name gives back the playlist name and the run's stamp, and ends in `.csv` |

## Left out

- Authentication (`src/main.py:38-43`), logging setup and log calls. Logged errors are modelled only as the error paths they end, except for the case in the next line.
- DetailBatches.FailedRequestIsSkipped: covers only failures the handler completes. For an `HttpError` whose body is not valid UTF-8, `e.content.decode("utf-8")` raises inside the handler (`src/main.py:125-126`), which ends the worker before anything is saved. Error bodies are not part of the `api` answer, so this path is not modelled.
- Reconciler.MembershipExactlyOnce: promises exactly one carrier only when the detail records carry pairwise different videos. Duplicate detail records pass through the merge unchanged: only the first gains an "addList" (`Reconciler.DetailAddList`), and the rest keep their positions.
- Reading the target list from JSON (`src/main.py:45-49`) and running one process per playlist (`src/main.py:179-203`): the model covers one playlist's run. The processes share nothing except the output directory, where file names differ by playlist name (`Naming.OutputNameInjective`).
- The remote playlist listing (`src/main.py:54-79`) is the parameter `remote`, already paged through. The paging loop is not modelled. As written, an exception caught at `src/main.py:72-77` (an API error, or any other, such as a `KeyError` from a malformed item) leaves `request` unchanged, so the same page is fetched again and the items it already appended are appended again on every retry. A request that keeps raising loops forever while `videos` grows. A transient raise leaves duplicate memberships, which put duplicate IDs into the detail requests; duplicate detail records are then the case `Reconciler.MembershipExactlyOnce` excludes.
- CSV tokenising and quoting: a membership file is given as its rows of cells, and a saved file as its lines of cells.
- Wall-clock readings are opaque `Instant` values, and floats are not modelled. The elapsed-time measurements (`src/main.py:140`, `176-177`) only feed log lines.
- Worker.ExportOfReconciled: states the write into a created file only. Whether the file can be created is decided by `Exporter.Save` and stated for the whole run by `Worker.RunSucceeds`.
- Exporter.Export: states the write into a created file only. The failure of `open` itself is modelled by `Exporter.Save`.
- Naming.Stamp: writes the year as four zero-padded digits. `strftime("%Y")` pads years below 1000 differently on different platforms.
- The commented-out "URL" and "thumbnail" keys (`src/main.py:116-117`, `167`) are not part of any record.
