# Tornasole tensor event store — a Dafny model

This project models the core of Tornasole's tensor event store. It has a
write path and a read path.

The **write path** (`tornasole_core/tfevent/event_file_writer.py`,
`tornasole/core/access_layer/file.py`):
- An `EventFileWriter` queues events.
- A background worker (`_EventLoggerThread`) appends each event as a TFRecord
  frame to the per-step event file. The file is named by
  `get_event_key_for_step`.
- For every event written with an index request, the worker stages one line
  in the index file. The line is the serialized `TensorLocation`: tensor
  name, event file, offset and length.
- The record file is flushed on a `flush_secs` wall-clock cadence.
- `close` drains the queue behind a sentinel, publishes the index and
  finishes the record file.
- Files opened with one of the eight `WRITE_MODES` strings are staged at a
  temporary path (`get_temp_path`). They replace their final path only on
  `close`. Every other mode string that Python's `open` accepts opens the final
  path directly, including writing ones such as "w+b", "at" and "x".

The **read path** (`tornasole/core/tensor.py`):
- A `Tensor` holds, per mode, a `ModeSteps` map from step numbers to `Step`s.
- A `Step` holds its value in memory or only its location. The getter fetches
  the value from the location and keeps it when the cache flag is set.
- The query methods resolve a step (refreshing the trial when the step is not
  there yet), then read its value, its reductions, or a single reduction
  through a four-tier fallback.
- `prev_steps` lists the steps up to a given one.

Modules, one per concept:

| module | file | models |
|---|---|---|
| `Results` | results.dfy | `Option` and `Result` |
| `SortedSeqs` | sorted_seqs.dfy | `sort`, the keys of a dict in ascending order, `bisect_right`, `s[-n:]` |
| `Decimal` | decimal.dfy | `str(n)` and `format(n, '0<w>')` |
| `PyPath` | py_path.dfy | `os.path.join` and `os.path.dirname` (POSIX) |
| `FileAccess` | file_access.dfy | `get_temp_path`, `WRITE_MODES`, `TSAccessFile` on a map from path to contents |
| `Locations` | locations.dfy | `TensorLocation` |
| `IndexLog` | index_log.dfy | `IndexWriter` |
| `EventKeys` | event_keys.dfy | `step_parent`, `get_event_key_for_step` |
| `EventWriter` | event_writer.dfy | `EventsWriter`, and `_EventLoggerThread.run` as a fold over the queue |
| `EventFileWriters` | event_file_writers.dfy | the `EventFileWriter` state machine: create, write, flush, close, reopen |
| `Steps` | steps.dfy | `Step`, `ModeSteps` |
| `Tensors` | tensors.dfy | `Tensor`, `StepState` |

Effects are modelled as follows:
- Threads become a sequential fold, run when a caller waits on the queue.
- The wall clock is a function from the number of events processed to a time.
- The disk is a map from path to contents.
- Everything outside the core is a parameter. This covers
  `IndexReader.fetch_tensor_value`, `get_numpy_reduction`, the trial's
  `maybe_refresh` and step bookkeeping, `TensorLocation.serialize` and
  `IndexUtil.get_index_key_for_step`.

Where the code and its documentation differ, the model follows the code:
- `Tensor.value` reads the `Step.value` getter twice (tensor.py:235-236).
  A located step whose cache is off is therefore fetched twice per call, not
  once (`Steps.StepValueFetches`).
- Tier 3 of `reduction_value` tests `s.value is None`, which calls the
  getter (tensor.py:276). When the step has a location, the getter has already
  fetched the full value and kept it under the step's own `cache` flag
  (tensor.py:77-85), so lines 277-279 run only for a step with neither a value
  nor a location. They then call `fetch_tensor_value(None)`, which the model
  reports as `NoLocation` (`Steps.StepReductionOrder`).
- The docstring says `reduction_value` "returns None as reduction" when the
  value is not available (tensor.py:257-258). The code does not return None:
  it passes None to `fetch_tensor_value`, modelled as the `NoLocation` error.
- The index file and the record file are opened when the writer is
  constructed (event_file_writer.py:140 and :225), not on the first write.
- After `reopen`, the docstring promises a new events file. The events
  writer's step, worker and rank are unchanged, so the next record file has
  the same key as the one `close` finished (`EventFileWriters.ReopenWritesSameFile`).
- A closed `IndexWriter` that is written again stages a fresh temporary file.
  Its next `close` replaces the index file with only the new lines
  (`IndexLog.ReopenReplacesIndex`).

## Model

| member | source | states |
|---|---|---|
| SortedSeqs.Ascending | tornasole/core/tensor.py:23-26 | The step list holds every key once, in strictly increasing order, and nothing else. |
| SortedSeqs.Sort | tornasole/core/tensor.py:156 | The sorted global steps are in non-decreasing order and are a permutation of the gathered ones. |
| SortedSeqs.BisectRight | tornasole/core/tensor.py:326 | The split point has every element before it at most `step` and every element after it greater. |
| SortedSeqs.LastN | tornasole/core/tensor.py:329 | `s[-n:]` for positive n keeps min(n, len) elements, and they are the last ones of `s`, in order. |
| Decimal.Digits | tornasole_core/tfevent/event_file_writer.py:62-64 | `str(n)` is a non-empty digit string without a leading zero that reads back as n. |
| Decimal.FormatPadded | tornasole_core/tfevent/event_file_writer.py:62-63 | `format(n, '0w')` is digits, after a '-' for a negative n. Its length is w, or the length of the unpadded text (sign included) when that is longer. |
| Decimal.FormatPaddedParses | tornasole_core/tfevent/event_file_writer.py:62-63 | The zero-padded text reads back as the number it was made from, sign aside. |
| PyPath.Join | tornasole_core/tfevent/event_file_writer.py:65 | `os.path.join(a, b)` ends with b. An absolute b replaces a. Otherwise the result is a followed by b, with exactly one '/' put between them when a is non-empty and does not already end in '/'. |
| PyPath.Dirname | tornasole/core/access_layer/file.py:21 | `os.path.dirname(p)` is the part of p before its last '/'. Trailing slashes are removed, unless that part is all slashes, in which case it is kept whole. It is empty exactly when p has no '/'. |
| PyPath.DirnameUnique | tornasole/core/access_layer/file.py:21 | Those properties fix the result: any prefix of p that has them is `dirname(p)`. |
| FileAccess.ParseMode | tornasole/core/access_layer/file.py:48-49 | A mode `open` accepts passes the character scan. Its access is reading, truncating, appending or creating exactly when the string holds 'r', 'w', 'a' or 'x', and it opens for update exactly when the string holds '+'. |
| FileAccess.ModeCharsIff | tornasole/core/access_layer/file.py:48-49 | The scan `open` makes of a mode string succeeds exactly when every character is one of "rwxabt+" and none repeats, and it collects exactly those characters. |
| FileAccess.ParseModeAccepts | tornasole/core/access_layer/file.py:48-49 | A mode string is accepted exactly when `open` accepts it: known characters only, none repeated, exactly one of 'r', 'w', 'x', 'a', and not both 'b' and 't'. The access comes from that letter and `update` from '+'. |
| FileAccess.ModesAcceptedExamples | tornasole/core/access_layer/file.py:48-49 | `open` accepts "r+b", "w+b" and "bw", none of which is in `WRITE_MODES`. |
| FileAccess.MoreModesAcceptedExamples | tornasole/core/access_layer/file.py:48-49 | `open` accepts "at", "x" and "x+"; 'x' creates the file. |
| FileAccess.ModesRefusedExamples | tornasole/core/access_layer/file.py:48-49 | `open` refuses "", "rw", "ww", "rbt", "b" and "U". |
| FileAccess.WriteModesParse | tornasole/core/access_layer/file.py:31 | Every string of `WRITE_MODES` is accepted, opens for truncating or appending, and has `update` exactly when it ends in '+'. |
| FileAccess.GetTempPath | tornasole/core/access_layer/file.py:20-28 | Under the SageMaker directory the temp path is the path plus ".tmp". Elsewhere it is the path re-rooted under "/tmp/". It never equals the path. |
| FileAccess.TempPathInjective | tornasole/core/access_layer/file.py:20-28 | Outside the SageMaker directory, distinct absolute paths get distinct temp paths. |
| FileAccess.RelativeAndAbsoluteShareTempPath | tornasole/core/access_layer/file.py:25-27 | The relative path "a" and the absolute path "/a" are staged at the same temp path. |
| FileAccess.Open | tornasole/core/access_layer/file.py:35-49 | A mode string that `open` refuses is an error. A string in `WRITE_MODES` is staged at the temp path. Every other accepted mode opens the final path. |
| FileAccess.OpenWrite | tornasole/core/access_layer/file.py:41-44 | A `WRITE_MODES` handle opens the temp path, not the path, and is marked for the move on close. The temp file is emptied for 'w' modes and kept for 'a' modes, with `tell()` at its end for 'a'. Every other file is unchanged. |
| FileAccess.OpenInPlace | tornasole/core/access_layer/file.py:45-49 | Any other mode opens the final path and is not marked for a move. It fails exactly when 'r' finds no file or 'x' finds one. 'w' and 'x' start the file empty, and 'a' keeps it with `tell()` at its end. Every other file is unchanged. |
| FileAccess.Write | tornasole/core/access_layer/file.py:51-55 | Writing fails exactly on a closed or unwritable handle. It returns the `tell()` before the write and the text's length. |
| FileAccess.WriteFrame | tornasole/core/access_layer/file.py:51-55 | A write changes only the handle's own file and its offset. |
| FileAccess.WriteOverwrites | tornasole/core/access_layer/file.py:51-55 | A write overwrites the file from `tell()` and moves `tell()` past the text. |
| FileAccess.WriteAppends | tornasole/core/access_layer/file.py:51-55 | A write at the end of the file appends the text and keeps `tell()` at the end. |
| FileAccess.Flush | tornasole/core/access_layer/file.py:57-58 | Flush succeeds exactly on an open handle and changes nothing. |
| FileAccess.Move | tornasole/core/access_layer/file.py:63 | The destination takes the source's contents, the source disappears, and every other file is unchanged. |
| FileAccess.Close | tornasole/core/access_layer/file.py:60-63 | Closing a handle opened with one of `WRITE_MODES` moves the staged text over the final path, and fails when the staged file is gone. The temp file then disappears. Any other handle just closes. |
| FileAccess.CloseFrame | tornasole/core/access_layer/file.py:60-63 | Closing a staged handle changes no file other than the temp file, which disappears, and the final path, which takes its text. |
| FileAccess.IngestAll | tornasole/core/access_layer/file.py:65-68 | Ingesting takes in the rest of the file from `tell()` and starts the cursor at 0 with the right length. It fails on an unreadable handle. |
| FileAccess.Read | tornasole/core/access_layer/file.py:70-74 | `read(n)` fails exactly when the cursor would pass `datalen`. Otherwise it returns Python's slice from the cursor to n on and moves the cursor by n. For n >= 0 from a non-negative cursor, that slice is the next n ingested characters. |
| FileAccess.NegativeReadRewinds | tornasole/core/access_layer/file.py:70-74 | A negative n passes the assertion and moves the cursor back. From "abcdef" at position 1, `read(-3)` returns "bcd" and leaves the cursor at -2. |
| FileAccess.HasData | tornasole/core/access_layer/file.py:76-77 | Reports whether the cursor is before the end, and fails before `ingest_all`. |
| FileAccess.WriteAllAppends | tornasole/core/access_layer/file.py:51-55 | Writes from the end of the file append their texts in order and keep `tell()` at the end. |
| FileAccess.WriteAllFrame | tornasole/core/access_layer/file.py:51-55 | A run of writes leaves every other file alone. |
| FileAccess.WriteAllRanges | tornasole/core/access_layer/file.py:51-55 | The [start, length] pairs returned lie end to end from the old end of the file to the new end. |
| FileAccess.WriteAllReadBack | tornasole/core/access_layer/file.py:51-55 | Each returned range selects, from the written file, exactly the text its call wrote. |
| FileAccess.ReadChunksAdvance | tornasole/core/access_layer/file.py:70-74 | Reads of non-negative sizes that sum to no more than what is left all succeed. They return consecutive pieces of the ingested text from the cursor, and the cursor ends their total further on. |
| FileAccess.ReadChunksRebuild | tornasole/core/access_layer/file.py:70-77 | Reads whose sizes sum to exactly what is left rebuild the rest of the ingested text, after which `has_data` is false. |
| FileAccess.InPlaceWritesVisible | tornasole/core/access_layer/file.py:45-63 | A writing mode outside `WRITE_MODES` ("w+b", "at", "x", ...) writes the final path itself. The text is there before `close`, and `close` moves nothing. Only 'x' can fail to open, on a path that exists. |
| FileAccess.WrittenRangesReadBack | tornasole/core/access_layer/file.py:35-63 | With one of `WRITE_MODES`, the final path keeps its old contents until `close`. After it, the path holds the written text, and every range `write` returned reads back its own text. |
| FileAccess.StagedRangesReadBack | tornasole/core/access_layer/file.py:41-63 | For a handle staged at the temp path, writes leave the final path untouched until `close`. `close` then gives it the staged text followed by the written text, and each returned range reads back its own text. |
| IndexLog.OpenIndexFile | tornasole_core/tfevent/event_file_writer.py:77 | Opening in 'a+' continues the text already staged for the path and touches no other file. |
| IndexLog.NewIndexWriter | tornasole_core/tfevent/event_file_writer.py:69-77 | A new index writer is open at once on the path's temp file. |
| IndexLog.AddIndex | tornasole_core/tfevent/event_file_writer.py:82-90 | Adding a location stages exactly its line and a newline after the staged text, reopening if closed. Nothing else changes. |
| IndexLog.Flush | tornasole_core/tfevent/event_file_writer.py:92-95 | Flushing fails exactly when the writer is unset. |
| IndexLog.Close | tornasole_core/tfevent/event_file_writer.py:97-102 | Closing publishes the staged text at the index path, removes the temp file and unsets the writer. An unset writer changes nothing. |
| IndexLog.CloseIdempotent | tornasole_core/tfevent/event_file_writer.py:97-102 | Closing twice is closing once. |
| IndexLog.AddAllAppends | tornasole_core/tfevent/event_file_writer.py:82-90 | A run of `add_index` calls stages exactly the lines, newline-terminated, after what was staged, and touches no other file. |
| IndexLog.SplitJoinLines | tornasole_core/tfevent/event_file_writer.py:90 | A reader splitting the index text gets back exactly the lines written, discarding a partial trailing line. |
| IndexLog.AddAllThenClose | tornasole_core/tfevent/event_file_writer.py:82-102 | After `close`, the index file holds the earlier staged text followed by every added line. |
| IndexLog.ReopenReplacesIndex | tornasole_core/tfevent/event_file_writer.py:82-102 | Lines added after a `close` replace the index file on the next `close`; the earlier lines are lost. |
| EventKeys.StepParent | tornasole_core/tfevent/event_file_writer.py:46-47 | The parent p is the floor of step/1000: p*1000 <= step < (p+1)*1000, negative steps included. |
| EventKeys.StepText | tornasole_core/tfevent/event_file_writer.py:62 | The step text is digits, after a '-' for a negative step. It has 12 characters, or the length of the unpadded text (sign included) when that is longer. |
| EventKeys.RankText | tornasole_core/tfevent/event_file_writer.py:63 | The rank text is digits, after a '-' for a negative rank. It has 4 characters, or the length of the unpadded text (sign included) when that is longer. |
| EventKeys.EventKey | tornasole_core/tfevent/event_file_writer.py:61-66 | The key is `run_dir/events/<step text>/<step text>_<worker>_<rank text>.tfevents`, starting with `run_dir`. |
| EventKeys.StepTextParses | tornasole_core/tfevent/event_file_writer.py:62 | The step text reads back as the step. |
| EventKeys.RankTextParses | tornasole_core/tfevent/event_file_writer.py:63 | The rank text reads back as the rank. |
| EventKeys.DirnameOfJoin | tornasole_core/tfevent/event_file_writer.py:65 | `os.path.dirname` undoes `os.path.join` of a name without '/' onto a directory that does not end in '/'. |
| EventKeys.EventKeyNamesStep | tornasole_core/tfevent/event_file_writer.py:61-66 | For a worker name without '/', the step reads back from the key's file name, whatever the run directory. |
| EventWriter.InitIfNeeded | tornasole_core/tfevent/event_file_writer.py:148-154 | The record file is opened at the writer's key unless one is open, in which case nothing changes. |
| EventWriter.WriteRecord | tornasole_core/tfevent/event_file_writer.py:169-174 | Writing appends the event, counts it as outstanding, and returns where its frame starts and the frame's length. |
| EventWriter.WriteRecordOk | tornasole_core/tfevent/event_file_writer.py:169-174 | Writing keeps the record file's size equal to its frames and the outstanding count equal to its unflushed events. |
| EventWriter.FlushEvents | tornasole_core/tfevent/event_file_writer.py:176-184 | With nothing outstanding or no file, flush is a no-op. Otherwise every event becomes flushed and the count resets. |
| EventWriter.CloseEvents | tornasole_core/tfevent/event_file_writer.py:186-191 | Closing finishes the open record file at the key with all its events flushed. Without one it is a no-op. |
| EventWriter.IndexEntry | tornasole_core/tfevent/event_file_writer.py:339-343 | An `IndexArgs` stages exactly one line for its location. A plain event stages none. |
| EventWriter.MaybeFlush | tornasole_core/tfevent/event_file_writer.py:345-349 | The flush decision changes no event, no file and no index. |
| EventWriter.FirstSentinel | tornasole_core/tfevent/event_file_writer.py:334-336 | The worker's stop point: every item before it is an event, and it is the sentinel unless the queue ends first. |
| EventWriter.ProcessEntry | tornasole_core/tfevent/event_file_writer.py:337-349 | One loop body keeps the index writer consistent with the disk and keeps an open index writer open. It reads the clock once and keeps the index path and `flush_secs`. What it writes is in the three lemmas that follow. |
| EventWriter.ProcessEntryRecords | tornasole_core/tfevent/event_file_writer.py:337-338 | One loop body appends exactly its event to the record file. |
| EventWriter.ProcessEntryIndex | tornasole_core/tfevent/event_file_writer.py:337-343 | One loop body stages, for an `IndexArgs`, the line of its record's own offset and length in the key's file. |
| EventWriter.Run | tornasole_core/tfevent/event_file_writer.py:325-351 | The worker loop keeps the index writer consistent with the disk and keeps the index path and `flush_secs`. Where it stops, what it appends and indexes, and when it flushes are in `RunStops`, `RunRecords`, `RunIndexes` and `RunCadence`. |
| EventWriter.RunStops | tornasole_core/tfevent/event_file_writer.py:325-336 | The worker stops at the first sentinel, leaving what follows it on the queue. It reads the clock once per event before that. |
| EventWriter.RunKeepsIndexOpen | tornasole_core/tfevent/event_file_writer.py:325-351 | An open index writer stays open while the worker runs. |
| EventWriter.RunRecords | tornasole_core/tfevent/event_file_writer.py:325-343 | The worker appends the events it takes to the record file, in queue order, keeping the file consistent. |
| EventWriter.RunIndexes | tornasole_core/tfevent/event_file_writer.py:325-343 | The worker stages one index line per `IndexArgs` it takes, each for the location of its own record, in order. |
| EventWriter.MaybeFlushCadence | tornasole_core/tfevent/event_file_writer.py:344-349 | A flush happens only after the next flush time. It is recorded and clears the outstanding count. Flush times stay more than `flush_secs` apart. |
| EventWriter.ProcessEntryCadence | tornasole_core/tfevent/event_file_writer.py:337-349 | One loop body either flushes (no event outstanding) or leaves the worker as it was with one more outstanding event. |
| EventWriter.RunCadence | tornasole_core/tfevent/event_file_writer.py:325-351 | The worker keeps its flush times spaced more than `flush_secs` apart and only adds to them. |
| EventWriter.FirstEventFlushes | tornasole_core/tfevent/event_file_writer.py:321-349 | A fresh worker flushes right after its first event, at that event's clock reading. |
| EventFileWriters.Create | tornasole_core/tfevent/event_file_writer.py:211-234 | A new writer is open with an empty queue and a fresh worker. Its record key is the event key of `logdir/trial` and its index writer is at the index key. |
| EventFileWriters.CreateOk | tornasole_core/tfevent/event_file_writer.py:120-152 | A new writer is consistent and has an empty record file open at its key. |
| EventFileWriters.WriteEvent | tornasole_core/tfevent/event_file_writer.py:282-285 | An open writer puts exactly the event at the back of the queue; a closed writer drops it. Nothing else changes. |
| EventFileWriters.WriteEventOk | tornasole_core/tfevent/event_file_writer.py:282-285 | Writing keeps the writer consistent. |
| EventFileWriters.TakenBeforeSentinel | tornasole_core/tfevent/event_file_writer.py:298-301 | Behind the sentinel `close` enqueues, the worker takes every queued event and leaves nothing. |
| EventFileWriters.Flush | tornasole_core/tfevent/event_file_writer.py:287-292 | `flush` keeps the writer open or closed as it was. |
| EventFileWriters.FlushDrains | tornasole_core/tfevent/event_file_writer.py:287-292 | After `flush` the queue is empty and no event is outstanding. |
| EventFileWriters.FlushDelivers | tornasole_core/tfevent/event_file_writer.py:287-292 | `flush` appends every queued event, in order, and stages one index line per queued `IndexArgs`. |
| EventFileWriters.Shutdown | tornasole_core/tfevent/event_file_writer.py:301-303 | After the worker stops, neither a record file nor an index writer is open. |
| EventFileWriters.ShutdownFinishes | tornasole_core/tfevent/event_file_writer.py:302-303 | Shutting down finishes the record file at its key with all its events flushed. |
| EventFileWriters.ShutdownPublishesIndex | tornasole_core/tfevent/event_file_writer.py:302 | Shutting down publishes the staged index text at the index path. |
| EventFileWriters.Close | tornasole_core/tfevent/event_file_writer.py:294-304 | `close` leaves the writer closed. On a closed writer it changes nothing. |
| EventFileWriters.CloseOk | tornasole_core/tfevent/event_file_writer.py:294-304 | A closed writer is consistent: empty queue, no open file. |
| EventFileWriters.CloseIdempotent | tornasole_core/tfevent/event_file_writer.py:298 | A second `close` does nothing. |
| EventFileWriters.CloseDeliversEvents | tornasole_core/tfevent/event_file_writer.py:294-304 | `close` finishes one record file at the key. It holds the events written before plus every queued event, in order, all flushed. |
| EventFileWriters.CloseDeliversIndex | tornasole_core/tfevent/event_file_writer.py:294-304 | `close` publishes the index file with the earlier lines plus one line per queued `IndexArgs`. |
| EventFileWriters.Reopen | tornasole_core/tfevent/event_file_writer.py:241-251 | `reopen` opens a closed writer without touching its queue, events or files; on an open writer it does nothing. |
| EventFileWriters.ReopenOk | tornasole_core/tfevent/event_file_writer.py:241-251 | Reopening keeps the writer consistent. |
| EventFileWriters.ReopenWritesSameFile | tornasole_core/tfevent/event_file_writer.py:241-251 | After reopen, write and close, the new record file is at the same key as the earlier one and holds only the new event. |
| Steps.ReadValue | tornasole/core/tensor.py:75-85 | The getter returns something exactly when the step has a value or a location, fetching at most once. It changes nothing but the cached value. |
| Steps.ReadValueResult | tornasole/core/tensor.py:75-85 | The getter returns the value in memory, else the fetched one. It fetches exactly when there is no value but a location. |
| Steps.CachedReadFetchesOnce | tornasole/core/tensor.py:82-85 | With the cache on, the second read returns the same value without fetching. |
| Steps.UncachedReadAlwaysFetches | tornasole/core/tensor.py:77-84 | With the cache off, the step never changes and every read of a located step fetches. |
| Steps.FetchAll | tornasole/core/tensor.py:98-101 | Every saved reduction location is fetched under its own key, and the result holds nothing else. |
| Steps.ReadReductions | tornasole/core/tensor.py:95-109 | Reductions in memory are returned without fetching. Otherwise every location is fetched, once each, and the results are kept when caching. |
| Steps.HasReductionsIff | tornasole/core/tensor.py:95-109 | A step reports reductions exactly when it has some in memory or some saved locations. |
| Steps.ReductionLocation | tornasole/core/tensor.py:121-123 | `reduction_location` returns the location saved under the key, and None when none is saved. |
| Steps.ReadReduction | tornasole/core/tensor.py:111-116 | `reduction_value` finds the key in memory, or among all fetched reductions when none are in memory. |
| Steps.StepReduction | tornasole/core/tensor.py:270-282 | Reading a reduction changes only what the step holds in memory: never its location, its cache flag or its number. The order of the tiers is in `StepReductionOrder`. |
| Steps.StepReductionOrder | tornasole/core/tensor.py:268-282 | The reduction comes from memory without fetching, else from its saved location, else from the full value. With no value and no location it is an error. |
| Steps.StepValue | tornasole/core/tensor.py:235-244 | Reading the value changes only what the step holds in memory: never its location, its cache flag or its number. The fetch counts are in `StepValueFetches`. |
| Steps.StepValueFetches | tornasole/core/tensor.py:232-244 | `value` returns the full value. It fetches 0 times for a value in memory, 1 for a cached located step and 2 for an uncached one. With neither, the error says whether reductions exist. |
| Steps.CachedStepValueOnce | tornasole/core/tensor.py:232-241 | With the cache on, the next `value` returns the same value without fetching. |
| Steps.StepNums | tornasole/core/tensor.py:23-26 | `steps()` lists every stored step number once, ascending. |
| Steps.SetStepValue | tornasole/core/tensor.py:31-36 | With line 33 corrected as under ## Findings: only the step changes, its value is set, and a new step caches as the mode does. |
| Steps.SetStepLocation | tornasole/core/tensor.py:38-42 | Only the step changes: its location is set, and a new step caches as the mode does. |
| Steps.SetStepReductionValue | tornasole/core/tensor.py:44-50 | Only the step changes: one reduction value is recorded. |
| Steps.SetStepReductionLocation | tornasole/core/tensor.py:52-58 | Only the step changes: one reduction location is recorded. |
| Steps.ChangedStepKeepsCache | tornasole/core/tensor.py:31-58 | Changing only one step into a step that caches as the mode does keeps every step caching as the mode. |
| Steps.SettersKeepCache | tornasole/core/tensor.py:31-58 | With line 33 corrected as under ## Findings, every setter keeps every step caching as its mode does. As written, `set_step_value` breaks this (`Steps.NewStepAsWrittenDropsCache`). |
| Steps.NewStepAsWrittenDropsCache | tornasole/core/tensor.py:33 | As written, a new step of a caching mode does not cache, gets the flag as its location, and breaks the cache invariant. The corrected step does not. |
| Steps.AsWrittenStepRefetchesReductions | tornasole/core/tensor.py:95-109 | On a caching tensor, a new step made at line 33 as written, once given a reduction location, fetches that reduction again on every `reduction_values()` call. The corrected step fetches it once and then answers from memory. |
| Tensors.CreateModeStep | tornasole/core/tensor.py:286-292 | A negative mode step is an error. Otherwise the mode exists afterwards, empty if new, and every other mode is unchanged. |
| Tensors.Add | tornasole/core/tensor.py:294-310 | An addition fails exactly on a negative mode step. New steps are made as line 33 reads once corrected as under ## Findings. |
| Tensors.AddChangesOneStep | tornasole/core/tensor.py:294-310 | A successful addition changes only the one step of the one mode, creating them if needed. |
| Tensors.AddKeepsCacheConsistent | tornasole/core/tensor.py:286-310 | With line 33 corrected as under ## Findings, additions keep every step of every mode caching as the tensor does. As written, `add_step` on a new step breaks this. |
| Tensors.GlobalSteps | tornasole/core/tensor.py:150-157 | `_global_steps` is sorted and a permutation of the global steps gathered mode by mode. |
| Tensors.GatherIff | tornasole/core/tensor.py:150-155 | Gathering yields one entry per stored pair. A number is gathered exactly when it is the global step of a stored pair. |
| Tensors.GlobalStepsPairs | tornasole/core/tensor.py:150-157 | `_global_steps` has as many entries as stored pairs and holds exactly their global steps. |
| Tensors.TensorSteps | tornasole/core/tensor.py:141-148 | `steps` refreshes, then lists the global steps, the steps of a known mode, or `None` for an unknown one, in order. |
| Tensors.Locate | tornasole/core/tensor.py:193-204 | A GLOBAL step stored under GLOBAL is found there. Otherwise a GLOBAL step is converted to its mode and step and looked up. The result is stored. |
| Tensors.ResolveStep | tornasole/core/tensor.py:206-230 | A step that `step` returns is stored in the tensor it returns, refreshed or not. The outcomes with and without a refresh are in the next two lemmas. |
| Tensors.ResolveFoundWithoutRefresh | tornasole/core/tensor.py:206-209 | A step stored already is returned without refreshing. |
| Tensors.ResolveAfterRefresh | tornasole/core/tensor.py:210-229 | A missing step costs one refresh; each step state maps to its own outcome. `NoMoreData` is raised exactly when all steps are loaded, and carries the last available step. |
| Tensors.TensorValue | tornasole/core/tensor.py:232-244 | A step that does not resolve gives its error without fetching. |
| Tensors.TensorValueOfStoredStep | tornasole/core/tensor.py:232-244 | On a stored step, `value` returns its full value, fetching as the step rules say, and leaves the tensor alone for a value in memory. A caching tensor asked again does not fetch. |
| Tensors.TensorReduction | tornasole/core/tensor.py:253-284 | A step that does not resolve gives its error without fetching. |
| Tensors.TensorReductionOrder | tornasole/core/tensor.py:268-282 | On a stored step the reduction comes from memory, then its location, then the full value, in that order. |
| Tensors.TensorReductions | tornasole/core/tensor.py:246-251 | `reduction_values` succeeds exactly when the step resolves, and returns that step's reductions. |
| Tensors.TailSlice | tornasole/core/tensor.py:328-329 | `[-n:]` keeps the last n for a positive n, and drops the first -n for a negative one. |
| Tensors.PrevOf | tornasole/core/tensor.py:325-331 | `prev_steps` returns no more steps than are stored, and none after `step`. |
| Tensors.PrevOfPrefix | tornasole/core/tensor.py:325-327 | The previous steps are the longest prefix of the step list with every entry at most `step`; n == 0 means all. |
| Tensors.PrevOfIff | tornasole/core/tensor.py:325-327 | A step is among the previous steps exactly when it is stored and not after `step`. |
| Tensors.PrevOfLastN | tornasole/core/tensor.py:328-329 | With a positive n, the result is the latest min(n, len) previous steps. |
| Tensors.PrevSteps | tornasole/core/tensor.py:312-331 | `prev_steps` refreshes once. It fails exactly for a mode with no steps; otherwise it returns the previous steps of the listed ones. |

## Left out

- Threads, the queue's capacity (`max_queue`) and the blocking of `put`, `join` and `task_done` are left out. The worker is a fold that runs when a caller waits (`flush`, `close`). Writes that race `close` are not modelled.
- The wall clock (`time.time()`) is the `clock` parameter, read once per processed event. `time.time()` returns a float and `clock` returns an integer, so the model has whole-second readings. No proved property depends on this.
- `socket.gethostname()` is left out: the worker name is always given.
- Protocol buffers, numpy arrays and `make_tensor_proto` are left out. An event is an opaque string, and a value is a sequence of reals.
- `RecordWriter` is not part of this model. A record file is a list of events whose size grows by each event's TFRecord frame (`EventWriter.FrameLength`). The checksum flag is not modelled.
- `TensorLocation.serialize` and `IndexUtil.get_index_key_for_step` are parameters (`serialize`, `indexKey`).
- `IndexReader.fetch_tensor_value`, `get_numpy_reduction` and the trial (`maybe_refresh`, `has_passed_step`, `mode_modestep`, `global_step`, `available_steps`, `loaded_all_steps`) are parameters. Their answers are taken as given.
- S3 paths (`TSAccessS3`, `is_s3`) are left out. Every path is local.
- `os.path.abspath` on the event file name (event_file_writer.py:341) is left out. The index line records the event key as it is, because the working directory is not modelled.
- `ensure_dir` and directory creation are left out. The disk has no directories.
- Text-mode `tell()` is modelled as a character offset.
- Logging, `verbose`, `__del__`, `write_graph`, `write_tensor`, `write_summary` and `size_and_shape`/`make_numpy_array` are left out. The last two only build protocol buffers.
- `Tensor._has_step`, `_has_step_currently` and `_has_global_step_currently` (tensor.py:159-172, 180-191) are left out, because no operation of the model calls them. `_has_mode_step_currently` (tensor.py:174-178) is part of `Tensors.Locate`.
- The `elif s.location is not None` branch of `Tensor.value` (tensor.py:237-241) is left out. The getter has already fetched whenever a location is set, so the branch cannot run.
- `EventsWriter.write_event`'s type check on the event (event_file_writer.py:164-166) is left out. Events are typed here.
- FileAccess.SagemakerTornasolePath: the value of `DEFAULT_SAGEMAKER_TORNASOLE_PATH` comes from a configuration module that is not part of this model. It is a named constant. No property depends on its value beyond its not being a prefix of "/", which `FileAccess.RelativeAndAbsoluteShareTempPath` needs.
- FileAccess.ParseMode: the deprecated 'U' flag, which Python accepted up to version 3.10, is refused, as Python 3.11 and later refuse it. `TSAccessFile` passes `open` no other argument, so the checks on `encoding` and `newline` never apply.
- Operating-system failures of `open` other than a missing file for 'r' and an existing file for 'x' are left out: permissions, a missing directory and a directory at the path.
- EventFileWriters.Flush and EventFileWriters.Close: their ensures keep only what every caller needs. The delivery guarantees are stated by FlushDrains, FlushDelivers, CloseDeliversEvents and CloseDeliversIndex for a consistent writer (`WriterOk`).
- Tensors.TensorValue and Tensors.TensorReduction: their ensures cover the unresolved case. The resolved case is stated by TensorValueOfStoredStep and TensorReductionOrder for a step stored already; after a refresh the same step rules apply to the refreshed tensor.

## Findings

| source | as written | input that shows it | evidently intended | confidence | as-written member | corrected member |
|---|---|---|---|---|---|---|
| tornasole/core/tensor.py:33 | `Step(step_num, value, self.cache)` passes the mode's cache flag as the third positional parameter, which is `location`. | `add_step` on a new step of a tensor made with `cache=True`: the step gets `location=True` and `cache=False`. Given a reduction location, it then fetches that reduction on every `reduction_values()` call (`Steps.AsWrittenStepRefetchesReductions`). | `Step(step_num, value, cache=self.cache)`, as lines 40, 46 and 54 do, so that a new step caches as its mode does. | not executed | Steps.NewStepAsWrittenDropsCache | Steps.SetStepValue |
