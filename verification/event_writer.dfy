/** The write path of the event files: `EventsWriter` (a record file opened
    lazily, a count of events not yet flushed, and the index writer),
    `EventFileWriter` (a queue in front of them, open or closed) and the loop
    of its worker thread, which takes items off the queue in order.

    The worker runs concurrently in the source; here it runs, as a fold over
    the queue, at the points where the source waits for it (`flush` and
    `close`), which processes the items in the same order. The time the
    worker reads before each flush decision is given by `clock`, indexed by
    the number of events processed so far. */
module EventWriter {
  import opened Results
  import opened PyPath
  import opened FileAccess
  import opened Locations
  import opened EventKeys
  import IndexLog

  /** A serialized `Event`; its bytes are not interpreted here. */
  type Event = string

  /** The bytes the record writer appends for one event: TFRecord framing
      (an 8-byte length, a 4-byte checksum of it, the data and a 4-byte
      checksum of the data). */
  function FrameLength(e: Event): nat {
    |e| + 16
  }

  function FramesSize(es: seq<Event>): nat {
    if es == [] then 0 else FramesSize(es[..|es| - 1]) + FrameLength(es[|es| - 1])
  }

  lemma FramesSizeSnoc(es: seq<Event>, e: Event)
    ensures FramesSize(es + [e]) == FramesSize(es) + FrameLength(e)
  {
    assert (es + [e])[..|es|] == es;
  }

  /** An open record file: its path, the events appended to it, its size in
      bytes and how many of its events have been flushed. */
  datatype RecordLog = RecordLog(path: string, events: seq<Event>, size: nat, flushed: nat)

  /** `EventsWriter`. `key` is the key `_init_if_needed` computes from the
      file prefix, step, worker and rank, which never change, so it is
      computed once, when the writer is made. `finished` holds the record
      files it has closed. */
  datatype EventsWriter = EventsWriter(
    filePrefix: string,
    step: int,
    worker: string,
    rank: int,
    key: string,
    fileName: Option<string>,
    record: Option<RecordLog>,
    outstanding: nat,
    index: IndexLog.IndexWriter,
    finished: seq<RecordLog>)

  /** The events in the open record file, none when there is none. */
  function LogEvents(ew: EventsWriter): seq<Event> {
    if ew.record.Some? then ew.record.value.events else []
  }

  /** Where the next record will start. */
  function LogSize(ew: EventsWriter): nat {
    if ew.record.Some? then ew.record.value.size else 0
  }

  /** The open record file lies at the writer's key, its size is that of
      its frames, and `_num_outstanding_events` counts exactly its events
      not yet flushed. */
  ghost predicate RecordOk(ew: EventsWriter) {
    match ew.record
    case None => ew.outstanding == 0
    case Some(log) =>
      && ew.fileName == Some(ew.key)
      && log.path == ew.key
      && log.size == FramesSize(log.events)
      && log.flushed <= |log.events|
      && ew.outstanding == |log.events| - log.flushed
  }

  /** `_init_if_needed`: opens the record file at the writer's key unless it
      is open already. */
  function InitIfNeeded(ew: EventsWriter): (r: EventsWriter)
    ensures r.record.Some? && r.fileName == Some(ew.key)
    ensures ew.record.Some? && RecordOk(ew) ==> r == ew
    ensures LogEvents(r) == LogEvents(ew) && LogSize(r) == LogSize(ew)
    ensures RecordOk(ew) ==> RecordOk(r)
    ensures r.index == ew.index && r.finished == ew.finished && r.key == ew.key
  {
    if ew.record.Some? then ew.(fileName := Some(ew.key))
    else ew.(fileName := Some(ew.key), record := Some(RecordLog(ew.key, [], 0, 0)))
  }

  datatype Recorded = Recorded(writer: EventsWriter, start: nat, length: nat)

  /** `_write_serialized_event`: opens the record file if needed, counts the
      event as outstanding and appends it, returning where its frame
      starts and how long it is. */
  function WriteRecord(ew: EventsWriter, e: Event): (r: Recorded)
    ensures r.writer.outstanding == ew.outstanding + 1
    ensures r.start == LogSize(ew) && r.length == FrameLength(e)
    ensures LogEvents(r.writer) == LogEvents(ew) + [e]
    ensures LogSize(r.writer) == LogSize(ew) + FrameLength(e)
    ensures r.writer.record.Some? && r.writer.fileName == Some(ew.key)
    ensures r.writer.index == ew.index && r.writer.finished == ew.finished && r.writer.key == ew.key
  {
    var w := InitIfNeeded(ew);
    var log := w.record.value;
    var log' := log.(events := log.events + [e], size := log.size + FrameLength(e));
    Recorded(w.(outstanding := w.outstanding + 1, record := Some(log')), log.size, FrameLength(e))
  }

  lemma WriteRecordOk(ew: EventsWriter, e: Event)
    requires RecordOk(ew)
    ensures RecordOk(WriteRecord(ew, e).writer)
  {
    FramesSizeSnoc(LogEvents(ew), e);
  }

  /** `EventsWriter.flush`: nothing to do with no outstanding events or no
      record file; otherwise every event so far is flushed and the count
      starts again from zero. */
  function FlushEvents(ew: EventsWriter): (r: EventsWriter)
    ensures ew.outstanding == 0 || ew.record.None? ==> r == ew
    ensures RecordOk(ew) ==> RecordOk(r) && r.outstanding == 0
    ensures r.record.Some? ==> r.record.value.flushed == |r.record.value.events| || r == ew
    ensures LogEvents(r) == LogEvents(ew) && LogSize(r) == LogSize(ew)
    ensures r.record.Some? == ew.record.Some?
    ensures r.index == ew.index && r.finished == ew.finished && r.key == ew.key
  {
    if ew.outstanding == 0 || ew.record.None? then ew
    else
      var log := ew.record.value;
      ew.(outstanding := 0, record := Some(log.(flushed := |log.events|)))
  }

  /** `EventsWriter.close`: flushes, then closes the record file, which
      keeps its events. */
  function CloseEvents(ew: EventsWriter): (r: EventsWriter)
    ensures r.record.None?
    ensures RecordOk(ew) ==> RecordOk(r)
    ensures ew.record.Some? ==> |r.finished| == |ew.finished| + 1 && r.finished[..|ew.finished|] == ew.finished
    ensures ew.record.Some? && RecordOk(ew) ==>
              var last := r.finished[|ew.finished|];
              last.path == ew.key && last.events == LogEvents(ew) && last.flushed == |last.events|
    ensures ew.record.None? ==> r == ew
    ensures r.index == ew.index && r.key == ew.key
  {
    var f := FlushEvents(ew);
    if f.record.Some? then f.(record := None, finished := f.finished + [f.record.value]) else f
  }

  /** What `write_event` puts on the queue: an event, or an `IndexArgs`
      holding an event and the tensor name to index it under. */
  datatype Entry = Plain(event: Event) | WithIndex(event: Event, tensorName: string)

  /** A queued item; `Sentinel` is the private event `close` sends to stop
      the worker. */
  datatype Item = Put(entry: Entry) | Sentinel

  /** The worker's next flush time and the times at which it flushed. */
  datatype Worker = Worker(nextFlush: int, flushTimes: seq<int>)

  /** A worker as `_EventLoggerThread.__init__` starts it: "the first event
      will be flushed immediately". */
  const FreshWorker: Worker := Worker(0, [])

  /** Everything the worker touches. */
  datatype Pipeline = Pipeline(fs: Fs, events: EventsWriter, worker: Worker, flushSecs: int, ticks: nat)

  /** Successive flush times lie more than `d` apart. */
  predicate Spaced(ts: seq<int>, d: int) {
    forall i :: 0 <= i < |ts| - 1 ==> ts[i + 1] - ts[i] > d
  }

  ghost predicate WorkerOk(w: Worker, d: int) {
    && Spaced(w.flushTimes, d)
    && (w.flushTimes == [] ==> w.nextFlush == 0)
    && (w.flushTimes != [] ==> w.nextFlush == w.flushTimes[|w.flushTimes| - 1] + d)
  }

  ghost predicate PipelineOk(p: Pipeline) {
    && IndexLog.Valid(p.fs, p.events.index)
    && RecordOk(p.events)
    && WorkerOk(p.worker, p.flushSecs)
  }

  /** Stages the index line for an entry that asks for one. */
  function IndexEntry(fs: Fs, index: IndexLog.IndexWriter, e: Entry, loc: TensorLocation, serialize: TensorLocation -> string): (r: IndexLog.Indexed)
    requires IndexLog.Valid(fs, index)
    ensures IndexLog.Valid(r.fs, r.index)
    ensures r.index.filePath == index.filePath
    ensures index.writer.Some? ==> r.index.writer.Some?
    ensures IndexLog.Staged(r.fs, index) == IndexLog.Staged(fs, index) + (if e.WithIndex? then serialize(loc) + "\n" else "")
  {
    if e.WithIndex? then IndexLog.AddIndex(fs, index, serialize(loc)) else IndexLog.Indexed(fs, index)
  }

  /** The flush decision after each event: flush when the clock is past the
      next flush time, and then schedule the next one `flushSecs` later. */
  function MaybeFlush(p: Pipeline, now: int): (r: Pipeline)
    ensures r.fs == p.fs && r.flushSecs == p.flushSecs && r.ticks == p.ticks
    ensures r.events.index == p.events.index
    ensures LogEvents(r.events) == LogEvents(p.events) && LogSize(r.events) == LogSize(p.events) && r.events.key == p.events.key
    ensures r.events.record.Some? == p.events.record.Some? && r.events.finished == p.events.finished
    ensures RecordOk(p.events) ==> RecordOk(r.events)
  {
    if now > p.worker.nextFlush then
      p.(events := FlushEvents(p.events), worker := Worker(now + p.flushSecs, p.worker.flushTimes + [now]))
    else p
  }

  /** The body of the worker loop for one event: write it, index it if it
      came in an `IndexArgs` (with the offset and length the write
      returned), and flush when the clock has passed the next flush time. */
  function ProcessEntry(p: Pipeline, e: Entry, now: int, serialize: TensorLocation -> string): (r: Pipeline)
    requires IndexLog.Valid(p.fs, p.events.index)
    ensures IndexLog.Valid(r.fs, r.events.index)
    ensures r.events.index.filePath == p.events.index.filePath
    ensures p.events.index.writer.Some? ==> r.events.index.writer.Some?
    ensures r.ticks == p.ticks + 1 && r.flushSecs == p.flushSecs
  {
    var w := WriteRecord(p.events, e.event);
    var ew := w.writer;
    var loc := TensorLocation(if e.WithIndex? then e.tensorName else "", ew.fileName.value, w.start, w.length);
    var ix := IndexEntry(p.fs, ew.index, e, loc, serialize);
    MaybeFlush(Pipeline(ix.fs, ew.(index := ix.index), p.worker, p.flushSecs, p.ticks + 1), now)
  }

  datatype Drained = Drained(pipe: Pipeline, rest: seq<Item>)

  /** `_EventLoggerThread.run`: takes items off the front of the queue and
      processes them until it takes the sentinel. */
  function Run(p: Pipeline, items: seq<Item>, clock: nat -> int, serialize: TensorLocation -> string): (r: Drained)
    requires IndexLog.Valid(p.fs, p.events.index)
    ensures IndexLog.Valid(r.pipe.fs, r.pipe.events.index)
    ensures r.pipe.events.index.filePath == p.events.index.filePath
    ensures r.pipe.flushSecs == p.flushSecs
    decreases |items|
  {
    if items == [] then Drained(p, [])
    else
      match items[0]
      case Sentinel => Drained(p, items[1..])
      case Put(e) => Run(ProcessEntry(p, e, clock(p.ticks), serialize), items[1..], clock, serialize)
  }

  /** The number of items before the first sentinel. */
  function FirstSentinel(items: seq<Item>): (k: nat)
    ensures k <= |items|
    ensures forall j :: 0 <= j < k ==> items[j].Put?
    ensures k < |items| ==> items[k] == Sentinel
  {
    if items == [] || items[0] == Sentinel then 0 else 1 + FirstSentinel(items[1..])
  }

  /** The entries of the items that are not sentinels, in order. */
  function Entries(items: seq<Item>): seq<Entry> {
    if items == [] then []
    else (if items[0].Put? then [items[0].entry] else []) + Entries(items[1..])
  }

  /** The entries the worker takes before it meets the sentinel. */
  function Taken(items: seq<Item>): seq<Entry> {
    Entries(items[..FirstSentinel(items)])
  }

  /** What is left on the queue once the worker has taken the sentinel. */
  function Left(items: seq<Item>): seq<Item> {
    var k := FirstSentinel(items);
    if k < |items| then items[k + 1..] else []
  }

  function EventsOf(es: seq<Entry>): seq<Event> {
    if es == [] then [] else [es[0].event] + EventsOf(es[1..])
  }

  /** The index entries due for `es` when their records are appended from
      offset `start` of `file`: one per `IndexArgs`, with its tensor name and
      the offset and length of its own record. */
  function Locs(es: seq<Entry>, start: nat, file: string): seq<TensorLocation> {
    if es == [] then []
    else
      var e := es[0];
      var rest := Locs(es[1..], start + FrameLength(e.event), file);
      if e.WithIndex? then [TensorLocation(e.tensorName, file, start, FrameLength(e.event))] + rest else rest
  }

  function Lines(serialize: TensorLocation -> string, ls: seq<TensorLocation>): seq<string> {
    if ls == [] then [] else [serialize(ls[0])] + Lines(serialize, ls[1..])
  }

  lemma TakenCons(items: seq<Item>)
    requires items != [] && items[0].Put?
    ensures FirstSentinel(items) == 1 + FirstSentinel(items[1..])
    ensures Taken(items) == [items[0].entry] + Taken(items[1..])
    ensures Left(items) == Left(items[1..])
  {
    var k := FirstSentinel(items);
    assert items[..k][1..] == items[1..][..k - 1];
  }

  /** One processed entry: its event is appended to the record file. */
  lemma ProcessEntryRecords(p: Pipeline, e: Entry, now: int, serialize: TensorLocation -> string)
    requires IndexLog.Valid(p.fs, p.events.index) && RecordOk(p.events)
    ensures var r := ProcessEntry(p, e, now, serialize);
            && RecordOk(r.events)
            && r.events.record.Some?
            && r.events.key == p.events.key && r.events.finished == p.events.finished
            && LogEvents(r.events) == LogEvents(p.events) + [e.event]
            && LogSize(r.events) == LogSize(p.events) + FrameLength(e.event)
  {
    WriteRecordOk(p.events, e.event);
  }

  /** One processed entry stages, if it asks for it, one index line for the
      location of its record. */
  lemma ProcessEntryIndex(p: Pipeline, e: Entry, now: int, serialize: TensorLocation -> string)
    requires IndexLog.Valid(p.fs, p.events.index) && RecordOk(p.events)
    ensures IndexLog.Staged(ProcessEntry(p, e, now, serialize).fs, p.events.index) ==
              IndexLog.Staged(p.fs, p.events.index) +
              (if e.WithIndex? then serialize(TensorLocation(e.tensorName, p.events.key, LogSize(p.events), FrameLength(e.event))) + "\n" else "")
  {
  }

  /** Unfolds one step of the worker loop on an entry. */
  lemma RunCons(p: Pipeline, items: seq<Item>, clock: nat -> int, serialize: TensorLocation -> string)
    requires IndexLog.Valid(p.fs, p.events.index)
    requires items != [] && items[0].Put?
    ensures Run(p, items, clock, serialize) ==
            Run(ProcessEntry(p, items[0].entry, clock(p.ticks), serialize), items[1..], clock, serialize)
  {
  }

  /** The worker stops at the first sentinel, having taken one clock
      reading per item before it, and leaves the items after the sentinel
      on the queue. */
  lemma {:induction false} RunStops(p: Pipeline, items: seq<Item>, clock: nat -> int, serialize: TensorLocation -> string)
    requires IndexLog.Valid(p.fs, p.events.index)
    ensures var r := Run(p, items, clock, serialize);
            r.rest == Left(items) && r.pipe.ticks == p.ticks + FirstSentinel(items)
    decreases |items|
  {
    if items != [] && items[0].Put? {
      var q := ProcessEntry(p, items[0].entry, clock(p.ticks), serialize);
      RunCons(p, items, clock, serialize);
      RunStops(q, items[1..], clock, serialize);
      TakenCons(items);
    }
  }

  /** An open index writer stays open while the worker runs. */
  lemma {:induction false} RunKeepsIndexOpen(p: Pipeline, items: seq<Item>, clock: nat -> int, serialize: TensorLocation -> string)
    requires IndexLog.Valid(p.fs, p.events.index) && p.events.index.writer.Some?
    ensures Run(p, items, clock, serialize).pipe.events.index.writer.Some?
    decreases |items|
  {
    if items != [] && items[0].Put? {
      RunCons(p, items, clock, serialize);
      RunKeepsIndexOpen(ProcessEntry(p, items[0].entry, clock(p.ticks), serialize), items[1..], clock, serialize);
    }
  }

  lemma EventsOfCons(e: Entry, es: seq<Entry>)
    ensures EventsOf([e] + es) == [e.event] + EventsOf(es)
  {
    assert ([e] + es)[1..] == es;
  }

  lemma AppendAssoc(a: seq<Event>, b: seq<Event>, c: seq<Event>)
    ensures a + b + c == a + (b + c)
  {
  }

  /** The worker appends the events of the entries it takes, in queue
      order, to the record file. */
  lemma {:induction false} RunRecords(p: Pipeline, items: seq<Item>, clock: nat -> int, serialize: TensorLocation -> string)
    requires IndexLog.Valid(p.fs, p.events.index) && RecordOk(p.events)
    ensures var r := Run(p, items, clock, serialize);
            && RecordOk(r.pipe.events)
            && r.pipe.events.key == p.events.key && r.pipe.events.finished == p.events.finished
            && LogEvents(r.pipe.events) == LogEvents(p.events) + EventsOf(Taken(items))
            && (p.events.record.Some? || Taken(items) != [] ==> r.pipe.events.record.Some?)
    decreases |items|
  {
    if items != [] && items[0].Put? {
      var e := items[0].entry;
      var q := ProcessEntry(p, e, clock(p.ticks), serialize);
      ProcessEntryRecords(p, e, clock(p.ticks), serialize);
      RunCons(p, items, clock, serialize);
      RunRecords(q, items[1..], clock, serialize);
      TakenCons(items);
      EventsOfCons(e, Taken(items[1..]));
      AppendAssoc(LogEvents(p.events), [e.event], EventsOf(Taken(items[1..])));
    }
  }

  /** The index locations of an entry followed by more entries, the latter
      starting at `next`, where the entry's own record ends. */
  lemma LocsCons(e: Entry, es: seq<Entry>, start: nat, next: nat, file: string)
    requires next == start + FrameLength(e.event)
    ensures Locs([e] + es, start, file) ==
            (if e.WithIndex? then [TensorLocation(e.tensorName, file, start, FrameLength(e.event))] else []) +
            Locs(es, next, file)
  {
    assert ([e] + es)[1..] == es;
  }

  lemma LinesCons(serialize: TensorLocation -> string, l: TensorLocation, ls: seq<TensorLocation>)
    ensures Lines(serialize, [l] + ls) == [serialize(l)] + Lines(serialize, ls)
  {
    assert ([l] + ls)[1..] == ls;
  }

  lemma StringAssoc(a: string, b: string, c: string)
    ensures a + b + c == a + (b + c)
  {
  }

  /** Each `IndexArgs` the worker processes stages exactly one index line,
      for the location of its own record; plain events stage none. */
  lemma {:induction false} RunIndexes(p: Pipeline, items: seq<Item>, clock: nat -> int, serialize: TensorLocation -> string)
    requires IndexLog.Valid(p.fs, p.events.index) && RecordOk(p.events)
    ensures IndexLog.Staged(Run(p, items, clock, serialize).pipe.fs, p.events.index) ==
              IndexLog.Staged(p.fs, p.events.index) +
              IndexLog.JoinLines(Lines(serialize, Locs(Taken(items), LogSize(p.events), p.events.key)))
    decreases |items|
  {
    if items != [] && items[0].Put? {
      var e := items[0].entry;
      var q := ProcessEntry(p, e, clock(p.ticks), serialize);
      ProcessEntryRecords(p, e, clock(p.ticks), serialize);
      ProcessEntryIndex(p, e, clock(p.ticks), serialize);
      RunCons(p, items, clock, serialize);
      RunIndexes(q, items[1..], clock, serialize);
      TakenCons(items);
      var es := Taken(items[1..]);
      var start, next := LogSize(p.events), LogSize(q.events);
      LocsCons(e, es, start, next, p.events.key);
      var tail := Locs(es, next, p.events.key);
      var before := IndexLog.Staged(p.fs, p.events.index);
      var after := IndexLog.Staged(Run(q, items[1..], clock, serialize).pipe.fs, q.events.index);
      assert IndexLog.Staged(Run(p, items, clock, serialize).pipe.fs, p.events.index) == after;
      assert after == IndexLog.Staged(q.fs, q.events.index) + IndexLog.JoinLines(Lines(serialize, tail));
      assert IndexLog.Staged(q.fs, q.events.index) == IndexLog.Staged(q.fs, p.events.index);
      var all := Locs(Taken(items), start, p.events.key);
      if e.WithIndex? {
        var l := TensorLocation(e.tensorName, p.events.key, LogSize(p.events), FrameLength(e.event));
        assert all == [l] + tail;
        LinesCons(serialize, l, tail);
        IndexLog.JoinLinesCons(serialize(l), Lines(serialize, tail));
        assert IndexLog.Staged(q.fs, p.events.index) == before + (serialize(l) + "\n");
        StringAssoc(before, serialize(l) + "\n", IndexLog.JoinLines(Lines(serialize, tail)));
      } else {
        assert all == tail;
        assert IndexLog.Staged(q.fs, p.events.index) == before + "";
      }
    }
  }
  lemma SpacedSnoc(ts: seq<int>, t: int, d: int)
    requires Spaced(ts, d)
    requires ts != [] ==> t - ts[|ts| - 1] > d
    ensures Spaced(ts + [t], d)
  {
    var ts' := ts + [t];
    forall i | 0 <= i < |ts'| - 1
      ensures ts'[i + 1] - ts'[i] > d
    {
      assert ts'[i] == ts[i];
    }
  }

  /** The flush decision keeps the flush times spaced: a flush happens only
      once the clock is past the last flush time plus `flushSecs`, and it
      catches every event written so far. */
  lemma MaybeFlushCadence(p: Pipeline, now: int)
    requires WorkerOk(p.worker, p.flushSecs)
    ensures var r := MaybeFlush(p, now);
            && WorkerOk(r.worker, p.flushSecs)
            && (now > p.worker.nextFlush ==>
                  r.worker.flushTimes == p.worker.flushTimes + [now] &&
                  (RecordOk(p.events) ==> r.events.outstanding == 0))
            && (now <= p.worker.nextFlush ==> r.worker == p.worker && r.events == p.events)
  {
    if now > p.worker.nextFlush {
      SpacedSnoc(p.worker.flushTimes, now, p.flushSecs);
    }
  }

  /** One processed entry, as far as the flush cadence goes. */
  lemma ProcessEntryCadence(p: Pipeline, e: Entry, now: int, serialize: TensorLocation -> string)
    requires IndexLog.Valid(p.fs, p.events.index) && RecordOk(p.events)
    requires WorkerOk(p.worker, p.flushSecs)
    ensures var r := ProcessEntry(p, e, now, serialize);
            && WorkerOk(r.worker, p.flushSecs)
            && (now > p.worker.nextFlush ==>
                  r.worker.flushTimes == p.worker.flushTimes + [now] && r.events.outstanding == 0)
            && (now <= p.worker.nextFlush ==>
                  r.worker == p.worker && r.events.outstanding == p.events.outstanding + 1)
  {
    var w := WriteRecord(p.events, e.event);
    WriteRecordOk(p.events, e.event);
    var ew := w.writer;
    var loc := TensorLocation(if e.WithIndex? then e.tensorName else "", ew.fileName.value, w.start, w.length);
    var ix := IndexEntry(p.fs, ew.index, e, loc, serialize);
    var mid := Pipeline(ix.fs, ew.(index := ix.index), p.worker, p.flushSecs, p.ticks + 1);
    assert RecordOk(mid.events);
    MaybeFlushCadence(mid, now);
  }

  lemma PrefixTrans(a: seq<int>, b: seq<int>, c: seq<int>)
    requires a <= b && b <= c
    ensures a <= c
  {
  }

  /** The worker keeps its flush times spaced more than `flushSecs` apart and
      only ever adds to them. */
  lemma {:induction false} RunCadence(p: Pipeline, items: seq<Item>, clock: nat -> int, serialize: TensorLocation -> string)
    requires IndexLog.Valid(p.fs, p.events.index) && RecordOk(p.events)
    requires WorkerOk(p.worker, p.flushSecs)
    ensures var r := Run(p, items, clock, serialize);
            WorkerOk(r.pipe.worker, p.flushSecs) && p.worker.flushTimes <= r.pipe.worker.flushTimes
    decreases |items|
  {
    if items != [] && items[0].Put? {
      var e := items[0].entry;
      var q := ProcessEntry(p, e, clock(p.ticks), serialize);
      ProcessEntryRecords(p, e, clock(p.ticks), serialize);
      ProcessEntryCadence(p, e, clock(p.ticks), serialize);
      RunCons(p, items, clock, serialize);
      RunCadence(q, items[1..], clock, serialize);
      PrefixTrans(p.worker.flushTimes, q.worker.flushTimes, Run(q, items[1..], clock, serialize).pipe.worker.flushTimes);
    }
  }

  /** "The first event will be flushed immediately": a fresh worker flushes
      after its first event, at the clock reading taken then, provided the
      clock reads a positive time. */
  lemma FirstEventFlushes(p: Pipeline, items: seq<Item>, clock: nat -> int, serialize: TensorLocation -> string)
    requires IndexLog.Valid(p.fs, p.events.index) && RecordOk(p.events)
    requires p.worker == FreshWorker
    requires items != [] && items[0].Put?
    requires clock(p.ticks) > 0
    ensures var r := Run(p, items, clock, serialize);
            |r.pipe.worker.flushTimes| >= 1 && r.pipe.worker.flushTimes[0] == clock(p.ticks)
  {
    var e := items[0].entry;
    var q := ProcessEntry(p, e, clock(p.ticks), serialize);
    ProcessEntryRecords(p, e, clock(p.ticks), serialize);
    ProcessEntryCadence(p, e, clock(p.ticks), serialize);
    assert q.worker.flushTimes == [clock(p.ticks)];
    RunCons(p, items, clock, serialize);
    RunCadence(q, items[1..], clock, serialize);
  }
}
