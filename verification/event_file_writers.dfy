/** `EventFileWriter`: the queue in front of an `EventsWriter`, and its
    open/closed life cycle. `write_event` only enqueues; `flush` waits for
    the worker to drain the queue and then flushes the record file; `close`
    sends the sentinel, waits, and closes the index and record files;
    `reopen` starts a fresh worker after a `close`. */
module EventFileWriters {
  import opened Results
  import opened PyPath
  import opened FileAccess
  import opened Locations
  import opened EventKeys
  import opened EventWriter
  import IndexLog

  datatype FileWriter = FileWriter(logdir: string, queue: seq<Item>, closed: bool, pipe: Pipeline)

  predicate AllPut(items: seq<Item>) {
    forall i :: 0 <= i < |items| ==> items[i].Put?
  }

  /** The queue never holds a sentinel between calls, and a closed writer has
      an empty queue and no open record or index file. */
  ghost predicate WriterOk(fw: FileWriter) {
    && PipelineOk(fw.pipe)
    && AllPut(fw.queue)
    && (fw.closed ==> fw.queue == [] && fw.pipe.events.record.None? && fw.pipe.events.index.writer.None?)
  }

  /** `EventFileWriter.__init__`: the events writer for prefix
      `logdir/trial`, its index writer opened at `indexKey(prefix, step,
      worker, rank)`, the record file opened at once by `init_with_suffix`,
      and a fresh worker. */
  function Create(fs: Fs, logdir: string, trial: string, worker: string, rank: int, step: int, flushSecs: int,
                  indexKey: (string, int, string, int) -> string): (r: FileWriter)
    ensures !r.closed && r.queue == [] && r.pipe.worker == FreshWorker && r.pipe.flushSecs == flushSecs
    ensures r.pipe.events.key == EventKey(Join(logdir, trial), step, worker, rank)
    ensures r.pipe.events.index.filePath == indexKey(Join(logdir, trial), step, worker, rank)
  {
    var prefix := Join(logdir, trial);
    var ix := IndexLog.NewIndexWriter(fs, indexKey(prefix, step, worker, rank));
    var ew := EventsWriter(prefix, step, worker, rank, EventKey(prefix, step, worker, rank), None, None, 0, ix.index, []);
    FileWriter(logdir, [], false, Pipeline(ix.fs, InitIfNeeded(ew), FreshWorker, flushSecs, 0))
  }

  /** A new writer is consistent, with an empty record file open at its key
      and the index text staged so far (none, unless an earlier writer left
      some at the same temporary path). */
  lemma CreateOk(fs: Fs, logdir: string, trial: string, worker: string, rank: int, step: int, flushSecs: int,
                 indexKey: (string, int, string, int) -> string)
    ensures var r := Create(fs, logdir, trial, worker, rank, step, flushSecs, indexKey);
            && WriterOk(r)
            && r.pipe.events.record == Some(RecordLog(r.pipe.events.key, [], 0, 0))
            && IndexLog.Staged(r.pipe.fs, r.pipe.events.index) == Contents(fs, GetTempPath(r.pipe.events.index.filePath))
  {
  }

  /** `write_event`: puts exactly one item at the back of the queue when the
      writer is open, and nothing when it is closed. */
  function WriteEvent(fw: FileWriter, e: Entry): (r: FileWriter)
    ensures |r.queue| == |fw.queue| + (if fw.closed then 0 else 1)
    ensures fw.queue <= r.queue
    ensures !fw.closed ==> r.queue[|fw.queue|] == Put(e)
    ensures r.(queue := fw.queue) == fw
  {
    if !fw.closed then fw.(queue := fw.queue + [Put(e)]) else fw
  }

  lemma AllPutSnoc(items: seq<Item>, e: Entry)
    requires AllPut(items)
    ensures AllPut(items + [Put(e)])
  {
    assert forall i :: 0 <= i < |items| ==> (items + [Put(e)])[i] == items[i];
  }

  lemma WriteEventOk(fw: FileWriter, e: Entry)
    requires WriterOk(fw)
    ensures WriterOk(WriteEvent(fw, e))
  {
    if !fw.closed {
      AllPutSnoc(fw.queue, e);
    }
  }

  /** A queue without a sentinel is taken whole. */
  lemma {:induction false} TakenAllPut(items: seq<Item>)
    requires AllPut(items)
    ensures FirstSentinel(items) == |items|
    ensures Taken(items) == Entries(items) && Left(items) == []
    decreases |items|
  {
    if items != [] {
      assert AllPut(items[1..]) by {
        assert forall i :: 0 <= i < |items| - 1 ==> items[1..][i] == items[i + 1];
      }
      TakenAllPut(items[1..]);
      TakenCons(items);
      assert Entries(items) == [items[0].entry] + Entries(items[1..]);
    }
  }

  /** The queue followed by the sentinel: everything before it is taken,
      nothing is left. */
  lemma {:induction false} TakenBeforeSentinel(items: seq<Item>)
    requires AllPut(items)
    ensures FirstSentinel(items + [Sentinel]) == |items|
    ensures Taken(items + [Sentinel]) == Entries(items) && Left(items + [Sentinel]) == []
    decreases |items|
  {
    var all := items + [Sentinel];
    if items == [] {
      assert all == [Sentinel];
    } else {
      assert all[1..] == items[1..] + [Sentinel];
      assert AllPut(items[1..]) by {
        assert forall i :: 0 <= i < |items| - 1 ==> items[1..][i] == items[i + 1];
      }
      TakenBeforeSentinel(items[1..]);
      TakenCons(all);
      assert Entries(items) == [items[0].entry] + Entries(items[1..]);
    }
  }

  /** `flush`: waits until the worker has processed every queued item, then
      flushes the record file. */
  function Flush(fw: FileWriter, clock: nat -> int, serialize: TensorLocation -> string): (r: FileWriter)
    requires IndexLog.Valid(fw.pipe.fs, fw.pipe.events.index)
    ensures r.closed == fw.closed && r.logdir == fw.logdir
    ensures r.pipe.events.index.filePath == fw.pipe.events.index.filePath
    ensures IndexLog.Valid(r.pipe.fs, r.pipe.events.index)
  {
    var d := Run(fw.pipe, fw.queue, clock, serialize);
    fw.(queue := d.rest, pipe := d.pipe.(events := FlushEvents(d.pipe.events)))
  }

  /** After `flush` the queue is empty and no event is outstanding. */
  lemma FlushDrains(fw: FileWriter, clock: nat -> int, serialize: TensorLocation -> string)
    requires WriterOk(fw)
    ensures var r := Flush(fw, clock, serialize);
            WriterOk(r) && r.queue == [] && r.pipe.events.outstanding == 0
  {
    var p := fw.pipe;
    TakenAllPut(fw.queue);
    RunStops(p, fw.queue, clock, serialize);
    RunRecords(p, fw.queue, clock, serialize);
    RunCadence(p, fw.queue, clock, serialize);
    if fw.closed {
      assert Run(p, fw.queue, clock, serialize).pipe == p;
    }
  }

  /** `flush` writes every queued event to the record file, in queue order,
      and stages one index line per queued `IndexArgs`. */
  lemma FlushDelivers(fw: FileWriter, clock: nat -> int, serialize: TensorLocation -> string)
    requires WriterOk(fw)
    ensures var r := Flush(fw, clock, serialize);
            && LogEvents(r.pipe.events) == LogEvents(fw.pipe.events) + EventsOf(Entries(fw.queue))
            && IndexLog.Staged(r.pipe.fs, fw.pipe.events.index) ==
                 IndexLog.Staged(fw.pipe.fs, fw.pipe.events.index) +
                 IndexLog.JoinLines(Lines(serialize, Locs(Entries(fw.queue), LogSize(fw.pipe.events), fw.pipe.events.key)))
  {
    TakenAllPut(fw.queue);
    RunRecords(fw.pipe, fw.queue, clock, serialize);
    RunIndexes(fw.pipe, fw.queue, clock, serialize);
  }

  /** What `close` does once the worker has stopped: flush the record file,
      close the index writer, then close the events writer. */
  function Shutdown(p: Pipeline): (r: Pipeline)
    requires IndexLog.Valid(p.fs, p.events.index)
    ensures IndexLog.Valid(r.fs, r.events.index)
    ensures r.events.record.None? && r.events.index.writer.None?
    ensures r.worker == p.worker && r.flushSecs == p.flushSecs && r.ticks == p.ticks && r.events.key == p.events.key
  {
    var ew := FlushEvents(p.events);
    var ix := IndexLog.Close(p.fs, ew.index);
    p.(fs := ix.fs, events := CloseEvents(ew.(index := ix.index)))
  }

  /** Shutting down finishes the open record file with all its events
      flushed. */
  lemma ShutdownFinishes(p: Pipeline)
    requires IndexLog.Valid(p.fs, p.events.index) && RecordOk(p.events)
    ensures var r := Shutdown(p);
            && RecordOk(r.events)
            && (p.events.record.None? ==> r.events.finished == p.events.finished)
            && (p.events.record.Some? ==>
                  && r.events.finished[..|p.events.finished|] == p.events.finished
                  && |r.events.finished| == |p.events.finished| + 1
                  && r.events.finished[|p.events.finished|].path == p.events.key
                  && r.events.finished[|p.events.finished|].events == LogEvents(p.events)
                  && r.events.finished[|p.events.finished|].flushed == |LogEvents(p.events)|)
  {
  }

  /** Shutting down publishes the staged index text at the index path. */
  lemma ShutdownPublishesIndex(p: Pipeline)
    requires IndexLog.Valid(p.fs, p.events.index) && p.events.index.writer.Some?
    ensures var r := Shutdown(p);
            p.events.index.filePath in r.fs && r.fs[p.events.index.filePath] == IndexLog.Staged(p.fs, p.events.index)
  {
  }

  /** `close` on an open writer: enqueue the sentinel, wait for the worker to
      take it, then shut down and mark the writer closed. On a closed writer
      it does nothing. */
  function Close(fw: FileWriter, clock: nat -> int, serialize: TensorLocation -> string): (r: FileWriter)
    requires IndexLog.Valid(fw.pipe.fs, fw.pipe.events.index)
    ensures IndexLog.Valid(r.pipe.fs, r.pipe.events.index)
    ensures r.closed
    ensures fw.closed ==> r == fw
  {
    if fw.closed then fw
    else
      var d := Run(fw.pipe, fw.queue + [Sentinel], clock, serialize);
      FileWriter(fw.logdir, d.rest, true, Shutdown(d.pipe))
  }

  /** A closed writer is consistent: empty queue, no open file. */
  lemma CloseOk(fw: FileWriter, clock: nat -> int, serialize: TensorLocation -> string)
    requires WriterOk(fw)
    ensures WriterOk(Close(fw, clock, serialize))
    ensures Close(fw, clock, serialize).pipe.events.key == fw.pipe.events.key
  {
    if !fw.closed {
      var p := fw.pipe;
      var q := fw.queue + [Sentinel];
      TakenBeforeSentinel(fw.queue);
      RunStops(p, q, clock, serialize);
      RunRecords(p, q, clock, serialize);
      RunCadence(p, q, clock, serialize);
      ShutdownFinishes(Run(p, q, clock, serialize).pipe);
    }
  }

  /** A second `close` does nothing. */
  lemma CloseIdempotent(fw: FileWriter, clock: nat -> int, serialize: TensorLocation -> string)
    requires WriterOk(fw)
    ensures Close(Close(fw, clock, serialize), clock, serialize) == Close(fw, clock, serialize)
  {
  }

  lemma EntriesOfPuts(items: seq<Item>)
    requires AllPut(items) && items != []
    ensures Entries(items) != []
  {
    assert Entries(items) == [items[0].entry] + Entries(items[1..]);
  }

  /** `close` finishes the record file with every event written before it
      and every event still queued, all flushed. */
  lemma CloseDeliversEvents(fw: FileWriter, clock: nat -> int, serialize: TensorLocation -> string)
    requires WriterOk(fw) && !fw.closed
    requires fw.pipe.events.record.Some? || fw.queue != []
    ensures var r := Close(fw, clock, serialize);
            var n := |fw.pipe.events.finished|;
            && |r.pipe.events.finished| == n + 1
            && r.pipe.events.finished[..n] == fw.pipe.events.finished
            && r.pipe.events.finished[n].path == fw.pipe.events.key
            && r.pipe.events.finished[n].events == LogEvents(fw.pipe.events) + EventsOf(Entries(fw.queue))
            && r.pipe.events.finished[n].flushed == |r.pipe.events.finished[n].events|
  {
    var p := fw.pipe;
    var q := fw.queue + [Sentinel];
    TakenBeforeSentinel(fw.queue);
    if fw.queue != [] {
      EntriesOfPuts(fw.queue);
    }
    RunRecords(p, q, clock, serialize);
    var d := Run(p, q, clock, serialize);
    assert d.pipe.events.record.Some?;
    assert LogEvents(d.pipe.events) == LogEvents(p.events) + EventsOf(Entries(fw.queue));
    ShutdownFinishes(d.pipe);
    assert Close(fw, clock, serialize).pipe == Shutdown(d.pipe);
  }

  /** `close` publishes the index file: every line staged before it and one
      line per queued `IndexArgs`, now at the index path. */
  lemma CloseDeliversIndex(fw: FileWriter, clock: nat -> int, serialize: TensorLocation -> string)
    requires WriterOk(fw) && !fw.closed
    requires fw.pipe.events.index.writer.Some?
    ensures var r := Close(fw, clock, serialize);
            var path := fw.pipe.events.index.filePath;
            path in r.pipe.fs &&
            r.pipe.fs[path] == IndexLog.Staged(fw.pipe.fs, fw.pipe.events.index) +
              IndexLog.JoinLines(Lines(serialize, Locs(Entries(fw.queue), LogSize(fw.pipe.events), fw.pipe.events.key)))
  {
    var p := fw.pipe;
    var q := fw.queue + [Sentinel];
    TakenBeforeSentinel(fw.queue);
    RunIndexes(p, q, clock, serialize);
    var d := Run(p, q, clock, serialize);
    assert d.pipe.events.index.writer.Some? by {
      RunKeepsIndexOpen(p, q, clock, serialize);
    }
    ShutdownPublishesIndex(d.pipe);
    assert Close(fw, clock, serialize).pipe == Shutdown(d.pipe);
  }

  /** `reopen`: a closed writer starts a fresh worker and is open again; an
      open writer is left alone. */
  function Reopen(fw: FileWriter): (r: FileWriter)
    ensures !r.closed
    ensures !fw.closed ==> r == fw
    ensures r.queue == fw.queue && r.pipe.events == fw.pipe.events && r.pipe.fs == fw.pipe.fs
  {
    if fw.closed then fw.(closed := false, pipe := fw.pipe.(worker := FreshWorker)) else fw
  }

  lemma ReopenOk(fw: FileWriter)
    requires WriterOk(fw)
    ensures WriterOk(Reopen(fw))
  {
  }

  /** After `reopen`, the next record file is opened at the same key as the
      one `close` finished: the writer's step, worker and rank have not
      changed, so neither has the file name. It holds only the events
      written since. */
  lemma ReopenWritesSameFile(c: FileWriter, e: Entry, clock: nat -> int, serialize: TensorLocation -> string)
    requires WriterOk(c) && c.closed
    ensures var w := WriteEvent(Reopen(c), e);
            var c2 := Close(w, clock, serialize);
            var n := |c.pipe.events.finished|;
            && |c2.pipe.events.finished| == n + 1
            && c2.pipe.events.finished[n].path == c.pipe.events.key
            && c2.pipe.events.finished[n].events == [e.event]
  {
    ReopenOk(c);
    var w := WriteEvent(Reopen(c), e);
    WriteEventOk(Reopen(c), e);
    assert w.queue == [Put(e)];
    assert Entries(w.queue) == [e];
    assert EventsOf([e]) == [e.event];
    CloseDeliversEvents(w, clock, serialize);
  }
}
