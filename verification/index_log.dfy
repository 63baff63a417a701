/** The per-step index file that `IndexWriter` maintains: one line per tensor
    location, each terminated by a newline, written through a local
    `TSAccessFile` opened in 'a+' and so staged at the temporary path until
    the writer closes. */
module IndexLog {
  import opened Results
  import opened PyPath
  import opened FileAccess

  const IndexMode: string := "a+"

  /** `IndexWriter`: `writer` is the open handle, or `None` after `close`. */
  datatype IndexWriter = IndexWriter(filePath: string, writer: Option<AccessFile>)

  datatype Indexed = Indexed(fs: Fs, index: IndexWriter)

  /** An open index handle appends, at the end of its staged file, to the
      temporary path of the index file. */
  ghost predicate Valid(fs: Fs, w: IndexWriter) {
    w.writer.Some? ==>
      var f := w.writer.value;
      && f.path == w.filePath
      && f.mode == OpenMode(Appending, true)
      && f.staged
      && f.target == GetTempPath(w.filePath)
      && !f.closed
      && f.target in fs
      && f.offset == |fs[f.target]|
  }

  /** The text staged for the index file, still invisible at its path. */
  function Staged(fs: Fs, w: IndexWriter): string {
    Contents(fs, GetTempPath(w.filePath))
  }

  /** `TSAccessFile(path, 'a+')`: never fails, continues any text already
      staged for `path`, and touches no other file. */
  function OpenIndexFile(fs: Fs, path: string): (r: Indexed)
    ensures r.index.filePath == path && r.index.writer.Some?
    ensures Valid(r.fs, r.index)
    ensures Staged(r.fs, r.index) == Contents(fs, GetTempPath(path))
    ensures r.fs.Keys == fs.Keys + {GetTempPath(path)}
    ensures forall p :: p in fs && p != GetTempPath(path) ==> r.fs[p] == fs[p]
  {
    assert ParseMode(IndexMode) == Some(OpenMode(Appending, true));
    var o := Open(fs, path, IndexMode).value;
    Indexed(o.fs, IndexWriter(path, Some(o.file)))
  }

  /** `IndexWriter.__init__` for a local path: the file is opened at once. */
  function NewIndexWriter(fs: Fs, path: string): (r: Indexed)
    ensures r.index.filePath == path && r.index.writer.Some?
    ensures Valid(r.fs, r.index)
    ensures Staged(r.fs, r.index) == Contents(fs, GetTempPath(path))
    ensures forall p :: p in fs && p != GetTempPath(path) ==> p in r.fs && r.fs[p] == fs[p]
  {
    OpenIndexFile(fs, path)
  }

  /** Appends `text` through an open index handle. */
  function AppendOpen(fs: Fs, w: IndexWriter, text: string): (r: Indexed)
    requires Valid(fs, w) && w.writer.Some?
    ensures r.index.filePath == w.filePath && r.index.writer.Some?
    ensures Valid(r.fs, r.index)
    ensures Staged(r.fs, r.index) == Staged(fs, w) + text
    ensures r.fs.Keys == fs.Keys
    ensures forall p :: p in fs && p != GetTempPath(w.filePath) ==> r.fs[p] == fs[p]
  {
    var f := w.writer.value;
    WriteFrame(fs, f, text);
    WriteAppends(fs, f, text);
    var x := Write(fs, f, text).value;
    Indexed(x.fs, IndexWriter(w.filePath, Some(x.file)))
  }

  /** `add_index`: reopens the file when the writer was closed, then appends
      the serialized location and a newline. */
  function AddIndex(fs: Fs, w: IndexWriter, line: string): (r: Indexed)
    requires Valid(fs, w)
    ensures r.index.filePath == w.filePath && r.index.writer.Some?
    ensures Valid(r.fs, r.index)
    ensures Staged(r.fs, r.index) == Staged(fs, w) + line + "\n"
    ensures r.fs.Keys == fs.Keys + {GetTempPath(w.filePath)}
    ensures forall p :: p in fs && p != GetTempPath(w.filePath) ==> r.fs[p] == fs[p]
  {
    if w.writer.Some? then
      assert GetTempPath(w.filePath) in fs;
      AppendOpen(fs, w, line + "\n")
    else
      var o := OpenIndexFile(fs, w.filePath);
      AppendOpen(o.fs, o.index, line + "\n")
  }

  datatype IndexError = NoOpenWriter

  /** `flush`: the source asserts that the writer is open. */
  function Flush(w: IndexWriter): (r: Result<IndexWriter, IndexError>)
    requires w.writer.Some? ==> !w.writer.value.closed
    ensures r.Ok? <==> w.writer.Some?
    ensures r.Ok? ==> r.value == w
  {
    match w.writer
    case None => Err(NoOpenWriter)
    case Some(f) =>
      assert FileAccess.Flush(f) == Ok(f);
      Ok(w)
  }

  /** `close`: an open writer moves its staged text over the index path and
      becomes unset; an unset writer is left alone. */
  function Close(fs: Fs, w: IndexWriter): (r: Indexed)
    requires Valid(fs, w)
    ensures r.index == IndexWriter(w.filePath, None)
    ensures Valid(r.fs, r.index)
    ensures w.writer.None? ==> r.fs == fs
    ensures w.writer.Some? ==>
              && w.filePath in r.fs
              && r.fs[w.filePath] == Staged(fs, w)
              && GetTempPath(w.filePath) !in r.fs
              && forall p :: p in fs && p != w.filePath && p != GetTempPath(w.filePath) ==> p in r.fs && r.fs[p] == fs[p]
  {
    match w.writer
    case None => Indexed(fs, w)
    case Some(f) =>
      var c := FileAccess.Close(fs, f).value;
      Indexed(c.fs, IndexWriter(w.filePath, None))
  }

  /** Closing twice is closing once. */
  lemma CloseIdempotent(fs: Fs, w: IndexWriter)
    requires Valid(fs, w)
    ensures var once := Close(fs, w);
            Close(once.fs, once.index) == once
  {
  }

  /** The index text of a list of lines: each followed by a newline. */
  function JoinLines(lines: seq<string>): (r: string)
  {
    if lines == [] then "" else JoinLines(lines[..|lines| - 1]) + lines[|lines| - 1] + "\n"
  }

  /** A run of `add_index` calls. */
  function AddAll(fs: Fs, w: IndexWriter, lines: seq<string>): (r: Indexed)
    requires Valid(fs, w)
    ensures Valid(r.fs, r.index)
    ensures r.index.filePath == w.filePath
    ensures lines != [] ==> r.index.writer.Some?
    decreases |lines|
  {
    if lines == [] then Indexed(fs, w)
    else
      var b := AddAll(fs, w, lines[..|lines| - 1]);
      AddIndex(b.fs, b.index, lines[|lines| - 1])
  }

  /** A run of `add_index` calls stages exactly the joined lines after the
      text already staged, and changes no other file. */
  lemma {:induction false} AddAllAppends(fs: Fs, w: IndexWriter, lines: seq<string>)
    requires Valid(fs, w)
    ensures Staged(AddAll(fs, w, lines).fs, w) == Staged(fs, w) + JoinLines(lines)
    ensures forall p :: p in fs && p != GetTempPath(w.filePath) ==>
              p in AddAll(fs, w, lines).fs && AddAll(fs, w, lines).fs[p] == fs[p]
    decreases |lines|
  {
    if lines != [] {
      var init, last := lines[..|lines| - 1], lines[|lines| - 1];
      AddAllAppends(fs, w, init);
      var b := AddAll(fs, w, init);
      var r := AddIndex(b.fs, b.index, last);
      assert AddAll(fs, w, lines) == r;
      assert Staged(r.fs, w) == Staged(b.fs, w) + last + "\n";
      assert JoinLines(lines) == JoinLines(init) + last + "\n";
    }
  }

  /** The lines of an index text: every newline-terminated line, in order;
      a trailing line without its newline is still being written and is
      not returned. */
  function SplitLines(text: string): seq<string>
    decreases |text|
  {
    if text == [] then []
    else
      var i := LineEnd(text, 0);
      if i == |text| then []
      else [text[..i]] + SplitLines(text[i + 1..])
  }

  /** The index of the first newline in `text` at or after `from`, or its
      length when there is none. */
  function LineEnd(text: string, from: nat): (i: nat)
    requires from <= |text|
    ensures from <= i <= |text|
    ensures forall k :: from <= k < i ==> text[k] != '\n'
    ensures i < |text| ==> text[i] == '\n'
    decreases |text| - from
  {
    if from == |text| || text[from] == '\n' then from else LineEnd(text, from + 1)
  }

  predicate NoNewline(s: string) {
    forall k :: 0 <= k < |s| ==> s[k] != '\n'
  }

  lemma LineEndOf(line: string, rest: string)
    requires NoNewline(line)
    ensures LineEnd(line + "\n" + rest, 0) == |line|
  {
    var t := line + "\n" + rest;
    var i := LineEnd(t, 0);
    assert forall k :: 0 <= k < |line| ==> t[k] == line[k];
    assert t[|line|] == '\n';
  }

  /** Joins a line in front of a list of lines. */
  lemma JoinLinesCons(line: string, lines: seq<string>)
    ensures JoinLines([line] + lines) == line + "\n" + JoinLines(lines)
    decreases |lines|
  {
    if lines != [] {
      var all := [line] + lines;
      assert all[..|all| - 1] == [line] + lines[..|lines| - 1];
      JoinLinesCons(line, lines[..|lines| - 1]);
    }
  }

  /** A reader of the index text gets back exactly the lines written, even
      while a further line is only partly written. */
  lemma {:induction false} SplitJoinLines(lines: seq<string>, partial: string)
    requires forall i :: 0 <= i < |lines| ==> NoNewline(lines[i])
    requires NoNewline(partial)
    ensures SplitLines(JoinLines(lines) + partial) == lines
    decreases |lines|
  {
    if lines == [] {
      if partial != [] {
        assert LineEnd(partial, 0) == |partial|;
      }
    } else {
      var rest := lines[1..];
      assert lines == [lines[0]] + rest;
      JoinLinesCons(lines[0], rest);
      var t := JoinLines(lines) + partial;
      assert t == lines[0] + "\n" + (JoinLines(rest) + partial);
      LineEndOf(lines[0], JoinLines(rest) + partial);
      assert t[..|lines[0]|] == lines[0];
      assert t[|lines[0]| + 1..] == JoinLines(rest) + partial;
      SplitJoinLines(rest, partial);
    }
  }

  /** The index file after `close`: the staged lines, now at its path. */
  lemma AddAllThenClose(fs: Fs, w: IndexWriter, lines: seq<string>)
    requires Valid(fs, w)
    requires lines != [] || w.writer.Some?
    ensures var b := AddAll(fs, w, lines);
            var c := Close(b.fs, b.index);
            w.filePath in c.fs && c.fs[w.filePath] == Staged(fs, w) + JoinLines(lines)
  {
    AddAllAppends(fs, w, lines);
  }

  /** After `close`, the next `add_index` stages a fresh temporary file, so
      the following `close` replaces the index file with only the lines
      added since: lines added before the first `close` are lost. */
  lemma {:induction false} ReopenReplacesIndex(fs: Fs, w: IndexWriter, before: seq<string>, after: seq<string>)
    requires Valid(fs, w) && w.writer.Some?
    requires after != []
    ensures var b := AddAll(fs, w, before);
            var c := Close(b.fs, b.index);
            var d := AddAll(c.fs, c.index, after);
            var e := Close(d.fs, d.index);
            w.filePath in e.fs && e.fs[w.filePath] == JoinLines(after)
  {
    var b := AddAll(fs, w, before);
    var c := Close(b.fs, b.index);
    assert Staged(c.fs, c.index) == "";
    AddAllThenClose(c.fs, c.index, after);
  }
}
