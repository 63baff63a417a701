/** The local-file access layer: a file opened with one of `WRITE_MODES` is
    staged at a temporary path and moved over its final path when closed; any
    other mode Python's `open` accepts opens the final path itself. Reading
    works through a cursor over the text taken in by `ingest_all`.

    The disk is a map from path to contents. Writes reach the contents of the
    open file at once (buffering is not modelled), so "visible" means "present
    at the final path". */
module FileAccess {
  import opened Results
  import opened PyPath

  type Fs = map<string, string>

  /** The SageMaker tensor directory; its value lives in a configuration
      module outside this model, and no property below depends on it. */
  const SagemakerTornasolePath: string := "/opt/ml/output/tensors"
  const NonSagemakerTempPathPrefix: string := "/tmp"
  const SagemakerTempPathSuffix: string := ".tmp"

  const WriteModes: seq<string> := ["w", "w+", "wb", "wb+", "a", "a+", "ab", "ab+"]

  /** How Python's `open` opens a file: for reading ('r'), truncating ('w'),
      appending ('a') or exclusive creation ('x'), and whether the mode
      carries '+'. Text and binary handles behave alike in this model. */
  datatype Access = Reading | Truncating | Appending | Creating
  datatype OpenMode = OpenMode(access: Access, update: bool)

  /** The characters a mode string may hold. */
  const ModeLetters: string := "rwxabt+"

  /** The scan `open` makes of a mode string: every character must be a mode
      character that does not occur again later; the result is the set of
      them. */
  function ModeChars(mode: string): (r: Option<set<char>>)
  {
    if mode == [] then Some({})
    else if mode[0] !in ModeLetters || mode[0] in mode[1..] then None
    else
      match ModeChars(mode[1..])
      case None => None
      case Some(cs) => Some({mode[0]} + cs)
  }

  function Flag(b: bool): nat {
    if b then 1 else 0
  }

  /** Python's `open` reading a mode string: after the scan, exactly one of
      'r', 'w', 'x' and 'a' must be present, and not both 'b' and 't'. Every
      other string is a `ValueError`. */
  function ParseMode(mode: string): (r: Option<OpenMode>)
    ensures r.Some? ==> ModeChars(mode).Some?
    ensures r.Some? ==>
              && (r.value.access == Reading <==> 'r' in mode)
              && (r.value.access == Truncating <==> 'w' in mode)
              && (r.value.access == Appending <==> 'a' in mode)
              && (r.value.access == Creating <==> 'x' in mode)
              && (r.value.update <==> '+' in mode)
  {
    ModeCharsIff(mode);
    match ModeChars(mode)
    case None => None
    case Some(cs) =>
      if Flag('r' in cs) + Flag('w' in cs) + Flag('x' in cs) + Flag('a' in cs) != 1 || ('b' in cs && 't' in cs) then None
      else
        var access := if 'r' in cs then Reading else if 'w' in cs then Truncating else if 'a' in cs then Appending else Creating;
        Some(OpenMode(access, '+' in cs))
  }

  /** The mode strings `open` accepts, stated on the string itself: mode
      characters only, none repeated, one of 'r', 'w', 'x', 'a', and not
      both 'b' and 't'. */
  ghost predicate ValidMode(mode: string) {
    && (forall i :: 0 <= i < |mode| ==> mode[i] in ModeLetters)
    && (forall i, j :: 0 <= i < j < |mode| ==> mode[i] != mode[j])
    && Flag('r' in mode) + Flag('w' in mode) + Flag('x' in mode) + Flag('a' in mode) == 1
    && !('b' in mode && 't' in mode)
  }

  /** The scan accepts exactly the strings of distinct mode characters, and
      collects exactly their characters. */
  lemma {:induction false} ModeCharsIff(mode: string)
    ensures ModeChars(mode).Some? <==>
              && (forall i :: 0 <= i < |mode| ==> mode[i] in ModeLetters)
              && (forall i, j :: 0 <= i < j < |mode| ==> mode[i] != mode[j])
    ensures ModeChars(mode).Some? ==> forall c :: c in ModeChars(mode).value <==> c in mode
    decreases |mode|
  {
    if mode != [] {
      var t := mode[1..];
      ModeCharsIff(t);
      assert forall i :: 1 <= i < |mode| ==> mode[i] == t[i - 1];
      if mode[0] in t {
        var k :| 0 <= k < |t| && t[k] == mode[0];
        assert mode[k + 1] == mode[0];
      }
      if ModeChars(mode).Some? {
        assert forall c :: c in mode <==> c == mode[0] || c in t;
      }
    }
  }

  /** `ParseMode` accepts exactly the strings `open` accepts, and reads the
      access letter and the '+' off them. */
  lemma ParseModeAccepts(mode: string)
    ensures ParseMode(mode).Some? <==> ValidMode(mode)
    ensures ParseMode(mode).Some? ==>
              var m := ParseMode(mode).value;
              && (m.access == Reading <==> 'r' in mode)
              && (m.access == Truncating <==> 'w' in mode)
              && (m.access == Appending <==> 'a' in mode)
              && (m.access == Creating <==> 'x' in mode)
              && (m.update <==> '+' in mode)
  {
    ModeCharsIff(mode);
  }

  /** The accesses of the `WRITE_MODES` strings. */
  predicate IsWriteMode(m: OpenMode) {
    m.access == Truncating || m.access == Appending
  }

  /** Every string of `WRITE_MODES` is a mode `open` accepts, for truncating
      or appending. */
  lemma WriteModesParse(mode: string)
    requires mode in WriteModes
    ensures ParseMode(mode).Some? && IsWriteMode(ParseMode(mode).value)
    ensures ParseMode(mode).value.update <==> mode[|mode| - 1] == '+'
  {
    if mode == "w" || mode == "w+" || mode == "wb" || mode == "wb+" {
      TruncatingModes();
    } else {
      assert mode == "a" || mode == "a+" || mode == "ab" || mode == "ab+";
      AppendingModes();
    }
  }

  lemma TruncatingModes()
    ensures ParseMode("w") == Some(OpenMode(Truncating, false))
    ensures ParseMode("w+") == Some(OpenMode(Truncating, true))
    ensures ParseMode("wb") == Some(OpenMode(Truncating, false))
    ensures ParseMode("wb+") == Some(OpenMode(Truncating, true))
  {
  }

  lemma AppendingModes()
    ensures ParseMode("a") == Some(OpenMode(Appending, false))
    ensures ParseMode("a+") == Some(OpenMode(Appending, true))
    ensures ParseMode("ab") == Some(OpenMode(Appending, false))
    ensures ParseMode("ab+") == Some(OpenMode(Appending, true))
  {
  }

  /** Modes `open` accepts beyond `WRITE_MODES` and the plain read modes:
      letters in any order, '+' before 'b', an explicit 't', and 'x'. Then
      strings it refuses: empty, two access letters, a repeated letter, both
      'b' and 't', no access letter, and a character it does not know. */
  lemma ModesAcceptedExamples()
    ensures ParseMode("r+b") == Some(OpenMode(Reading, true))
    ensures ParseMode("w+b") == Some(OpenMode(Truncating, true))
    ensures ParseMode("bw") == Some(OpenMode(Truncating, false))
  {
  }

  lemma MoreModesAcceptedExamples()
    ensures ParseMode("at") == Some(OpenMode(Appending, false))
    ensures ParseMode("x") == Some(OpenMode(Creating, false))
    ensures ParseMode("x+") == Some(OpenMode(Creating, true))
  {
  }

  lemma ModesRefusedExamples()
    ensures ParseMode("") == None && ParseMode("rw") == None && ParseMode("ww") == None
    ensures ParseMode("rbt") == None && ParseMode("b") == None && ParseMode("U") == None
  {
  }

  /** Modes whose handle accepts `write`. */
  predicate Writable(m: OpenMode) {
    m.access != Reading || m.update
  }

  /** Modes whose handle accepts `read`. */
  predicate Readable(m: OpenMode) {
    m.access == Reading || m.update
  }

  function Contents(fs: Fs, p: string): string {
    if p in fs then fs[p] else ""
  }

  function Concat(ss: seq<string>): (r: string)
  {
    if ss == [] then "" else Concat(ss[..|ss| - 1]) + ss[|ss| - 1]
  }

  /** The temporary path outside the SageMaker directory: the path, made
      relative, joined onto /tmp. */
  function LocalTempPath(filePath: string): (r: string)
    ensures !StartsWith(filePath, "//") ==>
              StartsWith(r, "/tmp/") && r[5..] == (if IsAbsolute(filePath) then filePath[1..] else filePath)
    ensures StartsWith(filePath, "//") ==> r == filePath[1..]
    ensures r != filePath
  {
    var rest := if IsAbsolute(filePath) then filePath[1..] else filePath;
    if IsAbsolute(rest) then
      assert |filePath| >= 2 && filePath[..2] == "//";
      Join(NonSagemakerTempPathPrefix, rest)
    else
      var r := Join(NonSagemakerTempPathPrefix, rest);
      assert r == "/tmp/" + rest;
      assert |r| > |filePath|;
      r
  }

  /** `get_temp_path`: beside the file under the SageMaker directory,
      otherwise the same path re-rooted under /tmp. */
  function GetTempPath(filePath: string): (r: string)
    ensures StartsWith(Dirname(filePath), SagemakerTornasolePath) ==>
              r == filePath + SagemakerTempPathSuffix
    ensures !StartsWith(Dirname(filePath), SagemakerTornasolePath) && !StartsWith(filePath, "//") ==>
              StartsWith(r, "/tmp/") && r[5..] == (if IsAbsolute(filePath) then filePath[1..] else filePath)
    ensures !StartsWith(Dirname(filePath), SagemakerTornasolePath) && StartsWith(filePath, "//") ==>
              r == filePath[1..]
    ensures r != filePath
  {
    if StartsWith(Dirname(filePath), SagemakerTornasolePath) then
      var r := filePath + SagemakerTempPathSuffix;
      assert |r| > |filePath|;
      r
    else LocalTempPath(filePath)
  }

  /** Outside the SageMaker directory, distinct absolute paths that do not
      start with "//" are staged at distinct temporary paths. */
  lemma TempPathInjective(p: string, q: string)
    requires IsAbsolute(p) && IsAbsolute(q)
    requires !StartsWith(p, "//") && !StartsWith(q, "//")
    requires !StartsWith(Dirname(p), SagemakerTornasolePath)
    requires !StartsWith(Dirname(q), SagemakerTornasolePath)
    requires GetTempPath(p) == GetTempPath(q)
    ensures p == q
  {
    assert p == [p[0]] + p[1..];
    assert q == [q[0]] + q[1..];
  }

  /** A relative path and the absolute path spelled with the same letters
      share one temporary path, so two writers of them would collide. */
  lemma RelativeAndAbsoluteShareTempPath()
    ensures GetTempPath("a") == GetTempPath("/a") == "/tmp/a"
  {
    assert Dirname("a") == "";
    assert DirEnd("/a") == 1;
    assert Dirname("/a") == "/";
  }

  datatype Cursor = Cursor(data: string, datalen: nat, position: int)

  /** A `TSAccessFile`: `staged` records that its mode string is one of
      `WRITE_MODES`, `target` is the path the handle writes to and reads from
      (the temporary path when staged), `offset` is what `tell()` reports,
      and `cursor` is set by `ingest_all`. */
  datatype AccessFile = AccessFile(
    path: string,
    mode: OpenMode,
    staged: bool,
    target: string,
    offset: nat,
    closed: bool,
    cursor: Option<Cursor>)

  datatype FileError =
    | InvalidMode(mode: string)
    | FileNotFound(missing: string)
    | FileExists(existing: string)
    | ClosedFile
    | NotWritable
    | NotReadable
    | NotIngested
    | ReadPastEnd(position: int, n: int, datalen: nat)

  datatype Opened = Opened(fs: Fs, file: AccessFile)

  /** The handle's `tell()` is inside its file, and at its end in an
      appending mode. */
  ghost predicate Positioned(fs: Fs, f: AccessFile) {
    && f.offset <= |Contents(fs, f.target)|
    && (f.mode.access == Appending ==> f.offset == |Contents(fs, f.target)|)
  }

  /** `TSAccessFile.__init__` with one of `WRITE_MODES`: creates the
      temporary file, or, for 'a' modes, continues it, and leaves every other
      file alone. */
  function OpenWrite(fs: Fs, path: string, m: OpenMode): (r: Opened)
    ensures r.file == AccessFile(path, m, true, GetTempPath(path), r.file.offset, false, None)
    ensures r.fs.Keys == fs.Keys + {GetTempPath(path)}
    ensures forall p :: p in fs && p != GetTempPath(path) ==> r.fs[p] == fs[p]
    ensures Contents(r.fs, GetTempPath(path)) == (if m.access == Appending then Contents(fs, GetTempPath(path)) else "")
    ensures Positioned(r.fs, r.file)
  {
    var temp := GetTempPath(path);
    var initial := if m.access == Appending then Contents(fs, temp) else "";
    Opened(fs[temp := initial], AccessFile(path, m, true, temp, |initial|, false, None))
  }

  /** `TSAccessFile.__init__` with any other mode `open` accepts: the final
      path itself is opened. 'r' needs the file and 'x' needs it absent; 'w'
      and 'x' start it empty, and 'a' continues it with `tell()` at its end. */
  function OpenInPlace(fs: Fs, path: string, m: OpenMode): (r: Result<Opened, FileError>)
    ensures r.Ok? <==> (m.access == Reading ==> path in fs) && (m.access == Creating ==> path !in fs)
    ensures m.access == Reading && path !in fs ==> r == Err(FileNotFound(path))
    ensures m.access == Creating && path in fs ==> r == Err(FileExists(path))
    ensures r.Ok? ==> r.value.file == AccessFile(path, m, false, path, r.value.file.offset, false, None)
    ensures r.Ok? ==> r.value.fs.Keys == fs.Keys + {path}
    ensures r.Ok? ==> forall p :: p in fs && p != path ==> r.value.fs[p] == fs[p]
    ensures r.Ok? ==> Contents(r.value.fs, path) == (if m.access == Reading || m.access == Appending then Contents(fs, path) else "")
    ensures r.Ok? ==> Positioned(r.value.fs, r.value.file)
    ensures r.Ok? && m.access == Reading ==> r.value.fs == fs && r.value.file.offset == 0
  {
    match m.access
    case Reading =>
      if path in fs then Ok(Opened(fs, AccessFile(path, m, false, path, 0, false, None)))
      else Err(FileNotFound(path))
    case Creating =>
      if path in fs then Err(FileExists(path))
      else Ok(Opened(fs[path := ""], AccessFile(path, m, false, path, 0, false, None)))
    case Truncating =>
      Ok(Opened(fs[path := ""], AccessFile(path, m, false, path, 0, false, None)))
    case Appending =>
      var c := Contents(fs, path);
      Ok(Opened(fs[path := c], AccessFile(path, m, false, path, |c|, false, None)))
  }

  /** `TSAccessFile.__init__`: a mode string `open` refuses is an error; one
      of `WRITE_MODES` is staged at the temporary path, and every other mode
      opens the final path. */
  function Open(fs: Fs, path: string, mode: string): (r: Result<Opened, FileError>)
    ensures ParseMode(mode).None? ==> r == Err(InvalidMode(mode))
    ensures ParseMode(mode).Some? && mode in WriteModes ==> r == Ok(OpenWrite(fs, path, ParseMode(mode).value))
    ensures ParseMode(mode).Some? && mode !in WriteModes ==> r == OpenInPlace(fs, path, ParseMode(mode).value)
  {
    match ParseMode(mode)
    case None => Err(InvalidMode(mode))
    case Some(m) =>
      if mode in WriteModes then Ok(OpenWrite(fs, path, m))
      else OpenInPlace(fs, path, m)
  }

  /** `c` with `s` written over it from position `at`, growing it if needed. */
  function Overwrite(c: string, at: nat, s: string): (r: string)
    requires at <= |c|
    ensures |r| == if at + |s| <= |c| then |c| else at + |s|
    ensures r[..at] == c[..at]
    ensures r[at..at + |s|] == s
    ensures r[at + |s|..] == if at + |s| <= |c| then c[at + |s|..] else ""
  {
    c[..at] + s + (if at + |s| <= |c| then c[at + |s|..] else "")
  }

  datatype Written = Written(fs: Fs, file: AccessFile, start: nat, length: nat)

  /** `write`: returns `[start, length]` where `start` is `tell()` before the
      write. What it does to the files is stated by the lemmas after it. */
  function Write(fs: Fs, f: AccessFile, s: string): (r: Result<Written, FileError>)
    ensures r.Ok? <==> !f.closed && Writable(f.mode)
    ensures f.closed ==> r == Err(ClosedFile)
    ensures r.Ok? ==> r.value.start == f.offset && r.value.length == |s|
  {
    if f.closed then Err(ClosedFile)
    else if !Writable(f.mode) then Err(NotWritable)
    else
      var c := Contents(fs, f.target);
      var at := if f.mode.access == Appending || f.offset > |c| then |c| else f.offset;
      var c' := if at == |c| then c + s else Overwrite(c, at, s);
      Ok(Written(fs[f.target := c'], f.(offset := at + |s|), f.offset, |s|))
  }

  /** A write changes only the handle's own file and its `tell()`. */
  lemma WriteFrame(fs: Fs, f: AccessFile, s: string)
    requires Write(fs, f, s).Ok?
    ensures var w := Write(fs, f, s).value;
            && w.file == f.(offset := w.file.offset)
            && w.fs.Keys == fs.Keys + {f.target}
            && (forall p :: p in fs && p != f.target ==> w.fs[p] == fs[p])
  {
  }

  /** A write from a position inside the file overwrites the text there (at
      the end in an appending mode) and moves `tell()` past what it wrote. */
  lemma WriteOverwrites(fs: Fs, f: AccessFile, s: string)
    requires Write(fs, f, s).Ok? && Positioned(fs, f)
    ensures var w := Write(fs, f, s).value;
            && Positioned(w.fs, w.file)
            && w.file.offset == f.offset + |s|
            && Contents(w.fs, f.target) == Overwrite(Contents(fs, f.target), f.offset, s)
  {
    var c := Contents(fs, f.target);
    if f.offset == |c| {
      assert Overwrite(c, f.offset, s) == c + s;
    }
  }

  /** A write at the end of the file appends to it and keeps `tell()` at the
      end. */
  lemma WriteAppends(fs: Fs, f: AccessFile, s: string)
    requires Write(fs, f, s).Ok? && f.offset == |Contents(fs, f.target)|
    ensures var w := Write(fs, f, s).value;
            && w.file == f.(offset := |Contents(w.fs, f.target)|)
            && Contents(w.fs, f.target) == Contents(fs, f.target) + s
  {
  }

  /** `flush`: nothing to do in this model beyond refusing a closed handle. */
  function Flush(f: AccessFile): (r: Result<AccessFile, FileError>)
    ensures r.Ok? <==> !f.closed
    ensures r.Ok? ==> r.value == f
  {
    if f.closed then Err(ClosedFile) else Ok(f)
  }

  /** `shutil.move(src, dst)` on the model disk. */
  function Move(fs: Fs, src: string, dst: string): (r: Fs)
    requires src in fs
    ensures dst in r && r[dst] == fs[src]
    ensures src != dst ==> src !in r
    ensures forall p :: p != src && p != dst ==> (p in r <==> p in fs)
    ensures forall p :: p in fs && p != src && p != dst ==> r[p] == fs[p]
  {
    (fs - {src})[dst := fs[src]]
  }

  /** `close`: the handle closes; for one of `WRITE_MODES` the staged file
      then replaces the final path, which fails when the staged file is gone
      (as on a second close). */
  function Close(fs: Fs, f: AccessFile): (r: Result<Opened, FileError>)
    ensures r.Ok? <==> !f.staged || f.target in fs
    ensures r.Ok? ==> r.value.file == f.(closed := true)
    ensures r.Ok? && !f.staged ==> r.value.fs == fs
    ensures r.Ok? && f.staged ==>
              && f.path in r.value.fs
              && r.value.fs[f.path] == fs[f.target]
              && (f.target != f.path ==> f.target !in r.value.fs)
  {
    var closed := f.(closed := true);
    if f.staged then
      if f.target in fs then Ok(Opened(Move(fs, f.target, f.path), closed))
      else Err(FileNotFound(f.target))
    else
      Ok(Opened(fs, closed))
  }

  /** Closing a staged handle changes no file but the temp file, which goes,
      and the final path, which takes its text. */
  lemma CloseFrame(fs: Fs, f: AccessFile)
    requires f.staged && Close(fs, f).Ok?
    ensures var after := Close(fs, f).value.fs;
            && (f.target != f.path ==> after.Keys == fs.Keys - {f.target} + {f.path})
            && (forall p :: p in fs && p != f.target && p != f.path ==> p in after && after[p] == fs[p])
  {
  }

  /** `ingest_all`: takes in the rest of the file from `tell()` and starts the
      cursor at its beginning. */
  function IngestAll(fs: Fs, f: AccessFile): (r: Result<AccessFile, FileError>)
    ensures r.Ok? <==> !f.closed && Readable(f.mode)
    ensures r.Ok? ==>
              && r.value.cursor.Some?
              && r.value.cursor.value.position == 0
              && r.value.cursor.value.datalen == |r.value.cursor.value.data|
              && (f.offset <= |Contents(fs, f.target)| ==>
                    r.value.cursor.value.data == Contents(fs, f.target)[f.offset..])
              && r.value == f.(offset := |Contents(fs, f.target)|, cursor := r.value.cursor)
  {
    if f.closed then Err(ClosedFile)
    else if !Readable(f.mode) then Err(NotReadable)
    else
      var c := Contents(fs, f.target);
      var data := if f.offset <= |c| then c[f.offset..] else "";
      Ok(f.(offset := |c|, cursor := Some(Cursor(data, |data|, 0))))
  }

  /** Where Python's slice bound `i` falls in a text of length `len`: a
      negative bound counts from the end, and either is clamped into the
      text. */
  function SliceBound(i: int, len: nat): (r: nat)
    ensures r <= len
    ensures 0 <= i <= len ==> r == i
    ensures i < 0 && 0 <= len + i ==> r == len + i
    ensures len + i < 0 ==> r == 0
    ensures len < i ==> r == len
  {
    if i < 0 then (if len + i < 0 then 0 else len + i)
    else if i > len then len
    else i
  }

  /** Python's `s[a:b]`. */
  function Slice(s: string, a: int, b: int): (r: string)
    ensures 0 <= a <= b <= |s| ==> r == s[a..b]
    ensures SliceBound(b, |s|) <= SliceBound(a, |s|) ==> r == ""
    ensures SliceBound(a, |s|) < SliceBound(b, |s|) ==> r == s[SliceBound(a, |s|)..SliceBound(b, |s|)]
  {
    var lo, hi := SliceBound(a, |s|), SliceBound(b, |s|);
    if lo < hi then s[lo..hi] else ""
  }

  datatype ReadOut = ReadOut(text: string, file: AccessFile)

  /** `read(n)`: the slice of the ingested text from the cursor to `n`
      characters on, moving the cursor by `n`; only a cursor that would pass
      `datalen` fails the source's assertion, so a negative `n` moves it
      back. */
  function Read(f: AccessFile, n: int): (r: Result<ReadOut, FileError>)
    ensures f.cursor.None? ==> r == Err(NotIngested)
    ensures f.cursor.Some? ==> (r.Ok? <==> f.cursor.value.position + n <= f.cursor.value.datalen)
    ensures r.Ok? ==>
              var c := f.cursor.value;
              && r.value.file == f.(cursor := Some(c.(position := c.position + n)))
              && r.value.text == Slice(c.data, c.position, c.position + n)
              && (c.datalen == |c.data| && 0 <= c.position && 0 <= n ==>
                    r.value.text == c.data[c.position..c.position + n])
  {
    match f.cursor
    case None => Err(NotIngested)
    case Some(c) =>
      if c.position + n <= c.datalen then
        Ok(ReadOut(Slice(c.data, c.position, c.position + n), f.(cursor := Some(c.(position := c.position + n)))))
      else
        Err(ReadPastEnd(c.position, n, c.datalen))
  }

  /** A negative `n` passes the assertion and moves the cursor back; as the
      end of the slice then counts from the end of the text, such a read can
      still return text: from "abcdef" at position 1, `read(-3)` returns
      "bcd" and leaves the cursor at -2. */
  lemma NegativeReadRewinds(f: AccessFile, n: int)
    requires f.cursor.Some? && n < 0 && f.cursor.value.position <= f.cursor.value.datalen
    ensures Read(f, n).Ok?
    ensures Read(f, n).value.file.cursor.value.position < f.cursor.value.position
    ensures f.cursor.value == Cursor("abcdef", 6, 1) && n == -3 ==>
              Read(f, n).value.text == "bcd" && Read(f, n).value.file.cursor.value.position == -2
  {
    if f.cursor.value == Cursor("abcdef", 6, 1) && n == -3 {
      assert SliceBound(-2, 6) == 4;
      assert "abcdef"[1..4] == "bcd";
    }
  }

  /** `has_data`. */
  function HasData(f: AccessFile): (r: Result<bool, FileError>)
    ensures f.cursor.None? ==> r == Err(NotIngested)
    ensures f.cursor.Some? ==> r == Ok(f.cursor.value.position < f.cursor.value.datalen)
  {
    match f.cursor
    case None => Err(NotIngested)
    case Some(c) => Ok(c.position < c.datalen)
  }

  datatype Range = Range(start: nat, length: nat)

  datatype Batch = Batch(fs: Fs, file: AccessFile, ranges: seq<Range>)

  /** A run of `write` calls on one handle, collecting what each returned. */
  function WriteAll(fs: Fs, f: AccessFile, ss: seq<string>): (r: Result<Batch, FileError>)
    ensures r.Ok? ==> |r.value.ranges| == |ss|
  {
    if ss == [] then Ok(Batch(fs, f, []))
    else
      match WriteAll(fs, f, ss[..|ss| - 1])
      case Err(e) => Err(e)
      case Ok(b) =>
        match Write(b.fs, b.file, ss[|ss| - 1])
        case Err(e) => Err(e)
        case Ok(w) => Ok(Batch(w.fs, w.file, b.ranges + [Range(w.start, w.length)]))
  }

  /** One more write extends a run of writes. */
  lemma WriteAllSnoc(fs: Fs, f: AccessFile, ss: seq<string>)
    requires ss != []
    requires WriteAll(fs, f, ss[..|ss| - 1]).Ok?
    ensures var b := WriteAll(fs, f, ss[..|ss| - 1]).value;
            var w := Write(b.fs, b.file, ss[|ss| - 1]);
            WriteAll(fs, f, ss) == if w.Err? then Err(w.error)
                                   else Ok(Batch(w.value.fs, w.value.file, b.ranges + [Range(w.value.start, w.value.length)]))
  {
  }

  /** Writes that start at the end of the handle's file append to it,
      leave every other file alone and keep `tell()` at the end. */
  lemma {:induction false} WriteAllAppends(fs: Fs, f: AccessFile, ss: seq<string>)
    requires !f.closed && Writable(f.mode)
    requires f.offset == |Contents(fs, f.target)|
    ensures WriteAll(fs, f, ss).Ok?
    ensures var b := WriteAll(fs, f, ss).value;
            && b.file == f.(offset := b.file.offset)
            && Contents(b.fs, f.target) == Contents(fs, f.target) + Concat(ss)
            && b.file.offset == |Contents(b.fs, f.target)|
    decreases |ss|
  {
    if ss != [] {
      var n := |ss| - 1;
      var init := ss[..n];
      assert init == ss[..|ss| - 1];
      WriteAllAppends(fs, f, init);
      var b := WriteAll(fs, f, init).value;
      var w := Write(b.fs, b.file, ss[n]).value;
      assert WriteAll(fs, f, ss) == Ok(Batch(w.fs, w.file, b.ranges + [Range(w.start, w.length)]));
      assert Concat(ss) == Concat(init) + ss[n];
    }
  }

  /** A run of writes changes no file but the handle's own. */
  lemma {:induction false} WriteAllFrame(fs: Fs, f: AccessFile, ss: seq<string>, p: string)
    requires WriteAll(fs, f, ss).Ok?
    requires p in fs && p != f.target
    ensures WriteAll(fs, f, ss).value.file.target == f.target
    ensures p in WriteAll(fs, f, ss).value.fs && WriteAll(fs, f, ss).value.fs[p] == fs[p]
    decreases |ss|
  {
    if ss != [] {
      var init := ss[..|ss| - 1];
      WriteAllFrame(fs, f, init, p);
    }
  }

  /** The last of a run of writes from the end of the file appends its text
      there and returns the range it wrote. */
  lemma WriteAllStep(fs: Fs, f: AccessFile, ss: seq<string>)
    requires !f.closed && Writable(f.mode)
    requires f.offset == |Contents(fs, f.target)|
    requires ss != []
    ensures WriteAll(fs, f, ss[..|ss| - 1]).Ok? && WriteAll(fs, f, ss).Ok?
    ensures var b0 := WriteAll(fs, f, ss[..|ss| - 1]).value;
            var b := WriteAll(fs, f, ss).value;
            var c0 := Contents(b0.fs, f.target);
            && b.ranges == b0.ranges + [Range(|c0|, |ss[|ss| - 1]|)]
            && Contents(b.fs, f.target) == c0 + ss[|ss| - 1]
            && b0.file.offset == |c0|
            && b.file.offset == |c0| + |ss[|ss| - 1]|
  {
    var init, last := ss[..|ss| - 1], ss[|ss| - 1];
    WriteAllAppends(fs, f, init);
    var b0 := WriteAll(fs, f, init).value;
    WriteSnocStep(fs, f, ss, b0);
  }

  lemma WriteSnocStep(fs: Fs, f: AccessFile, ss: seq<string>, b0: Batch)
    requires ss != []
    requires WriteAll(fs, f, ss[..|ss| - 1]) == Ok(b0)
    requires b0.file == f.(offset := b0.file.offset) && !f.closed && Writable(f.mode)
    requires b0.file.offset == |Contents(b0.fs, f.target)|
    ensures WriteAll(fs, f, ss).Ok?
    ensures var b := WriteAll(fs, f, ss).value;
            var c0 := Contents(b0.fs, f.target);
            && b.ranges == b0.ranges + [Range(|c0|, |ss[|ss| - 1]|)]
            && Contents(b.fs, f.target) == c0 + ss[|ss| - 1]
            && b.file.offset == |c0| + |ss[|ss| - 1]|
  {
    WriteAllSnoc(fs, f, ss);
    WriteAppends(b0.fs, b0.file, ss[|ss| - 1]);
  }

  /** The ranges `rs` lie end to end from `start` to `end`, the i-th as long
      as the i-th text of `ss`. */
  predicate Tiles(rs: seq<Range>, ss: seq<string>, start: nat, end: nat) {
    && |rs| == |ss|
    && (forall i :: 0 <= i < |ss| ==> rs[i].length == |ss[i]|)
    && (|rs| == 0 ==> start == end)
    && (|rs| > 0 ==> rs[0].start == start && rs[|rs| - 1].start + rs[|rs| - 1].length == end)
    && (forall i :: 0 <= i < |rs| - 1 ==> rs[i + 1].start == rs[i].start + rs[i].length)
  }

  /** One more range, of the next text, right after the last extends a
      tiling. */
  lemma TilesSnoc(rs0: seq<Range>, ss0: seq<string>, start: nat, end: nat, t: string,
                  rs: seq<Range>, ss: seq<string>, end': nat)
    requires Tiles(rs0, ss0, start, end)
    requires ss != [] && ss0 == ss[..|ss| - 1] && t == ss[|ss| - 1]
    requires rs == rs0 + [Range(end, |t|)] && end' == end + |t|
    ensures Tiles(rs, ss, start, end')
  {
    assert forall i :: 0 <= i < |rs0| ==> rs[i] == rs0[i];
    assert forall i :: 0 <= i < |ss0| ==> ss[i] == ss0[i];
  }

  /** The ranges such writes return lie end to end from the old end of the
      file to its new end, each as long as the text its call wrote. */
  lemma {:induction false} WriteAllRanges(fs: Fs, f: AccessFile, ss: seq<string>)
    requires !f.closed && Writable(f.mode)
    requires f.offset == |Contents(fs, f.target)|
    ensures WriteAll(fs, f, ss).Ok?
    ensures var b := WriteAll(fs, f, ss).value;
            Tiles(b.ranges, ss, f.offset, b.file.offset)
    decreases |ss|
  {
    if ss != [] {
      var init, last := ss[..|ss| - 1], ss[|ss| - 1];
      WriteAllRanges(fs, f, init);
      WriteAllStep(fs, f, ss);
      var b0 := WriteAll(fs, f, init).value;
      var b := WriteAll(fs, f, ss).value;
      TilesSnoc(b0.ranges, init, f.offset, b0.file.offset, last, b.ranges, ss, b.file.offset);
    }
  }

  /** Every range in `rs` lies inside `c` and selects from it the text at
      the same index of `ss`. */
  predicate ReadsBack(c: string, rs: seq<Range>, ss: seq<string>)
    requires |rs| == |ss|
  {
    forall i :: 0 <= i < |ss| ==>
      && rs[i].start + rs[i].length <= |c|
      && c[rs[i].start..rs[i].start + rs[i].length] == ss[i]
  }

  /** Appending `t` to a file keeps the old ranges reading back and adds one
      for `t`. */
  lemma ReadsBackExtend(c: string, rs: seq<Range>, ss: seq<string>, t: string)
    requires |rs| == |ss| && ReadsBack(c, rs, ss)
    ensures ReadsBack(c + t, rs + [Range(|c|, |t|)], ss + [t])
  {
    var rs' := rs + [Range(|c|, |t|)];
    var ss' := ss + [t];
    forall i | 0 <= i < |ss'|
      ensures rs'[i].start + rs'[i].length <= |c + t|
      ensures (c + t)[rs'[i].start..rs'[i].start + rs'[i].length] == ss'[i]
    {
      if i < |ss| {
        assert rs'[i] == rs[i] && ss'[i] == ss[i];
        assert (c + t)[rs[i].start..rs[i].start + rs[i].length] == c[rs[i].start..rs[i].start + rs[i].length];
      } else {
        assert (c + t)[|c|..|c| + |t|] == t;
      }
    }
  }

  /** `ReadsBackExtend` with the extended file, ranges and texts named. */
  lemma ReadsBackSnoc(c0: string, rs0: seq<Range>, ss0: seq<string>, t: string, c: string, rs: seq<Range>, ss: seq<string>)
    requires |rs0| == |ss0| && ReadsBack(c0, rs0, ss0)
    requires ss != [] && ss0 == ss[..|ss| - 1] && t == ss[|ss| - 1]
    requires c == c0 + t && rs == rs0 + [Range(|c0|, |t|)]
    ensures |rs| == |ss| && ReadsBack(c, rs, ss)
  {
    ReadsBackExtend(c0, rs0, ss0, t);
    assert ss0 + [t] == ss;
  }

  /** Each range such writes return selects, from the file they leave behind,
      exactly the text its call wrote. */
  lemma {:induction false} WriteAllReadBack(fs: Fs, f: AccessFile, ss: seq<string>)
    requires !f.closed && Writable(f.mode)
    requires f.offset == |Contents(fs, f.target)|
    ensures WriteAll(fs, f, ss).Ok?
    ensures var b := WriteAll(fs, f, ss).value;
            ReadsBack(Contents(b.fs, f.target), b.ranges, ss)
    decreases |ss|
  {
    if ss != [] {
      var init, last := ss[..|ss| - 1], ss[|ss| - 1];
      WriteAllReadBack(fs, f, init);
      WriteAllStep(fs, f, ss);
      var b0 := WriteAll(fs, f, init).value;
      var b := WriteAll(fs, f, ss).value;
      ReadsBackSnoc(Contents(b0.fs, f.target), b0.ranges, init, last, Contents(b.fs, f.target), b.ranges, ss);
    }
  }

  function Sum(ns: seq<nat>): nat {
    if ns == [] then 0 else Sum(ns[..|ns| - 1]) + ns[|ns| - 1]
  }

  datatype Chunks = Chunks(texts: seq<string>, file: AccessFile)

  /** A run of `read` calls of the given sizes. */
  function ReadChunks(f: AccessFile, sizes: seq<nat>): (r: Result<Chunks, FileError>)
    ensures r.Ok? ==> |r.value.texts| == |sizes|
  {
    if sizes == [] then Ok(Chunks([], f))
    else
      match ReadChunks(f, sizes[..|sizes| - 1])
      case Err(e) => Err(e)
      case Ok(c) =>
        match Read(c.file, sizes[|sizes| - 1])
        case Err(e) => Err(e)
        case Ok(o) => Ok(Chunks(c.texts + [o.text], o.file))
  }

  /** Reading in chunks whose sizes add up to no more than what is left
      succeeds, returns consecutive pieces of the ingested text, and advances
      the cursor by their total. */
  lemma {:induction false} ReadChunksAdvance(f: AccessFile, sizes: seq<nat>)
    requires f.cursor.Some?
    requires f.cursor.value.datalen == |f.cursor.value.data| && 0 <= f.cursor.value.position
    requires f.cursor.value.position + Sum(sizes) <= f.cursor.value.datalen
    ensures ReadChunks(f, sizes).Ok?
    ensures var c := f.cursor.value;
            var r := ReadChunks(f, sizes).value;
            && r.file == f.(cursor := Some(c.(position := c.position + Sum(sizes))))
            && Concat(r.texts) == c.data[c.position..c.position + Sum(sizes)]
    decreases |sizes|
  {
    if sizes != [] {
      var init, k := sizes[..|sizes| - 1], sizes[|sizes| - 1];
      assert sizes == init + [k];
      ReadChunksAdvance(f, init);
      var c := f.cursor.value;
      var pos: nat := c.position;
      var s0 := Sum(init);
      assert Sum(sizes) == s0 + k;
      var r := ReadChunks(f, init).value;
      ReadChunksAdvanceStep(f, c, init, k, r, pos + s0);
      assert ReadChunks(f, sizes) ==
               Ok(Chunks(r.texts + [c.data[pos + s0..pos + s0 + k]], f.(cursor := Some(c.(position := pos + s0 + k)))));
      ConcatExtend(r.texts, c.data, pos, pos + s0, pos + s0 + k);
    }
  }

  /** One more read of `k` characters after a run that left the cursor at `at`. */
  lemma ReadChunksAdvanceStep(f: AccessFile, c: Cursor, init: seq<nat>, k: nat, r: Chunks, at: nat)
    requires f.cursor == Some(c) && c.datalen == |c.data| && at + k <= c.datalen
    requires ReadChunks(f, init) == Ok(r) && r.file == f.(cursor := Some(c.(position := at)))
    ensures ReadChunks(f, init + [k]) ==
              Ok(Chunks(r.texts + [c.data[at..at + k]], f.(cursor := Some(c.(position := at + k)))))
  {
    ReadAt(f, c, r.file, at, k);
    ReadChunksLast(f, init, k, r, ReadOut(c.data[at..at + k], f.(cursor := Some(c.(position := at + k)))));
  }

  /** `read(k)` from a cursor moved to `at` inside fully ingested text. */
  lemma ReadAt(f: AccessFile, c: Cursor, g: AccessFile, at: nat, k: nat)
    requires f.cursor == Some(c) && c.datalen == |c.data| && at + k <= c.datalen
    requires g == f.(cursor := Some(c.(position := at)))
    ensures Read(g, k) == Ok(ReadOut(c.data[at..at + k], f.(cursor := Some(c.(position := at + k)))))
  {
    assert SliceBound(at, c.datalen) == at && SliceBound(at + k, c.datalen) == at + k;
  }

  /** A run of reads extends the run of all but its last read. */
  lemma ReadChunksLast(f: AccessFile, init: seq<nat>, k: nat, r: Chunks, o: ReadOut)
    requires ReadChunks(f, init) == Ok(r) && Read(r.file, k) == Ok(o)
    ensures ReadChunks(f, init + [k]) == Ok(Chunks(r.texts + [o.text], o.file))
  {
    assert (init + [k])[..|init|] == init;
  }

  /** Pieces that rebuild `d[a..b]`, followed by `d[b..e]`, rebuild `d[a..e]`. */
  lemma ConcatExtend(texts: seq<string>, d: string, a: nat, b: nat, e: nat)
    requires a <= b <= e <= |d| && Concat(texts) == d[a..b]
    ensures Concat(texts + [d[b..e]]) == d[a..e]
  {
    SliceSplit(d, a, b, e);
    ConcatSnoc(texts, d[b..e]);
  }

  /** Chunks whose sizes add up to exactly what is left rebuild the rest of
      the ingested text, and `has_data` then turns false. */
  lemma ReadChunksRebuild(f: AccessFile, sizes: seq<nat>)
    requires f.cursor.Some?
    requires f.cursor.value.datalen == |f.cursor.value.data| && 0 <= f.cursor.value.position
    requires f.cursor.value.position + Sum(sizes) == f.cursor.value.datalen
    ensures ReadChunks(f, sizes).Ok?
    ensures HasData(ReadChunks(f, sizes).value.file) == Ok(false)
    ensures Concat(ReadChunks(f, sizes).value.texts) == f.cursor.value.data[f.cursor.value.position..]
  {
    ReadChunksAdvance(f, sizes);
  }


  lemma SliceSplit(s: string, a: nat, b: nat, c: nat)
    requires a <= b <= c <= |s|
    ensures s[a..c] == s[a..b] + s[b..c]
  {
  }

  lemma ConcatSnoc(ss: seq<string>, t: string)
    ensures Concat(ss + [t]) == Concat(ss) + t
  {
    assert (ss + [t])[..|ss|] == ss;
  }

  /** What a write-mode handle wrote becomes visible at its final path only on
      `close`: before it the final path keeps its old contents, afterwards it
      holds the staged text, and the range each `write` returned selects,
      from the file read back, exactly the text that call wrote. */
  lemma WrittenRangesReadBack(fs: Fs, path: string, mode: string, ss: seq<string>)
    requires mode in WriteModes
    ensures Open(fs, path, mode).Ok?
    ensures var o := Open(fs, path, mode).value;
            && WriteAll(o.fs, o.file, ss).Ok?
            && var b := WriteAll(o.fs, o.file, ss).value;
            && (path in fs ==> path in b.fs && b.fs[path] == fs[path])
            && Close(b.fs, b.file).Ok?
            && var after := Close(b.fs, b.file).value.fs;
            && path in after
            && after[path] == Contents(o.fs, o.file.target) + Concat(ss)
            && ReadsBack(after[path], b.ranges, ss)
  {
    WriteModesParse(mode);
    var m := ParseMode(mode).value;
    assert Open(fs, path, mode) == Ok(OpenWrite(fs, path, m));
    StagedRangesReadBack(fs, path, m, ss);
  }

  /** `WrittenRangesReadBack` for the handle `OpenWrite` makes. */
  lemma StagedRangesReadBack(fs: Fs, path: string, m: OpenMode, ss: seq<string>)
    requires IsWriteMode(m)
    ensures var o := OpenWrite(fs, path, m);
            && WriteAll(o.fs, o.file, ss).Ok?
            && var b := WriteAll(o.fs, o.file, ss).value;
            && (path in fs ==> path in b.fs && b.fs[path] == fs[path])
            && Close(b.fs, b.file).Ok?
            && var after := Close(b.fs, b.file).value.fs;
            && path in after
            && after[path] == Contents(o.fs, o.file.target) + Concat(ss)
            && ReadsBack(after[path], b.ranges, ss)
  {
    var o := OpenWrite(fs, path, m);
    var temp := GetTempPath(path);
    assert o.file.target == temp && temp != path && o.file.path == path && o.file.staged;
    WriteAllAppends(o.fs, o.file, ss);
    WriteAllReadBack(o.fs, o.file, ss);
    var b := WriteAll(o.fs, o.file, ss).value;
    assert b.file.target == temp && b.file.path == path && b.file.staged;
    assert temp in b.fs && b.fs[temp] == Contents(o.fs, temp) + Concat(ss);
    if path in fs {
      WriteAllFrame(o.fs, o.file, ss, path);
    }
    var after := Close(b.fs, b.file).value.fs;
    assert after[path] == b.fs[temp];
  }


  /** A mode `open` accepts outside `WRITE_MODES` that writes ("w+b", "at",
      "x", ...) writes the final path itself: the text is there before
      `close`, and `close` moves nothing. Only 'x' can fail, on a path that
      exists. */
  lemma InPlaceWritesVisible(fs: Fs, path: string, mode: string, ss: seq<string>)
    requires ParseMode(mode).Some? && mode !in WriteModes
    requires ParseMode(mode).value.access != Reading
    ensures Open(fs, path, mode).Ok? <==> ParseMode(mode).value.access != Creating || path !in fs
    ensures Open(fs, path, mode).Ok? ==>
              var o := Open(fs, path, mode).value;
              && o.file.target == path && !o.file.staged
              && WriteAll(o.fs, o.file, ss).Ok?
              && var b := WriteAll(o.fs, o.file, ss).value;
              && Contents(b.fs, path) ==
                   (if ParseMode(mode).value.access == Appending then Contents(fs, path) else "") + Concat(ss)
              && Close(b.fs, b.file) == Ok(Opened(b.fs, b.file.(closed := true)))
  {
    var m := ParseMode(mode).value;
    if OpenInPlace(fs, path, m).Ok? {
      var o := OpenInPlace(fs, path, m).value;
      WriteAllAppends(o.fs, o.file, ss);
    }
  }
}
