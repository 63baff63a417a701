/** Naming of the event files: the step's parent directory number and the
    key `run_dir/events/S/S_worker_R.tfevents`, where S is the step
    zero-padded to twelve characters and R the rank padded to four. */
module EventKeys {
  import opened Results
  import opened Decimal
  import opened PyPath

  /** `step_parent`: Python's floor division by 1000, which for a positive
      divisor is Dafny's `/`. */
  function StepParent(step: int): (p: int)
    ensures p * 1000 <= step < (p + 1) * 1000
  {
    step / 1000
  }

  /** Digits, except perhaps a leading '-'. */
  predicate SignedDigits(s: string) {
    forall k :: 0 <= k < |s| ==> IsDigit(s[k]) || (k == 0 && s[k] == '-')
  }

  /** `format(step, '012')`: at least twelve characters, all digits but a
      leading '-' for a negative step. */
  function StepText(step: int): (r: string)
    ensures |r| >= 12 && SignedDigits(r)
    ensures step >= 0 ==> IsDigit(r[0])
    ensures step < 0 ==> r[0] == '-'
    ensures step >= 0 ==> |r| == if |Digits(step)| < 12 then 12 else |Digits(step)|
    ensures step < 0 ==> |r| == if |Digits(-step)| + 1 < 12 then 12 else |Digits(-step)| + 1
  {
    var r := FormatPadded(step, 12);
    assert step < 0 ==> forall k :: 1 <= k < |r| ==> r[k] == r[1..][k - 1];
    r
  }

  /** `format(rank, '04')`. */
  function RankText(rank: int): (r: string)
    ensures |r| >= 4 && SignedDigits(r)
    ensures rank >= 0 ==> IsDigit(r[0])
    ensures rank < 0 ==> r[0] == '-'
    ensures rank >= 0 ==> |r| == if |Digits(rank)| < 4 then 4 else |Digits(rank)|
    ensures rank < 0 ==> |r| == if |Digits(-rank)| + 1 < 4 then 4 else |Digits(-rank)| + 1
  {
    var r := FormatPadded(rank, 4);
    assert rank < 0 ==> forall k :: 1 <= k < |r| ==> r[k] == r[1..][k - 1];
    r
  }

  /** The event file's own name, `S_worker_R.tfevents`. */
  function EventFileName(step: int, worker: string, rank: int): string {
    StepText(step) + NameTail(worker, rank)
  }

  /** What follows the step text in the file name: `_worker_R.tfevents`. */
  function NameTail(worker: string, rank: int): string {
    "_" + worker + "_" + RankText(rank) + ".tfevents"
  }

  /** The directory an event file lies in: `run_dir/events/S`. */
  function StepDir(runDir: string, step: int): string {
    Join(runDir, "events") + "/" + StepText(step)
  }

  /** `os.path.join` of a relative name onto a directory not ending in '/'
      puts exactly one '/' between them. */
  lemma JoinRelative(a: string, b: string)
    requires a != [] && a[|a| - 1] != '/'
    requires !IsAbsolute(b)
    ensures Join(a, b) == a + "/" + b
  {
  }

  lemma LastOfAppend(a: string, b: string)
    requires b != []
    ensures (a + b)[|a + b| - 1] == b[|b| - 1]
  {
  }

  lemma FirstOfAppend(a: string, b: string)
    requires a != []
    ensures (a + b)[0] == a[0]
  {
  }

  lemma SuffixOfAppend(a: string, b: string)
    ensures (a + b)[|a|..] == b
  {
  }

  lemma Regroup(e: string, s: string, n: string)
    ensures e + "/" + s + "/" + n == e + ("/" + s + "/" + n)
  {
  }

  lemma StartsWithAppend(a: string, b: string, prefix: string)
    requires StartsWith(a, prefix)
    ensures StartsWith(a + b, prefix)
  {
    assert (a + b)[..|prefix|] == a[..|prefix|];
  }

  /** `get_event_key_for_step`: `run_dir` joined with "events", then the
      directory named by the step text, then the file name, each joined with
      a single '/'. */
  function EventKey(runDir: string, step: int, worker: string, rank: int): (r: string)
    ensures r == StepDir(runDir, step) + "/" + EventFileName(step, worker, rank)
    ensures StartsWith(r, runDir)
  {
    var s := StepText(step);
    var events := Join(runDir, "events");
    var name := EventFileName(step, worker, rank);
    assert events[|events| - 1] == 's';
    assert !IsAbsolute(s);
    JoinRelative(events, s);
    var dir := events + "/" + s;
    LastOfAppend(events + "/", s);
    FirstOfAppend(s, NameTail(worker, rank));
    JoinRelative(dir, name);
    Regroup(events, s, name);
    StartsWithAppend(events, "/" + s + "/" + name, runDir);
    Join(Join(events, s), name)
  }

  /** The index of the first `c` in `s`, or its length when there is none. */
  function FirstIndex(s: string, c: char): (i: nat)
    ensures i <= |s|
    ensures forall k :: 0 <= k < i ==> s[k] != c
    ensures i < |s| ==> s[i] == c
  {
    if s == [] || s[0] == c then 0 else 1 + FirstIndex(s[1..], c)
  }

  /** The integer a text of digits, optionally after a '-', denotes. */
  function ParseInt(s: string): (r: Option<int>)
  {
    if |s| >= 2 && s[0] == '-' && AllDigits(s[1..]) then Some(0 - ParseDigits(s[1..]))
    else if |s| >= 1 && AllDigits(s) then Some(ParseDigits(s))
    else None
  }

  /** The step an event key names: the number before the first '_' of its
      last path component. */
  function StepOfEventKey(key: string): Option<int> {
    var name := key[DirEnd(key)..];
    ParseInt(name[..FirstIndex(name, '_')])
  }

  predicate NoSlash(s: string) {
    forall k :: 0 <= k < |s| ==> s[k] != '/'
  }

  lemma NoSlashConcat(a: string, b: string)
    requires NoSlash(a) && NoSlash(b)
    ensures NoSlash(a + b)
  {
    assert forall k :: |a| <= k < |a + b| ==> (a + b)[k] == b[k - |a|];
  }

  lemma SignedDigitsNoSlash(s: string)
    requires SignedDigits(s)
    ensures NoSlash(s)
    ensures forall k :: 0 <= k < |s| ==> s[k] != '_'
  {
  }

  /** A key whose last component holds no '/' ends right after its last
      '/'. */
  lemma {:induction false} DirEndBeforeName(dir: string, name: string)
    requires NoSlash(name)
    ensures DirEnd(dir + "/" + name) == |dir| + 1
    decreases |name|
  {
    var key := dir + "/" + name;
    if name == [] {
      assert key[|key| - 1] == '/';
    } else {
      assert key[|key| - 1] == name[|name| - 1];
      assert key[..|key| - 1] == dir + "/" + name[..|name| - 1];
      DirEndBeforeName(dir, name[..|name| - 1]);
    }
  }

  /** `os.path.dirname(os.path.join(a, b))` is `a` again for a plain name `b`
      and a directory `a` not ending in '/'. */
  lemma DirnameOfJoin(a: string, b: string)
    requires a != [] && a[|a| - 1] != '/' && NoSlash(b)
    ensures Dirname(Join(a, b)) == a
  {
    var p := a + "/" + b;
    assert Join(a, b) == p;
    DirEndBeforeName(a, b);
    assert p[..|a| + 1] == a + "/";
    assert p[..|a|] == a;
    assert p[|a|..|a| + 1] == "/";
    assert p[..|a| + 1][|a| - 1] == a[|a| - 1];
    DirnameUnique(p, a);
  }

  /** The first '_' of a name made of the step text and its tail is the one
      right after the step text. */
  lemma FirstUnderscore(s: string, tail: string)
    requires forall k :: 0 <= k < |s| ==> s[k] != '_'
    requires tail != [] && tail[0] == '_'
    ensures FirstIndex(s + tail, '_') == |s|
    decreases |s|
  {
    if s != [] {
      assert (s + tail)[1..] == s[1..] + tail;
      FirstUnderscore(s[1..], tail);
    }
  }

  /** The step text reads back as the step. */
  lemma StepTextParses(step: int)
    ensures ParseInt(StepText(step)) == Some(step)
  {
    var s := StepText(step);
    FormatPaddedParses(step, 12);
    if step < 0 {
      assert !IsDigit(s[0]);
    }
  }

  /** The rank text reads back as the rank. */
  lemma RankTextParses(rank: int)
    ensures ParseInt(RankText(rank)) == Some(rank)
  {
    var s := RankText(rank);
    FormatPaddedParses(rank, 4);
    if rank < 0 {
      assert !IsDigit(s[0]);
    }
  }

  /** The step text of a key whose last component is a step text followed
      by a tail starting with '_'. */
  lemma StepOfKeyParts(dir: string, s: string, tail: string)
    requires NoSlash(s + tail)
    requires forall k :: 0 <= k < |s| ==> s[k] != '_'
    requires tail != [] && tail[0] == '_'
    ensures StepOfEventKey(dir + "/" + (s + tail)) == ParseInt(s)
  {
    DirEndBeforeName(dir, s + tail);
    SuffixOfAppend(dir + "/", s + tail);
    FirstUnderscore(s, tail);
    assert (s + tail)[..|s|] == s;
  }

  lemma NameTailShape(worker: string, rank: int)
    requires NoSlash(worker)
    ensures NoSlash(NameTail(worker, rank))
    ensures NameTail(worker, rank)[0] == '_'
  {
    SignedDigitsNoSlash(RankText(rank));
    assert NoSlash("_");
    assert NoSlash(".tfevents");
    NoSlashConcat("_", worker);
    NoSlashConcat("_" + worker, "_");
    NoSlashConcat("_" + worker + "_", RankText(rank));
    NoSlashConcat("_" + worker + "_" + RankText(rank), ".tfevents");
  }

  /** The step reads back from the key of its event file, whatever the run
      directory, provided the worker name holds no '/'. */
  lemma EventKeyNamesStep(runDir: string, step: int, worker: string, rank: int)
    requires NoSlash(worker)
    ensures StepOfEventKey(EventKey(runDir, step, worker, rank)) == Some(step)
  {
    var s := StepText(step);
    var tail := NameTail(worker, rank);
    StepTextParses(step);
    SignedDigitsNoSlash(s);
    NameTailShape(worker, rank);
    NoSlashConcat(s, tail);
    StepOfKeyParts(StepDir(runDir, step), s, tail);
  }
}
