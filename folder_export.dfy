/** Saving a torrent's files into a directory the user picks (File System
    Access API): the directory tree is a value, each file's path is created
    directory by directory as `ensurePath` does, each file's data is written
    as a blob or chunk by chunk from a stream, and progress is reported as a
    rounded percentage of the torrent's total declared size. */
module FolderExport {
  import opened Wrappers
  import opened Text
  import opened Engine

  /** What exists at a path under the chosen directory. */
  datatype Entry = Dir | File(size: nat)

  /** The tree under the chosen directory, keyed by the list of names leading
      from it; the chosen directory itself is the empty path and not stored. */
  type Fs = map<seq<string>, Entry>

  /** The host's file name rule: not empty, not `.` or `..`, no `/`. */
  predicate ValidName(name: string) {
    name != "" && name != "." && name != ".." && '/' !in name
  }

  predicate IsFileAt(fs: Fs, p: seq<string>) { p in fs && fs[p].File? }

  predicate IsDirAt(fs: Fs, p: seq<string>) { p in fs && fs[p].Dir? }

  /** One call of the host API: the tree afterwards and whether it succeeded. */
  datatype Step = Step(fs: Fs, ok: bool)

  /** `getDirectoryHandle(name, {create: true})` on the parent of `p`: rejects a
      bad name or an existing file, creates the directory when absent. */
  function GetDir(fs: Fs, p: seq<string>): Step
    requires p != []
  {
    if !ValidName(p[|p| - 1]) || IsFileAt(fs, p) then Step(fs, false) else Step(fs[p := Dir], true)
  }

  /** `getFileHandle(name, {create: true})` on the parent of `p`: rejects a bad
      name or an existing directory, creates an empty file when absent. */
  function GetFile(fs: Fs, p: seq<string>): Step
    requires p != []
  {
    if !ValidName(p[|p| - 1]) || IsDirAt(fs, p) then Step(fs, false)
    else if p in fs then Step(fs, true)
    else Step(fs[p := File(0)], true)
  }

  /** The tree after `ensurePath` and the path of the file handle it returns. */
  datatype PathResult = PathResult(fs: Fs, file: Option<seq<string>>)

  /** Opens or creates the directories `t[..i + 1]`, ..., `t[..|t| - 1]` in turn,
      stopping at the first failure, then opens or creates the file `t`. */
  function MakeDirs(fs: Fs, t: seq<string>, i: nat): PathResult
    requires i < |t|
    decreases |t| - i
  {
    if i < |t| - 1 then
      var d := GetDir(fs, t[..i + 1]);
      if d.ok then MakeDirs(d.fs, t, i + 1) else PathResult(d.fs, None)
    else
      var f := GetFile(fs, t);
      PathResult(f.fs, if f.ok then Some(t) else None)
  }

  /** `filter(Boolean)` on strings. */
  function NonEmpty(l: seq<string>): (r: seq<string>)
    ensures |r| <= |l|
  {
    if l == [] then [] else (if l[0] == "" then [] else [l[0]]) + NonEmpty(l[1..])
  }

  /** The filter keeps exactly the non-empty strings. */
  lemma {:induction false} NonEmptyMembers(l: seq<string>, x: string)
    ensures x in NonEmpty(l) <==> x in l && x != ""
    decreases |l|
  {
    if l != [] {
      NonEmptyMembers(l[1..], x);
      assert l == [l[0]] + l[1..];
    }
  }

  /** `pathStr.split('/').filter(Boolean)`. */
  function Segments(pathStr: string): seq<string> {
    NonEmpty(Split(pathStr, '/'))
  }

  /** A path to a file: at least its own name. */
  type FilePath = t: seq<string> | t != [] witness [""]

  /** Where `ensurePath` puts the file: under the segments, or, when there are
      none, at the whole string used as a single name. */
  function Target(pathStr: string): FilePath {
    var segs := Segments(pathStr);
    if segs == [] then [pathStr] else segs
  }

  function EnsurePath(fs: Fs, pathStr: string): PathResult {
    MakeDirs(fs, Target(pathStr), 0)
  }

  /** The path can be opened from position `i` on: every name from `t[i]` on is
      valid, no directory still to traverse is a file, and `t` is no directory. */
  predicate Creatable(fs: Fs, t: seq<string>, i: nat)
    requires i < |t|
  {
    (forall j :: i <= j < |t| ==> ValidName(t[j]))
    && (forall j :: i < j < |t| ==> !IsFileAt(fs, t[..j]))
    && !IsDirAt(fs, t)
  }

  /** `ensurePath` succeeds exactly when the path can be created, and then hands
      back the handle of the file at `t`. */
  lemma {:induction false} MakeDirsOk(fs: Fs, t: seq<string>, i: nat)
    requires i < |t|
    ensures var r := MakeDirs(fs, t, i);
      (r.file.Some? <==> Creatable(fs, t, i)) && (r.file.Some? ==> r.file.value == t)
    decreases |t| - i
  {
    if i < |t| - 1 {
      var p := t[..i + 1];
      var d := GetDir(fs, p);
      if d.ok {
        MakeDirsOk(d.fs, t, i + 1);
        forall j | i + 1 < j < |t|
          ensures IsFileAt(d.fs, t[..j]) <==> IsFileAt(fs, t[..j])
        {
          assert |t[..j]| != |p|;
        }
        assert IsDirAt(d.fs, t) <==> IsDirAt(fs, t) by {
          assert |t| != |p|;
        }
      } else {
        if !ValidName(t[i]) {
          assert p[|p| - 1] == t[i];
        }
      }
    }
  }

  /** `ensurePath` never alters what already exists. */
  lemma {:induction false} MakeDirsKeeps(fs: Fs, t: seq<string>, i: nat)
    requires i < |t|
    ensures var r := MakeDirs(fs, t, i);
      forall p :: p in fs ==> p in r.fs && r.fs[p] == fs[p]
    decreases |t| - i
  {
    if i < |t| - 1 {
      var d := GetDir(fs, t[..i + 1]);
      if d.ok {
        MakeDirsKeeps(d.fs, t, i + 1);
      }
    }
  }

  /** What `ensurePath` adds lies on the way to `t`: directories, and an empty
      file at `t` itself. */
  lemma {:induction false} MakeDirsAdds(fs: Fs, t: seq<string>, i: nat)
    requires i < |t|
    ensures var r := MakeDirs(fs, t, i);
      forall p :: p in r.fs && p !in fs ==>
        i < |p| <= |t| && p == t[..|p|] && r.fs[p] == if |p| == |t| then File(0) else Dir
    decreases |t| - i
  {
    if i < |t| - 1 {
      var d := GetDir(fs, t[..i + 1]);
      if d.ok {
        var q := t[..i + 1];
        assert forall p :: p in d.fs && p !in fs ==> p == q && d.fs[p] == Dir by {
          assert d.fs == fs[q := Dir];
        }
        var r := MakeDirs(d.fs, t, i + 1);
        assert MakeDirs(fs, t, i) == r;
        MakeDirsAdds(d.fs, t, i + 1);
        MakeDirsKeeps(d.fs, t, i + 1);
        forall p | p in r.fs && p !in fs
          ensures i < |p| <= |t| && p == t[..|p|] && r.fs[p] == if |p| == |t| then File(0) else Dir
        {
          if p in d.fs {
            assert p == q && r.fs[p] == Dir && |p| == i + 1;
          }
        }
      }
    } else {
      assert t[..|t|] == t;
    }
  }

  /** After a successful `ensurePath` every step of the path exists,
      directories before the file. */
  lemma {:induction false} MakeDirsPath(fs: Fs, t: seq<string>, i: nat)
    requires i < |t|
    ensures var r := MakeDirs(fs, t, i);
      r.file.Some? ==> forall j :: i < j <= |t| ==> t[..j] in r.fs && (r.fs[t[..j]].Dir? <==> j < |t|)
    decreases |t| - i
  {
    var r := MakeDirs(fs, t, i);
    if i < |t| - 1 {
      var p := t[..i + 1];
      var d := GetDir(fs, p);
      if d.ok && r.file.Some? {
        MakeDirsPath(d.fs, t, i + 1);
        MakeDirsKeeps(d.fs, t, i + 1);
        assert t[..i + 1] == p;
      }
    } else {
      assert t[..|t|] == t;
    }
  }

  /** `ensurePath`: the loop that shifts directory names off the segment list,
      then opens the file. */
  method EnsurePathSteps(fs0: Fs, pathStr: string) returns (fs: Fs, file: Option<seq<string>>)
    ensures fs == EnsurePath(fs0, pathStr).fs && file == EnsurePath(fs0, pathStr).file
  {
    var parts := Segments(pathStr);
    var parent: seq<string> := [];
    fs := fs0;
    ghost var t := Target(pathStr);
    while |parts| > 1
      invariant parts != [] ==> t == parent + parts && MakeDirs(fs0, t, 0) == MakeDirs(fs, t, |parent|)
      invariant parts == [] ==> Segments(pathStr) == [] && parent == [] && fs == fs0
      decreases |parts|
    {
      var dirName := parts[0];
      parts := parts[1..];
      assert t[..|parent| + 1] == parent + [dirName];
      var step := GetDir(fs, parent + [dirName]);
      if !step.ok {
        return step.fs, None;
      }
      fs := step.fs;
      parent := parent + [dirName];
    }
    var fileName := if parts != [] then parts[0] else pathStr;
    assert parent + [fileName] == t;
    var step := GetFile(fs, parent + [fileName]);
    fs := step.fs;
    file := if step.ok then Some(parent + [fileName]) else None;
  }

  /** A path string with no segments (empty, or only slashes) cannot be saved. */
  lemma EnsurePathNoSegments(fs: Fs, pathStr: string)
    requires Segments(pathStr) == []
    ensures EnsurePath(fs, pathStr).file == None
    ensures pathStr == "" || '/' in pathStr
  {
    SegmentsOfName(pathStr);
    MakeDirsOk(fs, Target(pathStr), 0);
  }

  /** A non-empty string without `/` is a single segment. */
  lemma SegmentsOfName(pathStr: string)
    ensures pathStr != "" && '/' !in pathStr ==> Segments(pathStr) == [pathStr]
  {
    if pathStr != "" && '/' !in pathStr {
      SplitNoSeparator(pathStr, '/');
      assert NonEmpty([pathStr]) == [pathStr] + NonEmpty([]);
    }
  }

  /** Opening a path a second time finds everything in place and changes nothing. */
  lemma EnsurePathIdempotent(fs: Fs, pathStr: string)
    requires EnsurePath(fs, pathStr).file.Some?
    ensures var r := EnsurePath(fs, pathStr);
      EnsurePath(r.fs, pathStr) == r
  {
    var t := Target(pathStr);
    var r := EnsurePath(fs, pathStr);
    MakeDirsOk(fs, t, 0);
    MakeDirsPath(fs, t, 0);
    MakeDirsOk(r.fs, t, 0);
    MakeDirsKeeps(r.fs, t, 0);
    MakeDirsAdds(r.fs, t, 0);
    var r2 := EnsurePath(r.fs, pathStr);
    assert Creatable(r.fs, t, 0) by {
      forall j | 0 < j < |t|
        ensures !IsFileAt(r.fs, t[..j])
      {
      }
      assert t[..|t|] == t;
    }
    assert r2.fs == r.fs;
  }

  // ---- writing ----

  /** The byte counts written for a file, one per `write` call. */
  function Writes(c: Content): seq<nat> {
    match c
    case Blob(size) => [size]
    case Stream(chunks, _) => chunks
    case _ => []
  }

  function Sum(s: seq<nat>): nat {
    if s == [] then 0 else Sum(s[..|s| - 1]) + s[|s| - 1]
  }

  lemma SumPrefix(s: seq<nat>, k: nat)
    requires k < |s|
    ensures Sum(s[..k + 1]) == Sum(s[..k]) + s[k]
  {
    assert s[..k + 1][..k] == s[..k];
  }

  lemma {:induction false} SumCons(x: nat, s: seq<nat>)
    ensures Sum([x] + s) == x + Sum(s)
    decreases |s|
  {
    if s != [] {
      assert ([x] + s)[..|[x] + s| - 1] == [x] + s[..|s| - 1];
      SumCons(x, s[..|s| - 1]);
    } else {
      assert [x] + s == [x];
    }
  }

  /** `Math.min(100, Math.round(written / total * 100))`, or 0 for a zero total;
      `Math.round` rounds halves up. */
  function Percent(written: nat, total: nat): (r: nat)
    ensures r <= 100
  {
    if total > 0 then Min(100, (200 * written + total) / (2 * total)) else 0
  }

  function Min(a: nat, b: nat): nat { if a < b then a else b }

  /** Below 100 the percentage is `100 * written / total` rounded to the
      nearest integer (halves up); it reaches 100 only once that rounded
      value does, and a zero total always gives 0. */
  lemma PercentRounds(written: nat, total: nat)
    ensures var r := Percent(written, total);
      (total == 0 ==> r == 0)
      && (total > 0 && r < 100 ==> 2 * total * r <= 200 * written + total < 2 * total * (r + 1))
      && (total > 0 && r == 100 ==> 200 * total <= 200 * written + total)
  {
    if total > 0 {
      var q := (200 * written + total) / (2 * total);
      DivBounds(200 * written + total, 2 * total);
      if q < 100 {
        assert Percent(written, total) == q;
      }
    }
  }

  lemma DivBounds(a: nat, b: nat)
    requires b > 0
    ensures b * (a / b) <= a < b * (a / b + 1)
  {
  }

  lemma PercentMonotone(w1: nat, w2: nat, total: nat)
    requires w1 <= w2
    ensures Percent(w1, total) <= Percent(w2, total)
  {
    if total > 0 {
      DivMonotone(200 * w1 + total, 200 * w2 + total, 2 * total);
    }
  }

  lemma DivMonotone(a: nat, b: nat, d: nat)
    requires a <= b && d > 0
    ensures a / d <= b / d
  {
    DivBounds(a, d);
    DivBounds(b, d);
  }

  lemma DivExact(a: nat, b: nat, q: nat)
    requires b > 0 && b * q <= a < b * q + b
    ensures a / b == q
  {
    DivBounds(a, b);
    var r := a / b;
    if r < q {
      MulLe(b, r + 1, q);
    } else if r > q {
      MulLe(b, q + 1, r);
    }
  }

  lemma MulLe(b: nat, x: nat, y: nat)
    requires x <= y
    ensures b * x <= b * y
  {
  }

  /** Nothing written is 0%, and writing the whole declared size is 100%. */
  lemma PercentEnds(written: nat, total: nat)
    ensures Percent(0, total) == 0
    ensures total > 0 && written >= total ==> Percent(written, total) == 100
  {
    if total > 0 {
      DivExact(total, 2 * total, 0);
      if written >= total {
        DivExact(201 * total, 2 * total, 100);
        DivMonotone(201 * total, 200 * written + total, 2 * total);
      }
    }
  }

  /** A progress report: the percentage and the path of the file being written. */
  datatype Progress = Progress(percent: nat, file: Option<string>)

  /** The reports emitted while writing `ws`, starting from `written` bytes. */
  function WriteEvents(ws: seq<nat>, total: nat, written: nat, fullPath: string): (r: seq<Progress>)
    ensures |r| == |ws|
  {
    if ws == [] then []
    else [Progress(Percent(written + ws[0], total), Some(fullPath))] + WriteEvents(ws[1..], total, written + ws[0], fullPath)
  }

  /** The `k`-th report counts every byte written up to and including the
      `k`-th write. */
  lemma {:induction false} WriteEventsPercent(ws: seq<nat>, total: nat, written: nat, fullPath: string, k: nat)
    requires k < |ws|
    ensures WriteEvents(ws, total, written, fullPath)[k].percent == Percent(written + Sum(ws[..k + 1]), total)
    decreases k
  {
    if k == 0 {
      assert ws[..1] == [ws[0]];
      assert Sum([ws[0]]) == Sum([ws[0]][..0]) + ws[0];
    } else {
      WriteEventsPercent(ws[1..], total, written + ws[0], fullPath, k - 1);
      assert ws[..k + 1] == [ws[0]] + ws[1..][..k];
      SumCons(ws[0], ws[1..][..k]);
    }
  }

  /** The stream branch: read chunks until the reader is done, writing each one
      and reporting progress after it. */
  method WriteChunks(chunks: seq<nat>, total: nat, written0: nat, fullPath: string)
    returns (written: nat, events: seq<Progress>)
    ensures written == written0 + Sum(chunks)
    ensures events == WriteEvents(chunks, total, written0, fullPath)
  {
    written := written0;
    events := [];
    var i := 0;
    while i < |chunks|
      invariant i <= |chunks|
      invariant written == written0 + Sum(chunks[..i])
      invariant WriteEvents(chunks, total, written0, fullPath) == events + WriteEvents(chunks[i..], total, written, fullPath)
    {
      SumPrefix(chunks, i);
      assert chunks[i..][1..] == chunks[i + 1..];
      written := written + chunks[i];
      events := events + [Progress(Percent(written, total), Some(fullPath))];
      i := i + 1;
    }
    assert chunks[..i] == chunks;
  }

  /** `f.path || f.name` with backslashes turned into slashes. */
  function FullPath(f: EngineFile): (r: string)
    ensures '\\' !in r
  {
    ReplaceChar(if f.path != "" then f.path else f.name, '\\', '/')
  }

  /** `Number(f.length) || 0` summed over the files. */
  function TotalBytes(jobs: seq<Job>): nat {
    if jobs == [] then 0 else jobs[0].declared + TotalBytes(jobs[1..])
  }

  /** The state of the file loop: the tree, the bytes written, the reports
      emitted, and whether it ran to the end without throwing. */
  datatype Run = Run(fs: Fs, written: nat, events: seq<Progress>, ok: bool)

  /** A run preceded by the reports `events`. */
  function Then(events: seq<Progress>, run: Run): Run {
    run.(events := events + run.events)
  }

  /** What the export needs of a file: the path string it reports, where
      `ensurePath` puts it, how its data reads, and its declared length. */
  datatype Job = Job(fullPath: string, target: FilePath, content: Content, declared: nat)

  function JobOf(f: EngineFile): (job: Job)
    ensures WellFormed(job)
  {
    var fullPath := FullPath(f);
    Job(fullPath, Target(fullPath), f.content, if f.length.Some? then f.length.value else 0)
  }

  /** The job's target is where `ensurePath` puts its path string. */
  predicate WellFormed(job: Job) {
    job.target == Target(job.fullPath)
  }

  function Jobs(files: seq<EngineFile>): (jobs: seq<Job>)
    ensures |jobs| == |files|
  {
    seq(|files|, i requires 0 <= i < |files| => JobOf(files[i]))
  }

  /** One pass of the file loop: open the file's path, get a writable, write
      the data and close. A path that cannot be created or a `createWritable`
      that rejects throws out of the loop (`ok` false); a file whose data cannot
      be read is closed with whatever was written and the loop goes on. */
  function SaveFile(fs: Fs, job: Job, total: nat, written: nat): Run {
    var e := MakeDirs(fs, job.target, 0);
    if e.file.None? || job.content.Unwritable? then Run(e.fs, written, [], false)
    else
      var ws := Writes(job.content);
      Run(e.fs[e.file.value := File(Sum(ws))], written + Sum(ws), WriteEvents(ws, total, written, job.fullPath), true)
  }

  /** The file loop from `jobs[0]` on. */
  function ExportFrom(fs: Fs, jobs: seq<Job>, total: nat, written: nat): Run
    decreases |jobs|
  {
    if jobs == [] then Run(fs, written, [], true)
    else
      var s := SaveFile(fs, jobs[0], total, written);
      if !s.ok then s else Then(s.events, ExportFrom(s.fs, jobs[1..], total, s.written))
  }

  lemma ExportFromCons(fs: Fs, jobs: seq<Job>, total: nat, written: nat, r: Run)
    requires jobs != [] && r == SaveFile(fs, jobs[0], total, written)
    ensures !r.ok ==> ExportFrom(fs, jobs, total, written) == Then(r.events, Run(r.fs, r.written, [], false))
    ensures r.ok ==> ExportFrom(fs, jobs, total, written) == Then(r.events, ExportFrom(r.fs, jobs[1..], total, r.written))
  {
  }

  /** The file loop's invariant survives one more file, or the loop's result
      is reached when that file throws. */
  lemma ExportLoopStep(goal: Run, events: seq<Progress>, fs: Fs, jobs: seq<Job>, i: nat,
                       total: nat, written: nat, r: Run)
    requires i < |jobs|
    requires goal == Then(events, ExportFrom(fs, jobs[i..], total, written))
    requires r == SaveFile(fs, jobs[i], total, written)
    ensures !r.ok ==> Run(r.fs, r.written, events + r.events, false) == goal
    ensures r.ok ==> goal == Then(events + r.events, ExportFrom(r.fs, jobs[i + 1..], total, r.written))
  {
    assert jobs[i..][0] == jobs[i] && jobs[i..][1..] == jobs[i + 1..];
    ExportFromCons(fs, jobs[i..], total, written, r);
    if !r.ok {
      ThenThen(goal, events, ExportFrom(fs, jobs[i..], total, written), r.events, Run(r.fs, r.written, [], false));
    } else {
      ThenThen(goal, events, ExportFrom(fs, jobs[i..], total, written), r.events, ExportFrom(r.fs, jobs[i + 1..], total, r.written));
    }
  }

  lemma ThenThen(x: Run, e1: seq<Progress>, y: Run, e2: seq<Progress>, z: Run)
    requires x == Then(e1, y) && y == Then(e2, z)
    ensures x == Then(e1 + e2, z)
  {
    assert e1 + (e2 + z.events) == e1 + e2 + z.events;
  }

  /** The result of `saveTorrentToFolder` once the torrent is chosen. */
  datatype Outcome = Outcome(saved: bool, events: seq<Progress>, fs: Fs)

  /** The export: `direct` is the torrent's file list when the export starts
      and `waited` the list once the wait for metadata is over; `hasPicker`
      says whether the directory picker exists and `granted` whether the user
      picked a directory. */
  function Export(direct: seq<Job>, waited: seq<Job>, hasPicker: bool, granted: bool, fs: Fs): Outcome {
    if !hasPicker || !granted then Outcome(false, [], fs)
    else
      var jobs := if direct != [] then direct else waited;
      if jobs == [] then Outcome(false, [], fs)
      else
        var total := TotalBytes(jobs);
        var run := ExportFrom(fs, jobs, total, 0);
        Outcome(run.ok,
          [Progress(Percent(0, total), None)] + run.events
            + (if run.ok then [Progress(Percent(run.written, total), None)] else []),
          run.fs)
  }

  /** Writes one file's data: a blob in one `write`, or a stream chunk by chunk;
      a file offering neither is left empty. */
  method WriteFile(content: Content, total: nat, written0: nat, fullPath: string)
    returns (written: nat, events: seq<Progress>)
    ensures written == written0 + Sum(Writes(content))
    ensures events == WriteEvents(Writes(content), total, written0, fullPath)
  {
    match content {
      case Blob(size) =>
        written := written0 + size;
        events := [Progress(Percent(written, total), Some(fullPath))];
        assert Sum([size]) == Sum([size][..0]) + size;
      case Stream(chunks, _) =>
        written, events := WriteChunks(chunks, total, written0, fullPath);
      case _ =>
        written, events := written0, [];
    }
  }

  /** One pass of the file loop. */
  method SaveFileSteps(fs0: Fs, job: Job, total: nat, written0: nat)
    returns (fs: Fs, written: nat, events: seq<Progress>, ok: bool)
    requires WellFormed(job)
    ensures Run(fs, written, events, ok) == SaveFile(fs0, job, total, written0)
  {
    var file;
    fs, file := EnsurePathSteps(fs0, job.fullPath);
    if file.None? || job.content.Unwritable? {
      return fs, written0, [], false;
    }
    written, events := WriteFile(job.content, total, written0, job.fullPath);
    fs := fs[file.value := File(written - written0)];
    ok := true;
  }

  /** One pass of the file loop, with the loop's invariant carried over to
      the next file, or the loop's result reached when the file aborts. */
  method ExportStep(ghost goal: Run, fs0: Fs, jobs: seq<Job>, i: nat, total: nat, written0: nat, events0: seq<Progress>)
    returns (fs: Fs, written: nat, events: seq<Progress>, ok: bool)
    requires i < |jobs| && WellFormed(jobs[i])
    requires goal == Then(events0, ExportFrom(fs0, jobs[i..], total, written0))
    ensures !ok ==> Run(fs, written, events, false) == goal
    ensures ok ==> goal == Then(events, ExportFrom(fs, jobs[i + 1..], total, written))
  {
    var evs;
    fs, written, evs, ok := SaveFileSteps(fs0, jobs[i], total, written0);
    ExportLoopStep(goal, events0, fs0, jobs, i, total, written0, Run(fs, written, evs, ok));
    events := events0 + evs;
  }

  /** The file loop. */
  method ExportFiles(fs0: Fs, jobs: seq<Job>, total: nat)
    returns (fs: Fs, written: nat, events: seq<Progress>, ok: bool)
    requires forall i :: 0 <= i < |jobs| ==> WellFormed(jobs[i])
    ensures Run(fs, written, events, ok) == ExportFrom(fs0, jobs, total, 0)
  {
    fs, written, events := fs0, 0, [];
    ghost var goal := ExportFrom(fs0, jobs, total, 0);
    var i := 0;
    while i < |jobs|
      invariant i <= |jobs|
      invariant goal == Then(events, ExportFrom(fs, jobs[i..], total, written))
    {
      var fs1, written1, events1, ok1 := ExportStep(goal, fs, jobs, i, total, written, events);
      if !ok1 {
        return fs1, written1, events1, false;
      }
      fs, written, events := fs1, written1, events1;
      i := i + 1;
    }
    ok := true;
  }

  /** `saveTorrentToFolder` after the torrent is chosen: check for the picker,
      pick, get the files, report 0%, run the file loop, report the final
      percentage. */
  method SaveToFolder(direct: seq<EngineFile>, waited: seq<EngineFile>, hasPicker: bool, granted: bool, fs0: Fs)
    returns (saved: bool, events: seq<Progress>, fs: Fs)
    ensures Outcome(saved, events, fs) == Export(Jobs(direct), Jobs(waited), hasPicker, granted, fs0)
  {
    if !hasPicker || !granted {
      return false, [], fs0;
    }
    var files := if direct != [] then direct else waited;
    if files == [] {
      return false, [], fs0;
    }
    var jobs := Jobs(files);
    var total := TotalBytes(jobs);
    events := [Progress(Percent(0, total), None)];
    var written, evs;
    fs, written, evs, saved := ExportFiles(fs0, jobs, total);
    events := events + evs;
    if saved {
      events := events + [Progress(Percent(written, total), None)];
    }
  }

  // ---- properties of the export ----

  /** Every entry of `fs` is still in `fs2`, as the same kind. */
  predicate KindsKept(fs: Fs, fs2: Fs) {
    forall p :: p in fs ==> p in fs2 && fs2[p].Dir? == fs[p].Dir?
  }

  /** One file aborts the export exactly when its `createWritable` rejects or
      its path cannot be created. */
  lemma SaveFileOk(fs: Fs, job: Job, total: nat, written: nat)
    ensures SaveFile(fs, job, total, written).ok <==> !job.content.Unwritable? && Creatable(fs, job.target, 0)
  {
    MakeDirsOk(fs, job.target, 0);
  }

  /** Saving one file keeps every existing entry's kind, and on success leaves a
      file at the file's path. */
  lemma SaveFileKinds(fs: Fs, job: Job, total: nat, written: nat)
    ensures var r := SaveFile(fs, job, total, written);
      KindsKept(fs, r.fs) && (r.ok ==> IsFileAt(r.fs, job.target))
  {
    var t := job.target;
    MakeDirsKeeps(fs, t, 0);
    MakeDirsOk(fs, t, 0);
    MakeDirsPath(fs, t, 0);
    assert t[..|t|] == t;
  }

  lemma KindsKeptTrans(a: Fs, b: Fs, c: Fs)
    requires KindsKept(a, b) && KindsKept(b, c)
    ensures KindsKept(a, c)
  {
  }

  /** The export never turns a directory into a file or the reverse, never
      removes anything, and when it completes every file of the torrent is a
      file at its path. */
  lemma {:induction false} ExportFromKinds(fs: Fs, jobs: seq<Job>, total: nat, written: nat)
    ensures var r := ExportFrom(fs, jobs, total, written);
      KindsKept(fs, r.fs)
      && (r.ok ==> forall i :: 0 <= i < |jobs| ==> IsFileAt(r.fs, jobs[i].target))
    decreases |jobs|
  {
    if jobs != [] {
      var s := SaveFile(fs, jobs[0], total, written);
      SaveFileKinds(fs, jobs[0], total, written);
      if s.ok {
        var r := ExportFrom(s.fs, jobs[1..], total, s.written);
        ExportFromKinds(s.fs, jobs[1..], total, s.written);
        KindsKeptTrans(fs, s.fs, r.fs);
        if r.ok {
          forall i | 0 <= i < |jobs|
            ensures IsFileAt(r.fs, jobs[i].target)
          {
            if i > 0 {
              assert jobs[i] == jobs[1..][i - 1];
            }
          }
        }
      }
    }
  }

  /** The bytes the jobs' writes add up to. */
  function WrittenBy(jobs: seq<Job>): nat {
    if jobs == [] then 0 else Sum(Writes(jobs[0].content)) + WrittenBy(jobs[1..])
  }

  /** A completed export has counted every byte of every write and reported
      once per write. */
  lemma {:induction false} ExportFromWritten(fs: Fs, jobs: seq<Job>, total: nat, written: nat)
    ensures var r := ExportFrom(fs, jobs, total, written);
      r.ok ==> r.written == written + WrittenBy(jobs)
    decreases |jobs|
  {
    if jobs != [] {
      var s := SaveFile(fs, jobs[0], total, written);
      if s.ok {
        ExportFromWritten(s.fs, jobs[1..], total, s.written);
      }
    }
  }

  /** Progress reports whose percentages never go down. */
  predicate Rising(evs: seq<Progress>) {
    forall i, j :: 0 <= i < j < |evs| ==> evs[i].percent <= evs[j].percent
  }

  /** Progress reports whose percentages lie between `lo` and `hi`. */
  predicate Within(evs: seq<Progress>, lo: nat, hi: nat) {
    forall k :: 0 <= k < |evs| ==> lo <= evs[k].percent <= hi
  }

  lemma RisingAppend(a: seq<Progress>, b: seq<Progress>, lo: nat, mid: nat, hi: nat)
    requires lo <= mid <= hi
    requires Rising(a) && Within(a, lo, mid) && Rising(b) && Within(b, mid, hi)
    ensures Rising(a + b) && Within(a + b, lo, hi)
  {
    var c := a + b;
    forall i, j | 0 <= i < j < |c|
      ensures c[i].percent <= c[j].percent
    {
      if j < |a| {
        assert c[i] == a[i] && c[j] == a[j];
      } else if i < |a| {
        assert c[i] == a[i] && c[j] == b[j - |a|];
      } else {
        assert c[i] == b[i - |a|] && c[j] == b[j - |a|];
      }
    }
    forall k | 0 <= k < |c|
      ensures lo <= c[k].percent <= hi
    {
      if k < |a| {
        assert c[k] == a[k];
      } else {
        assert c[k] == b[k - |a|];
      }
    }
  }

  lemma SumPrefixLe(ws: seq<nat>, k: nat, m: nat)
    requires k <= m <= |ws|
    ensures Sum(ws[..k]) <= Sum(ws[..m])
    decreases m - k
  {
    if k < m {
      SumPrefixLe(ws, k, m - 1);
      SumPrefix(ws, m - 1);
    }
  }

  /** The reports for one file's writes rise from the percentage before the
      file to the percentage after it. */
  lemma WriteEventsRise(ws: seq<nat>, total: nat, written: nat, fullPath: string)
    ensures var evs := WriteEvents(ws, total, written, fullPath);
      Rising(evs) && Within(evs, Percent(written, total), Percent(written + Sum(ws), total))
  {
    var evs := WriteEvents(ws, total, written, fullPath);
    forall k | 0 <= k < |evs|
      ensures evs[k].percent == Percent(written + Sum(ws[..k + 1]), total)
      ensures Percent(written, total) <= evs[k].percent <= Percent(written + Sum(ws), total)
    {
      WriteEventsPercent(ws, total, written, fullPath, k);
      SumPrefixLe(ws, k + 1, |ws|);
      assert ws[..|ws|] == ws;
      PercentMonotone(written, written + Sum(ws[..k + 1]), total);
      PercentMonotone(written + Sum(ws[..k + 1]), written + Sum(ws), total);
    }
    forall i, j | 0 <= i < j < |evs|
      ensures evs[i].percent <= evs[j].percent
    {
      SumPrefixLe(ws, i + 1, j + 1);
      PercentMonotone(written + Sum(ws[..i + 1]), written + Sum(ws[..j + 1]), total);
    }
  }

  /** The reports of the file loop rise from the percentage it starts at to the
      percentage of the bytes written when it stops. */
  lemma {:induction false} ExportFromRise(fs: Fs, jobs: seq<Job>, total: nat, written: nat)
    ensures var r := ExportFrom(fs, jobs, total, written);
      written <= r.written && Rising(r.events) && Within(r.events, Percent(written, total), Percent(r.written, total))
    decreases |jobs|
  {
    if jobs != [] {
      var s := SaveFile(fs, jobs[0], total, written);
      if s.ok {
        var r := ExportFrom(s.fs, jobs[1..], total, s.written);
        var ws := Writes(jobs[0].content);
        var lo, mid, hi := Percent(written, total), Percent(s.written, total), Percent(r.written, total);
        assert s.events == WriteEvents(ws, total, written, jobs[0].fullPath) && s.written == written + Sum(ws);
        assert Rising(s.events) && Within(s.events, lo, mid) by {
          WriteEventsRise(ws, total, written, jobs[0].fullPath);
        }
        assert s.written <= r.written && Rising(r.events) && Within(r.events, mid, hi) by {
          ExportFromRise(s.fs, jobs[1..], total, s.written);
        }
        assert lo <= mid <= hi by {
          PercentMonotone(written, s.written, total);
          PercentMonotone(s.written, r.written, total);
        }
        assert Rising(s.events + r.events) && Within(s.events + r.events, lo, hi) by {
          RisingAppend(s.events, r.events, lo, mid, hi);
        }
        var whole := ExportFrom(fs, jobs, total, written);
        assert whole.events == s.events + r.events && whole.written == r.written;
      }
    }
  }

  /** What the progress callback sees: a first report of 0%, percentages that
      never go down and never pass 100, and, when the export completes, a last
      report without a file name whose percentage counts every byte written. */
  lemma ExportProgress(direct: seq<Job>, waited: seq<Job>, hasPicker: bool, granted: bool, fs: Fs)
    ensures var o := Export(direct, waited, hasPicker, granted, fs);
      var jobs := if direct != [] then direct else waited;
      (o.events == [] <==> !hasPicker || !granted || jobs == [])
      && (o.events != [] ==> o.events[0] == Progress(0, None))
      && Rising(o.events) && Within(o.events, 0, 100)
      && (o.saved ==> o.events[|o.events| - 1] == Progress(Percent(WrittenBy(jobs), TotalBytes(jobs)), None))
  {
    var jobs := if direct != [] then direct else waited;
    if hasPicker && granted && jobs != [] {
      var total := TotalBytes(jobs);
      var run := ExportFrom(fs, jobs, total, 0);
      PercentEnds(0, total);
      ExportFromRise(fs, jobs, total, 0);
      ExportFromWritten(fs, jobs, total, 0);
      ReportsShape(run, total);
    }
  }

  /** The reports of a started export around the reports of its file loop. */
  lemma ReportsShape(run: Run, total: nat)
    requires Rising(run.events) && Within(run.events, 0, Percent(run.written, total))
    ensures var evs := [Progress(0, None)] + run.events
        + (if run.ok then [Progress(Percent(run.written, total), None)] else []);
      evs != [] && evs[0] == Progress(0, None) && Rising(evs) && Within(evs, 0, 100)
      && (run.ok ==> evs[|evs| - 1] == Progress(Percent(run.written, total), None))
  {
    var first := [Progress(0, None)];
    var last := if run.ok then [Progress(Percent(run.written, total), None)] else [];
    RisingAppend(first, run.events, 0, 0, Percent(run.written, total));
    RisingAppend(first + run.events, last, 0, Percent(run.written, total), 100);
  }
}
