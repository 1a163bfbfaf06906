/** Whole lives of an update: patches made by bsdiff or imgdiff, installed by runs of applypatch that may be cut off. */
module Updates {
  import opened Common
  import opened Digests
  import opened Disk
  import opened FreeCache
  import opened ApplyPatch
  import opened Lives
  import BsPatch
  import LittleEndian
  import ImgPatch
  import BsDiff
  import Triples

  /** A run that begins with these files can end with the target in place. */
  ghost predicate CanFinish(lib: Libraries, j: Job, disk: FileSystem, files: map<Path, seq<Byte>>) {
    HasTarget(lib, j, files) || HasRoom(lib, j, disk, files)
  }

  /** What is proved of applypatch, said of a run in a trace. */
  ghost predicate Ran(lib: Libraries, j: Job, disk: FileSystem, trace: seq<State>, seg: Segment) {
    && 0 < seg.from <= seg.to <= |trace| && (seg.r == 0 || seg.r == 1)
    && KeepsSafe(lib, j, trace[..seg.to], seg.from)
    && Ended(lib, j, disk, trace[..seg.to], seg.from, trace[seg.from - 1].files, seg)
  }

  /** How a run ended that began with the files `begun`. */
  ghost predicate Ended(lib: Libraries, j: Job, disk: FileSystem, trace: seq<State>, from: nat,
                        begun: map<Path, seq<Byte>>, seg: Segment)
    requires 0 < from <= |trace|
  {
    var ended := trace[|trace| - 1];
    && (seg.r == 0 ==> HoldsTarget(lib, j, ended))
    && (seg.r == 0 ==> |trace| == from || ComesFrom(lib, j, begun, ended.files))
    && (seg.working && Safe(lib, j, trace[from - 1]) && Delivers(lib, j) && CanFinish(lib, j, disk, begun) ==>
          seg.r == 0)
    && (seg.working && DeletingFrees(disk) && !CanFinish(lib, j, disk, begun) ==>
          seg.r == 1 && Kept(Precious(disk.open), trace, from))
    && (seg.working && seg.r == 0 && j.source != j.Target() && j.source in begun ==>
          (j.source !in ended.files <==> SourceGivesWay(lib, j, disk, begun)))
    && (seg.working && Parsed(j.targetSha1).Some? ==>
          SourceGivesWay(lib, j, disk, begun) && HasRoom(lib, j, disk, begun) ==>
            PassesBoth(lib, j, trace, from, ReadOf(lib, begun, j.source).value))
  }

  ghost predicate AllRan(lib: Libraries, j: Job, disk: FileSystem, trace: seq<State>, history: seq<Segment>) {
    forall i :: 0 <= i < |history| ==> Ran(lib, j, disk, trace, history[i])
  }

  /** One run of applypatch to its end. */
  method RunOnce(lib: Libraries, disk: FileSystem, j: Job) returns (r: int, ghost seg: Segment)
    requires disk.Valid() && WellPlaced(j) && Defined(lib, j) && Tells(lib, j) && Steady(j, disk.Now())
    modifies disk`files, disk`dirty, disk`trace
    ensures disk.Valid() && old(disk.trace) <= disk.trace
    ensures seg == Segment(|old(disk.trace)|, |disk.trace|, disk.working, r)
    ensures Ran(lib, j, disk, disk.trace, seg)
  {
    hide WellPlaced, Defined, Tells, Steady, Safe, KeepsSafe, HoldsTarget, ComesFrom, Delivers, HasTarget, HasRoom,
         DeletingFrees, Kept, Precious, SourceGivesWay, PassesBoth, Parsed;
    ghost var trace := disk.trace;
    r := ApplyPatch.ApplyPatch(lib, disk, j);
    seg := Segment(|trace|, |disk.trace|, disk.working, r);
    assert disk.trace[..seg.to] == disk.trace && disk.trace[seg.from - 1] == trace[|trace| - 1];
  }

  lemma RanStill(lib: Libraries, j: Job, disk: FileSystem, before: seq<State>, trace: seq<State>, seg: Segment)
    requires before <= trace && Ran(lib, j, disk, before, seg)
    ensures Ran(lib, j, disk, trace, seg)
  {
    hide KeepsSafe, Ended;
    assert trace[..seg.to] == before[..seg.to];
  }

  lemma AllRanNext(lib: Libraries, j: Job, disk: FileSystem, before: seq<State>, trace: seq<State>,
                   history: seq<Segment>, seg: Segment)
    requires AllRan(lib, j, disk, before, history) && before <= trace && Ran(lib, j, disk, trace, seg)
    ensures AllRan(lib, j, disk, trace, history + [seg])
  {
    hide Ran;
    forall i | 0 <= i < |history| ensures Ran(lib, j, disk, trace, history[i]) {
      RanStill(lib, j, disk, before, trace, history[i]);
    }
  }

  /** However runs of applypatch follow one another and are cut off: from a safe state on, all states are safe. */
  lemma LifeIsSafe(lib: Libraries, j: Job, disk: FileSystem, trace: seq<State>, start: nat, working: bool,
                   runs: seq<Run>, history: seq<Segment>)
    requires Lived(trace, start, working, runs, history) && AllRan(lib, j, disk, trace, history)
    requires Safe(lib, j, trace[start - 1])
    ensures SafeRun(lib, j, trace, start)
  {
    hide Lived, AllRan, Safe;
    LivedSpan(trace, start, working, runs, history);
    SafeUpTo(lib, j, disk, trace, start, working, runs, history, |runs|);
    assert trace[..|trace|] == trace;
  }

  lemma LivedSpan(trace: seq<State>, start: nat, working: bool, runs: seq<Run>, history: seq<Segment>)
    requires Lived(trace, start, working, runs, history)
    ensures 0 < start <= |trace| == Begin(start, runs, history, |runs|) && |history| == |runs|
  {
  }

  lemma {:induction false} SafeUpTo(lib: Libraries, j: Job, disk: FileSystem, trace: seq<State>, start: nat,
                                    working: bool, runs: seq<Run>, history: seq<Segment>, i: nat)
    requires Lived(trace, start, working, runs, history) && AllRan(lib, j, disk, trace, history)
    requires Safe(lib, j, trace[start - 1]) && i <= |runs|
    ensures start <= Begin(start, runs, history, i) <= |trace|
    ensures SafeRun(lib, j, trace[..Begin(start, runs, history, i)], start)
  {
    hide Safe, AllRan, Ended, KeepsSafe;
    if i == 0 {
      SafeRunNow(lib, j, trace[..start]);
    } else {
      SafeUpTo(lib, j, disk, trace, start, working, runs, history, i - 1);
      var seg, run := history[i - 1], runs[i - 1];
      assert Placed(trace, start, working, runs, history, i - 1);
      SegmentRan(lib, j, disk, trace, history, i - 1);
      SafeSegment(lib, j, trace, start, seg, run);
    }
  }

  lemma SegmentRan(lib: Libraries, j: Job, disk: FileSystem, trace: seq<State>, history: seq<Segment>, i: nat)
    requires AllRan(lib, j, disk, trace, history) && i < |history|
    ensures Ran(lib, j, disk, trace, history[i])
  {
  }

  lemma SafeSegment(lib: Libraries, j: Job, trace: seq<State>, start: nat, seg: Segment, run: Run)
    requires InTrace(trace, seg, run) && SafeRun(lib, j, trace[..seg.from], start)
    requires KeepsSafe(lib, j, trace[..seg.to], seg.from)
    ensures SafeRun(lib, j, trace[..End(seg, run)], start)
  {
    hide Safe, KeepsSafe, SafeRun;
    assert trace[..seg.to][..seg.from] == trace[..seg.from];
    SafeRunOn(lib, j, trace[..seg.to], seg.from, start);
    if run.Cut? {
      var at := CutPoint(seg, run.after);
      StartBefore(lib, j, trace[..seg.from], start);
      SafeAt(lib, j, trace[..seg.to], at, start);
      SafeAfterCrash(lib, j, trace[at], trace[seg.to]);
      SafeNext(lib, j, trace[..seg.to], trace[seg.to], start);
      assert trace[..seg.to + 1] == trace[..seg.to] + [trace[seg.to]];
    }
  }

  lemma StartBefore(lib: Libraries, j: Job, trace: seq<State>, start: nat)
    requires SafeRun(lib, j, trace, start)
    ensures 0 < start <= |trace|
  {
  }

  /** One run of applypatch, cut off or not. */
  method LiveOnce(lib: Libraries, disk: FileSystem, j: Job, run: Run) returns (r: int, ghost seg: Segment)
    requires disk.Valid() && WellPlaced(j) && Defined(lib, j) && Tells(lib, j) && Steady(j, disk.Now())
    modifies disk
    ensures disk.Valid() && old(disk.trace) <= disk.trace && |disk.trace| == End(seg, run)
    ensures InTrace(disk.trace, seg, run) && Ran(lib, j, disk, disk.trace, seg)
    ensures seg.from == |old(disk.trace)| && seg.working == old(disk.working) && seg.r == r
    ensures disk.working == if run.Whole? then seg.working else run.working
  {
    hide WellPlaced, Defined, Tells, Steady, Ran, Left, Survives;
    var before := disk.trace;
    r, seg := RunOnce(lib, disk, j);
    assert 0 < seg.from <= seg.to by { RanSpan(lib, j, disk, disk.trace, seg); }
    if run.Cut? {
      var at := |before| - 1 + run.after;
      if at >= |disk.trace| {
        at := |disk.trace| - 1;
      }
      ghost var ran := disk.trace;
      disk.LosePower(at, run.junk, run.working);
      RanStill(lib, j, disk, ran, disk.trace, seg);
    }
  }

  lemma RanSpan(lib: Libraries, j: Job, disk: FileSystem, trace: seq<State>, seg: Segment)
    requires Ran(lib, j, disk, trace, seg)
    ensures 0 < seg.from <= seg.to <= |trace|
  {
  }

  lemma LifeIsSteady(lib: Libraries, j: Job, disk: FileSystem, trace: seq<State>, start: nat, working: bool,
                     runs: seq<Run>, history: seq<Segment>)
    requires Lived(trace, start, working, runs, history) && AllRan(lib, j, disk, trace, history)
    requires Safe(lib, j, trace[start - 1])
    ensures Steady(j, trace[|trace| - 1])
  {
    hide Lived, AllRan, Safe, SafeRun;
    LivedSpan(trace, start, working, runs, history);
    LifeIsSafe(lib, j, disk, trace, start, working, runs, history);
    SafeLast(lib, j, trace, start);
    SafeSteady(lib, j, trace[|trace| - 1]);
  }

  /** Any runs of applypatch, each cut off anywhere or not at all. */
  method Live(lib: Libraries, disk: FileSystem, j: Job, runs: seq<Run>)
      returns (results: seq<int>, ghost history: seq<Segment>)
    requires disk.Valid() && WellPlaced(j) && Defined(lib, j) && Tells(lib, j) && Safe(lib, j, disk.Now())
    modifies disk
    ensures disk.Valid() && old(disk.trace) <= disk.trace
    ensures Lived(disk.trace, |old(disk.trace)|, old(disk.working), runs, history)
    ensures AllRan(lib, j, disk, disk.trace, history)
    ensures disk.working == WorkingAt(old(disk.working), runs, history, |runs|)
    ensures |results| == |runs| && forall i :: 0 <= i < |runs| ==> results[i] == history[i].r
  {
    hide WellPlaced, Defined, Tells, Safe, Steady, Ran, AllRan, Lived, WorkingAt, InTrace;
    ghost var start, working := |disk.trace|, disk.working;
    results, history := [], [];
    NoLifeYet(lib, j, disk, disk.trace, working);
    var i := 0;
    while i < |runs|
      invariant 0 <= i <= |runs| && |results| == |history| == i
      invariant disk.Valid() && old(disk.trace) <= disk.trace && disk.trace[start - 1] == old(disk.Now())
      invariant Lived(disk.trace, start, working, runs[..i], history) && AllRan(lib, j, disk, disk.trace, history)
      invariant disk.working == WorkingAt(working, runs[..i], history, i)
      invariant forall k :: 0 <= k < i ==> results[k] == history[k].r
    {
      LifeIsSteady(lib, j, disk, disk.trace, start, working, runs[..i], history);
      ghost var before := disk.trace;
      var r;
      ghost var seg;
      r, seg := LiveOnce(lib, disk, j, runs[i]);
      LifeGoesOn(lib, j, disk, before, disk.trace, start, working, runs[..i], history, runs[i], seg);
      assert runs[..i + 1] == runs[..i] + [runs[i]];
      results, history := results + [r], history + [seg];
      i := i + 1;
    }
    assert runs[..i] == runs;
  }

  lemma NoLifeYet(lib: Libraries, j: Job, disk: FileSystem, trace: seq<State>, working: bool)
    requires trace != []
    ensures Lived(trace, |trace|, working, [], []) && AllRan(lib, j, disk, trace, [])
    ensures WorkingAt(working, [], [], 0) == working
  {
  }

  lemma LifeGoesOn(lib: Libraries, j: Job, disk: FileSystem, before: seq<State>, trace: seq<State>, start: nat,
                   working: bool, runs: seq<Run>, history: seq<Segment>, run: Run, seg: Segment)
    requires Lived(before, start, working, runs, history) && AllRan(lib, j, disk, before, history) && before <= trace
    requires InTrace(trace, seg, run) && |trace| == End(seg, run) && Ran(lib, j, disk, trace, seg)
    requires seg.from == |before| && |history| == |runs| && seg.working == WorkingAt(working, runs, history, |runs|)
    ensures Lived(trace, start, working, runs + [run], history + [seg])
    ensures AllRan(lib, j, disk, trace, history + [seg])
    ensures WorkingAt(working, runs + [run], history + [seg], |runs| + 1) ==
              if run.Whole? then seg.working else run.working
  {
    hide Lived, AllRan, Ran, WorkingAt, InTrace;
    OneLived(trace, run, seg);
    LivedOn(before, trace, start, working, runs, history, [run], [seg]);
    AllRanNext(lib, j, disk, before, trace, history, seg);
  }

  /**
   Any number of runs, each cut off anywhere or not at all, and a last one.  Every state on the way is safe.  If the
   file systems work in the last run, it brings the target if it finds it there or finds room; and only then, if
   deleting files never makes less room.
   */
  method Install(lib: Libraries, disk: FileSystem, j: Job, runs: seq<Run>) returns (r: int, ghost history: seq<Segment>)
    requires disk.Valid() && WellPlaced(j) && Defined(lib, j) && Tells(lib, j) && Safe(lib, j, disk.Now())
    modifies disk
    ensures disk.Valid() && old(disk.trace) <= disk.trace
    ensures Lived(disk.trace, |old(disk.trace)|, old(disk.working), runs + [Whole], history)
    ensures AllRan(lib, j, disk, disk.trace, history)
    ensures SafeRun(lib, j, disk.trace, |old(disk.trace)|)
    ensures LastRun(lib, j, disk, disk.trace, history, r)
  {
    hide WellPlaced, Defined, Tells, Safe, Ran, AllRan, Lived, WorkingAt, LastRun, SafeRun;
    ghost var start := |disk.trace|;
    var results;
    results, history := Live(lib, disk, j, runs + [Whole]);
    assert disk.trace[start - 1] == old(disk.Now());
    LifeIsSafe(lib, j, disk, disk.trace, start, old(disk.working), runs + [Whole], history);
    LivedSpan(disk.trace, start, old(disk.working), runs + [Whole], history);
    r := results[|runs|];
    SegmentRan(lib, j, disk, disk.trace, history, |runs|);
    LastOne(lib, j, disk, disk.trace, start, old(disk.working), runs, history);
  }

  /**
   The last run, if it went to its end: it returned 0 only with the target in place; and on working file systems, from a
   state from which it can finish, exactly then.
   */
  ghost predicate LastRun(lib: Libraries, j: Job, disk: FileSystem, trace: seq<State>, history: seq<Segment>, r: int) {
    && history != [] && history[|history| - 1].r == r && (r == 0 || r == 1)
    && 0 < history[|history| - 1].from <= |trace|
    && (r == 0 ==> HoldsTarget(lib, j, trace[|trace| - 1]))
    && (history[|history| - 1].working ==>
          var begun := trace[history[|history| - 1].from - 1].files;
          && (Delivers(lib, j) && CanFinish(lib, j, disk, begun) ==> r == 0)
          && (DeletingFrees(disk) && !CanFinish(lib, j, disk, begun) ==> r == 1))
  }

  lemma LastOne(lib: Libraries, j: Job, disk: FileSystem, trace: seq<State>, start: nat, working: bool,
                runs: seq<Run>, history: seq<Segment>)
    requires Lived(trace, start, working, runs + [Whole], history) && |history| == |runs| + 1
    requires Ran(lib, j, disk, trace, history[|runs|]) && SafeRun(lib, j, trace, start)
    ensures LastRun(lib, j, disk, trace, history, history[|runs|].r)
  {
    hide HoldsTarget, Delivers, CanFinish, DeletingFrees, Safe, KeepsSafe, SourceGivesWay, PassesBoth, Kept, Precious,
         ComesFrom, HasRoom, Parsed;
    var seg := history[|runs|];
    assert Placed(trace, start, working, runs + [Whole], history, |runs|);
    assert trace[..seg.to] == trace;
    BeginsLater(trace, start, working, runs + [Whole], history, |runs|);
    SafeAt(lib, j, trace, seg.from - 1, start);
  }

  lemma {:induction false} BeginsLater(trace: seq<State>, start: nat, working: bool, runs: seq<Run>,
                                       history: seq<Segment>, i: nat)
    requires Lived(trace, start, working, runs, history) && i <= |runs|
    ensures start <= Begin(start, runs, history, i)
  {
    hide InTrace;
    if i == 0 {
    } else {
      BeginsLater(trace, start, working, runs, history, i - 1);
      assert Placed(trace, start, working, runs, history, i - 1);
      InTraceSpan(trace, history[i - 1], runs[i - 1]);
    }
  }

  lemma InTraceSpan(trace: seq<State>, seg: Segment, run: Run)
    requires InTrace(trace, seg, run)
    ensures 0 < seg.from <= seg.to <= End(seg, run) <= |trace|
  {
  }

  lemma SafeRunNow(lib: Libraries, j: Job, trace: seq<State>)
    requires trace != [] && Safe(lib, j, trace[|trace| - 1])
    ensures SafeRun(lib, j, trace, |trace|)
  {
    hide Safe;
  }

  lemma SafeRunOn(lib: Libraries, j: Job, trace: seq<State>, mid: nat, since: nat)
    requires mid <= |trace| && SafeRun(lib, j, trace[..mid], since) && KeepsSafe(lib, j, trace, mid)
    ensures SafeRun(lib, j, trace, since)
  {
    hide Safe;
    SafeLast(lib, j, trace[..mid], since);
    SafeOn(lib, j, trace, mid, since);
  }

  lemma SafeAt(lib: Libraries, j: Job, trace: seq<State>, at: nat, since: nat)
    requires SafeRun(lib, j, trace, since) && since - 1 <= at < |trace|
    ensures Safe(lib, j, trace[at])
  {
    hide Safe;
  }

  /** What bsdiff and imgdiff are proved to write: a patch that makes `after` of `before`. */
  ghost predicate Makes(lib: Libraries, before: seq<Byte>, after: seq<Byte>, patch: seq<Byte>) {
    || BsDiff.IsPatch(lib.unzip, before, after, patch)
    || ImgPatch.ImageOf(lib.zlib, lib.unzip, before, patch) == ImgPatch.Image(after)
  }

  /** No other data has the same hash. */
  ghost predicate Unmistakable(sha: Sha, data: seq<Byte>) {
    |sha(data)| == SHA_DIGEST_SIZE && forall other: seq<Byte> :: sha(other) == sha(data) ==> other == data
  }

  /** A job made for the given old versions: one digest and one patch for each, and the digest of the new version. */
  ghost predicate MadeFor(lib: Libraries, j: Job, olds: seq<seq<Byte>>, after: seq<Byte>) {
    && |j.shas| == |j.patches| == |olds|
    && |lib.sha(after)| == SHA_DIGEST_SIZE && j.targetSha1 == Printed(lib.sha(after))
    && forall k :: 0 <= k < |olds| ==>
        && Unmistakable(lib.sha, olds[k]) && j.shas[k] == Printed(lib.sha(olds[k]))
        && j.patches[k].Blob? && Makes(lib, olds[k], after, j.patches[k].data)
  }

  lemma MakesDecodes(lib: Libraries, before: seq<Byte>, after: seq<Byte>, patch: seq<Byte>)
    requires Makes(lib, before, after, patch)
    ensures Decode(lib, before, patch) == Produces(after)
  {
    hide BsPatch.Replay, ImgPatch.ChunksAt;
    if BsDiff.IsPatch(lib.unzip, before, after, patch) {
      var nothing: seq<Byte> := [];
      assert nothing + patch + nothing == patch;
      assert BsPatch.PatchMem(lib.unzip, before, nothing + patch + nothing, |nothing|) == BsPatch.Done(after);
      assert patch[0..] == patch;
    }
  }

  lemma MadeForAt(lib: Libraries, j: Job, olds: seq<seq<Byte>>, after: seq<Byte>, data: seq<Byte>, k: int)
    requires MadeFor(lib, j, olds, after) && Names(j.shas, k, lib.sha(data))
    ensures WorksOn(lib, j, data, k) && Decode(lib, data, j.patches[k].data) == Produces(after)
  {
    hide Printed, Parsed, Makes, Decode;
    PrintedSpells(lib.sha(olds[k]));
    ParsedIs(j.shas[k], lib.sha(olds[k]));
    assert data == olds[k];
    MakesDecodes(lib, data, after, j.patches[k].data);
    PrintedSpells(lib.sha(after));
    ParsedIs(j.targetSha1, lib.sha(after));
  }

  lemma MadeForDefined(lib: Libraries, j: Job, olds: seq<seq<Byte>>, after: seq<Byte>)
    requires MadeFor(lib, j, olds, after)
    ensures Defined(lib, j)
  {
    hide MadeFor, Decode, WorksOn, Parsed;
    forall data: seq<Byte>, k | Names(j.shas, k, lib.sha(data)) && k < |j.patches| && j.patches[k].Blob?
      ensures !Decode(lib, data, j.patches[k].data).Undefined?
    {
      MadeForAt(lib, j, olds, after, data, k);
    }
  }

  lemma MadeForTells(lib: Libraries, j: Job, olds: seq<seq<Byte>>, after: seq<Byte>)
    requires MadeFor(lib, j, olds, after) && Unmistakable(lib.sha, after)
    ensures Tells(lib, j)
  {
    hide MadeFor, Decode, WorksOn, Names, Parsed, Thins, PiecesFor;
    MadeForTarget(lib, j, olds, after);
    forall text: seq<Byte>, k, content, sha1, kept |
      && Names(j.shas, k, lib.sha(text)) && 0 <= k < |j.patches| && j.patches[k].Blob?
      && SunkAs(lib, text, j.patches[k].data, content, sha1, kept) && Parsed(j.targetSha1) == Some(sha1)
      ensures ImgPatch.Joined(kept) == Decode(lib, text, j.patches[k].data).data
    {
      MadeForAt(lib, j, olds, after, text, k);
    }
  }

  /** The patches of such a job deliver. */
  lemma MadeForDelivers(lib: Libraries, j: Job, olds: seq<seq<Byte>>, after: seq<Byte>)
    requires MadeFor(lib, j, olds, after)
    ensures Delivers(lib, j)
  {
    hide MadeFor, Decode, WorksOn, Names, Parsed;
    MadeForTarget(lib, j, olds, after);
    forall data: seq<Byte>, k | Names(j.shas, k, lib.sha(data)) ensures WorksOn(lib, j, data, k) {
      MadeForAt(lib, j, olds, after, data, k);
    }
  }

  lemma MadeForTarget(lib: Libraries, j: Job, olds: seq<seq<Byte>>, after: seq<Byte>)
    requires MadeFor(lib, j, olds, after)
    ensures Parsed(j.targetSha1) == Some(lib.sha(after))
  {
    hide Printed, Parsed;
    PrintedSpells(lib.sha(after));
    ParsedIs(j.targetSha1, lib.sha(after));
  }

  /** The old version in place makes a job safe to start. */
  lemma SafeStart(lib: Libraries, j: Job, olds: seq<seq<Byte>>, after: seq<Byte>, s: State, k: nat)
    requires MadeFor(lib, j, olds, after) && s.dirty == {} && k < |olds|
    requires ReadOf(lib, s.files, j.source) == Some(olds[k])
    ensures Safe(lib, j, s)
  {
    hide Printed, Parsed, Makes;
    PrintedSpells(lib.sha(olds[k]));
    ParsedIs(j.shas[k], lib.sha(olds[k]));
    assert Names(j.shas, k, lib.sha(olds[k]));
  }

  /**
   From two versions of a file to the new one in place: bsdiff makes the patch; runs of applypatch install it, each cut
   off anywhere; and if a last run returns 0, as it does on working file systems exactly if it can finish, the target
   holds the new version.
   */
  method DiffAndInstall(lib: Libraries, zip: seq<Byte> -> seq<Byte>, disk: FileSystem, source: Path, target: Path,
                        before: seq<Byte>, after: seq<Byte>, runs: seq<Run>)
      returns (r: int, j: Job, ghost history: seq<Segment>)
    requires BsDiff.Bzip2(zip, lib.unzip) && Triples.Fits(|before|) && |after| < LittleEndian.INT_LIMIT
    requires Unmistakable(lib.sha, before) && Unmistakable(lib.sha, after)
    requires disk.Valid() && disk.dirty == {} && ReadOf(lib, disk.files, source) == Some(before)
    requires WellPlaced(Job(source, target, "", 0, [], []))
    modifies disk
    ensures JobFor(lib, j, source, target, before, after) && Delivers(lib, j)
    ensures disk.Valid() && old(disk.trace) <= disk.trace
    ensures Lived(disk.trace, |old(disk.trace)|, old(disk.working), runs + [Whole], history)
    ensures AllRan(lib, j, disk, disk.trace, history)
    ensures SafeRun(lib, j, disk.trace, |old(disk.trace)|)
    ensures LastRun(lib, j, disk, disk.trace, history, r)
    ensures r == 0 ==> j.Target() in disk.files && disk.files[j.Target()] == after
  {
    hide BsDiff.Bzip2, BsDiff.IsPatch, Safe, WellPlaced, Defined, Tells, Delivers, CanFinish, DeletingFrees, Printed,
         Unmistakable, Parsed, Lived, AllRan, SafeRun, HoldsTarget, HasTarget, ReadOf, Makes;
    var patch, I := BsDiff.BsDiff(before, null, after, zip, lib.unzip);
    j := Job(source, target, Printed(lib.sha(after)), |after|, [Printed(lib.sha(before))], [Blob(patch)]);
    PatchMakes(lib, before, after, patch);
    OneVersion(lib, j, before, after, patch);
    StillPlaced(j);
    SafeStart(lib, j, [before], after, disk.Now(), 0);
    MadeForDefined(lib, j, [before], after);
    MadeForTells(lib, j, [before], after);
    MadeForDelivers(lib, j, [before], after);
    r, history := Install(lib, disk, j, runs);
    if r == 0 {
      TargetIs(lib, j, [before], after, disk.Now());
    }
  }

  /** A job from one version to another: the digests of both, and a patch that makes the one of the other. */
  ghost predicate JobFor(lib: Libraries, j: Job, source: Path, target: Path, before: seq<Byte>, after: seq<Byte>) {
    && j.source == source && j.target == target && j.targetSize == |after|
    && j.targetSha1 == Printed(lib.sha(after)) && j.shas == [Printed(lib.sha(before))]
    && |j.patches| == 1 && j.patches[0].Blob? && Makes(lib, before, after, j.patches[0].data)
  }

  lemma PatchMakes(lib: Libraries, before: seq<Byte>, after: seq<Byte>, patch: seq<Byte>)
    requires BsDiff.IsPatch(lib.unzip, before, after, patch)
    ensures Makes(lib, before, after, patch)
  {
    hide BsDiff.IsPatch;
  }

  lemma OneVersion(lib: Libraries, j: Job, before: seq<Byte>, after: seq<Byte>, patch: seq<Byte>)
    requires Unmistakable(lib.sha, before) && Unmistakable(lib.sha, after) && Makes(lib, before, after, patch)
    requires j.targetSha1 == Printed(lib.sha(after))
    requires j.shas == [Printed(lib.sha(before))] && j.patches == [Blob(patch)]
    ensures MadeFor(lib, j, [before], after)
  {
    hide Makes, Printed;
  }

  lemma StillPlaced(j: Job)
    requires WellPlaced(Job(j.source, j.target, "", 0, [], [])) && |j.shas| == |j.patches|
    ensures WellPlaced(j)
  {
    var k := Job(j.source, j.target, "", 0, [], []);
    assert k.Target() == j.Target() && k.Out() == j.Out();
  }

  lemma TargetIs(lib: Libraries, j: Job, olds: seq<seq<Byte>>, after: seq<Byte>, s: State)
    requires WellPlaced(j) && MadeFor(lib, j, olds, after) && Unmistakable(lib.sha, after) && HoldsTarget(lib, j, s)
    ensures j.Target() in s.files && s.files[j.Target()] == after
  {
    hide MadeFor, Parsed;
    MadeForTarget(lib, j, olds, after);
  }

  // Where the room gives out, and where the source does

  /** With room on /cache for one copy only, a second one cannot be made. */
  lemma NoRoomForSecondCopy(lib: Libraries, j: Job, disk: FileSystem, s: State, data: seq<Byte>)
    requires HoldsBoth(lib, j, s, data) && !Enough(disk, j, s.files) && NoSecondCopy(disk, data)
    ensures !HasRoom(lib, j, disk, s.files)
  {
    hide Listed, Enough, Parsed;
    CopyIsFile();
    var left := Spared(s.files, disk.open);
    assert CACHE_TEMP_SOURCE in left && left[CACHE_TEMP_SOURCE] == data;
  }

  /** When a copy of the data is on /cache there is no room for another one. */
  ghost predicate NoSecondCopy(disk: FileSystem, data: seq<Byte>) {
    forall files: map<Path, seq<Byte>> :: CACHE_TEMP_SOURCE in files && files[CACHE_TEMP_SOURCE] == data ==>
      disk.freeSpace(CACHE, files) < |data|
  }

  /** There is never room for the target beside the source. */
  ghost predicate NeverEnough(disk: FileSystem, j: Job) {
    forall files: map<Path, seq<Byte>> :: !Enough(disk, j, files)
  }

  /** Source and copy are both there, and the target is not. */
  ghost predicate Stuck(lib: Libraries, j: Job, s: State, data: seq<Byte>) {
    HoldsBoth(lib, j, s, data) && Steady(j, s) && !HasTarget(lib, j, s.files)
  }

  lemma StuckSurvives(lib: Libraries, j: Job, s: State, t: State, data: seq<Byte>)
    requires Stuck(lib, j, s, data) && Survives(s, t)
    ensures Stuck(lib, j, t, data)
  {
    hide Listed, Parsed;
    assert forall p :: p in s.files <==> p in t.files.Keys;
  }

  lemma StuckStays(lib: Libraries, j: Job, open: set<Path>, trace: seq<State>, since: nat, data: seq<Byte>, i: nat)
    requires WellPlaced(j) && Kept(Precious(open), trace, since) && Stuck(lib, j, trace[since - 1], data)
    requires since - 1 <= i < |trace|
    ensures Stuck(lib, j, trace[i], data)
  {
    hide Listed, WellPlaced, Precious, Parsed;
    WellPlacedPrecious(j, open);
    if since <= i {
      assert SameOn(Precious(open), trace[since - 1], trace[i]);
      assert Same(j.source, trace[since - 1], trace[i]) && Same(j.Target(), trace[since - 1], trace[i]);
      assert Same(CACHE_TEMP_SOURCE, trace[since - 1], trace[i]);
    }
  }

  /**
   From a state with source and copy in place, on file systems that work but have no room for a second copy, there is no
   way on: however runs of applypatch follow one another and are cut off, each returns 1 (or would have), and the state
   stays as it is.
   */
  lemma StuckForGood(lib: Libraries, j: Job, disk: FileSystem, trace: seq<State>, start: nat, working: bool,
                     runs: seq<Run>, history: seq<Segment>, data: seq<Byte>)
    requires WellPlaced(j) && DeletingFrees(disk) && NeverEnough(disk, j) && NoSecondCopy(disk, data)
    requires Lived(trace, start, working, runs, history) && AllRan(lib, j, disk, trace, history)
    requires forall i :: 0 <= i < |history| ==> history[i].working
    requires Stuck(lib, j, trace[start - 1], data)
    ensures forall i :: 0 <= i < |history| ==> history[i].r == 1
    ensures Stuck(lib, j, trace[|trace| - 1], data)
  {
    hide Stuck, WellPlaced, DeletingFrees, NeverEnough, NoSecondCopy, Lived, AllRan;
    LivedSpan(trace, start, working, runs, history);
    forall i | 0 <= i < |history| ensures history[i].r == 1 {
      StuckAt(lib, j, disk, trace, start, working, runs, history, data, i);
    }
    StuckUpTo(lib, j, disk, trace, start, working, runs, history, data, |runs|);
  }

  lemma {:induction false} StuckUpTo(lib: Libraries, j: Job, disk: FileSystem, trace: seq<State>, start: nat,
                                     working: bool, runs: seq<Run>, history: seq<Segment>, data: seq<Byte>, i: nat)
    requires WellPlaced(j) && DeletingFrees(disk) && NeverEnough(disk, j) && NoSecondCopy(disk, data)
    requires Lived(trace, start, working, runs, history) && AllRan(lib, j, disk, trace, history)
    requires forall k :: 0 <= k < |history| ==> history[k].working
    requires Stuck(lib, j, trace[start - 1], data) && i <= |runs|
    ensures 0 < Begin(start, runs, history, i) <= |trace|
    ensures Stuck(lib, j, trace[Begin(start, runs, history, i) - 1], data)
    decreases i, 0
  {
    hide Stuck, WellPlaced, DeletingFrees, NeverEnough, NoSecondCopy, AllRan, InTrace;
    if i == 0 {
    } else {
      StuckAt(lib, j, disk, trace, start, working, runs, history, data, i - 1);
    }
  }

  lemma {:induction false} StuckAt(lib: Libraries, j: Job, disk: FileSystem, trace: seq<State>, start: nat,
                                   working: bool, runs: seq<Run>, history: seq<Segment>, data: seq<Byte>, i: nat)
    requires WellPlaced(j) && DeletingFrees(disk) && NeverEnough(disk, j) && NoSecondCopy(disk, data)
    requires Lived(trace, start, working, runs, history) && AllRan(lib, j, disk, trace, history)
    requires forall k :: 0 <= k < |history| ==> history[k].working
    requires Stuck(lib, j, trace[start - 1], data) && i < |runs|
    ensures history[i].r == 1 && 0 < End(history[i], runs[i]) <= |trace|
    ensures Stuck(lib, j, trace[End(history[i], runs[i]) - 1], data)
    decreases i, 1
  {
    hide Stuck, WellPlaced, DeletingFrees, NeverEnough, NoSecondCopy, AllRan, Ran, InTrace;
    StuckUpTo(lib, j, disk, trace, start, working, runs, history, data, i);
    assert Placed(trace, start, working, runs, history, i);
    SegmentRan(lib, j, disk, trace, history, i);
    StuckRun(lib, j, disk, trace, history[i], runs[i], data);
  }

  lemma StuckRun(lib: Libraries, j: Job, disk: FileSystem, trace: seq<State>, seg: Segment, run: Run, data: seq<Byte>)
    requires WellPlaced(j) && DeletingFrees(disk) && NeverEnough(disk, j) && NoSecondCopy(disk, data)
    requires InTrace(trace, seg, run) && Ran(lib, j, disk, trace, seg) && seg.working
    requires Stuck(lib, j, trace[seg.from - 1], data)
    ensures seg.r == 1 && 0 < End(seg, run) <= |trace| && Stuck(lib, j, trace[End(seg, run) - 1], data)
  {
    hide WellPlaced, DeletingFrees, NoSecondCopy, HoldsBoth, HasTarget, HasRoom, Kept, Precious, KeepsSafe, HoldsTarget,
         ComesFrom, SourceGivesWay, PassesBoth, Delivers, Safe, Enough, Parsed;
    NoRoomForSecondCopy(lib, j, disk, trace[seg.from - 1], data);
    assert trace[..seg.to][seg.from - 1] == trace[seg.from - 1];
    StuckStays(lib, j, disk.open, trace[..seg.to], seg.from, data, seg.to - 1);
    if run.Cut? {
      var at := CutPoint(seg, run.after);
      StuckStays(lib, j, disk.open, trace[..seg.to], seg.from, data, at);
      assert trace[..seg.to][at] == trace[at];
      StuckSurvives(lib, j, trace[at], trace[seg.to], data);
    }
  }

  /** So every further run on working file systems returns 1, and nothing that matters changes. */
  method Rerun(lib: Libraries, disk: FileSystem, j: Job, data: seq<Byte>, times: nat)
      returns (results: seq<int>, ghost history: seq<Segment>)
    requires disk.Valid() && WellPlaced(j) && Defined(lib, j) && Tells(lib, j) && disk.working && DeletingFrees(disk)
    requires Stuck(lib, j, disk.Now(), data) && NeverEnough(disk, j) && NoSecondCopy(disk, data)
    modifies disk
    ensures disk.Valid() && old(disk.trace) <= disk.trace
    ensures Lived(disk.trace, |old(disk.trace)|, true, Wholes(times), history)
    ensures AllRan(lib, j, disk, disk.trace, history)
    ensures |results| == |history| == times && forall i :: 0 <= i < times ==> results[i] == history[i].r == 1
    ensures Stuck(lib, j, disk.Now(), data)
  {
    hide WellPlaced, Defined, Tells, DeletingFrees, NeverEnough, NoSecondCopy, Stuck, AllRan, Ran, Safe;
    ghost var start := |disk.trace|;
    BothSafe(lib, j, disk.Now(), data);
    results, history := Live(lib, disk, j, Wholes(times));
    assert disk.trace[start - 1] == old(disk.Now());
    StillWorking(disk.trace, start, Wholes(times), history);
    StuckForGood(lib, j, disk, disk.trace, start, true, Wholes(times), history, data);
  }

  lemma StillWorking(trace: seq<State>, start: nat, runs: seq<Run>, history: seq<Segment>)
    requires Lived(trace, start, true, runs, history) && forall i :: 0 <= i < |runs| ==> runs[i].Whole?
    ensures forall i :: 0 <= i < |history| ==> history[i].working
  {
    hide InTrace;
    var i := 0;
    while i < |runs|
      invariant 0 <= i <= |runs| && forall k :: 0 <= k < i ==> history[k].working
    {
      assert Placed(trace, start, true, runs, history, i);
      i := i + 1;
    }
  }

  lemma BothSafe(lib: Libraries, j: Job, s: State, data: seq<Byte>)
    requires Stuck(lib, j, s, data)
    ensures Safe(lib, j, s)
  {
    hide Listed;
  }

  /** As HoldsBoth, for data with a listed digest. */
  predicate CopyMade(lib: Libraries, j: Job, s: State, data: seq<Byte>) {
    && j.source !in s.dirty && ReadOf(lib, s.files, j.source) == Some(data)
    && CACHE_TEMP_SOURCE !in s.dirty && ReadOf(lib, s.files, CACHE_TEMP_SOURCE) == Some(data)
  }

  lemma SomeCopyMade(lib: Libraries, j: Job, trace: seq<State>, since: int, data: seq<Byte>)
    requires PassesBoth(lib, j, trace, since, data)
    ensures exists i :: since <= i < |trace| && CopyMade(lib, j, trace[i], data)
                        && Same(j.Target(), trace[since - 1], trace[i])
  {
    hide Same, Listed;
    var i :| BothAt(lib, j, trace, since, i, data);
    assert CopyMade(lib, j, trace[i], data);
  }

  /** The first run on a device that is full but for one copy of the source, with a state in which that is complete. */
  method FirstRun(lib: Libraries, j: Job, data: seq<Byte>)
      returns (disk: FileSystem, after: nat, ghost seg: Segment)
    requires WellPlaced(j) && Defined(lib, j) && Tells(lib, j) && !IsPartition(j.source) && Listed(lib, j, data)
    requires 0 < |data| <= 262144 && Parsed(j.targetSha1).Some? && Parsed(j.targetSha1) != Some(lib.sha(data))
    ensures fresh(disk) && disk.Valid() && disk.working && disk.trace != []
    ensures disk.trace[0] == State(map[j.source := data], {}) && HasRoom(lib, j, disk, disk.trace[0].files)
    ensures DeletingFrees(disk) && NeverEnough(disk, j) && NoSecondCopy(disk, data)
    ensures Ran(lib, j, disk, disk.trace, seg) && seg.from == 1 && seg.to == |disk.trace| && seg.working
    ensures 1 <= after < |disk.trace| && CopyMade(lib, j, disk.trace[after], data)
    ensures Same(j.Target(), disk.trace[0], disk.trace[after])
  {
    hide WellPlaced, Defined, Tells, DeletingFrees, HoldsSource, Listed, Steady, HasRoom, IsPartition, Parsed,
         CanMakeRoom, Ran, NeverEnough, NoSecondCopy, CopyMade, Same;
    var free := (p: Path, files: map<Path, seq<Byte>>) => if CACHE_TEMP_SOURCE in files then 0 else 262144;
    disk := new FileSystem(free, {}, true, map[j.source := data]);
    FullButForOne(lib, j, disk, data);
    OnlySource(lib, j, disk.Now(), data);
    var r;
    r, seg := RunOnce(lib, disk, j);
    CopyPassed(lib, j, disk, disk.trace, seg, data);
    SomeCopyMade(lib, j, disk.trace, 1, data);
    after :| 1 <= after < |disk.trace| && CopyMade(lib, j, disk.trace[after], data)
             && Same(j.Target(), disk.trace[0], disk.trace[after]);
  }

  /** The first run, cut off there. */
  method CutBetweenCopies(lib: Libraries, j: Job, data: seq<Byte>, junk: Path -> seq<Byte>)
      returns (disk: FileSystem, after: nat, ghost seg: Segment)
    requires WellPlaced(j) && Defined(lib, j) && Tells(lib, j) && !IsPartition(j.source) && Listed(lib, j, data)
    requires 0 < |data| <= 262144 && Parsed(j.targetSha1).Some? && Parsed(j.targetSha1) != Some(lib.sha(data))
    ensures fresh(disk) && disk.Valid() && disk.working && disk.trace != []
    ensures disk.trace[0] == State(map[j.source := data], {}) && HasRoom(lib, j, disk, disk.trace[0].files)
    ensures DeletingFrees(disk) && NeverEnough(disk, j) && NoSecondCopy(disk, data)
    ensures Lived(disk.trace, 1, true, [Cut(after, junk, true)], [seg])
    ensures WorkingAt(true, [Cut(after, junk, true)], [seg], 1)
    ensures Ran(lib, j, disk, disk.trace, seg) && Stuck(lib, j, disk.Now(), data)
  {
    hide WellPlaced, Defined, Tells, DeletingFrees, Listed, HasRoom, IsPartition, Parsed, Ran, Lived, Stuck,
         NeverEnough, NoSecondCopy, CopyMade, Same, WorkingAt, Survives, Left;
    disk, after, seg := FirstRun(lib, j, data);
    ghost var ran, s := disk.trace, disk.trace[after];
    disk.LosePower(after, junk, true);
    AfterCut(lib, j, s, disk.Now(), data);
    RanStill(lib, j, disk, ran, disk.trace, seg);
    OneLived(disk.trace, Cut(after, junk, true), seg);
  }

  /**
   The trap: a device that is full but for one copy of the source on /cache.  A run can begin there, and finish if it is
   not cut off.  But if power is lost when the copy is complete and the source not yet deleted, no later run gets
   further, however often it is tried.
   */
  method StuckBetweenCopies(lib: Libraries, j: Job, data: seq<Byte>, junk: Path -> seq<Byte>, times: nat)
      returns (disk: FileSystem, after: nat, results: seq<int>, ghost history: seq<Segment>)
    requires WellPlaced(j) && Defined(lib, j) && Tells(lib, j) && !IsPartition(j.source) && Listed(lib, j, data)
    requires 0 < |data| <= 262144 && Parsed(j.targetSha1).Some? && Parsed(j.targetSha1) != Some(lib.sha(data))
    ensures disk.Valid() && disk.trace != [] && disk.trace[0] == State(map[j.source := data], {})
    ensures DeletingFrees(disk) && HasRoom(lib, j, disk, disk.trace[0].files)
    ensures Lived(disk.trace, 1, true, [Cut(after, junk, true)] + Wholes(times), history)
    ensures AllRan(lib, j, disk, disk.trace, history)
    ensures |results| == times && |history| == times + 1
    ensures forall i :: 0 <= i < times ==> results[i] == history[i + 1].r == 1
    ensures Stuck(lib, j, disk.Now(), data)
  {
    hide WellPlaced, Defined, Tells, DeletingFrees, Listed, HasRoom, IsPartition, Parsed, Ran, Lived, AllRan, Stuck,
         NeverEnough, NoSecondCopy, WorkingAt;
    ghost var seg;
    disk, after, seg := CutBetweenCopies(lib, j, data, junk);
    ghost var cut, begun := Cut(after, junk, true), disk.trace;
    ghost var rest;
    results, rest := Rerun(lib, disk, j, data, times);
    RanStill(lib, j, disk, begun, disk.trace, seg);
    LivedOn(begun, disk.trace, 1, true, [cut], [seg], Wholes(times), rest);
    history := [seg] + rest;
    RanFirst(lib, j, disk, disk.trace, seg, rest);
  }

  lemma RanFirst(lib: Libraries, j: Job, disk: FileSystem, trace: seq<State>, seg: Segment, rest: seq<Segment>)
    requires Ran(lib, j, disk, trace, seg) && AllRan(lib, j, disk, trace, rest)
    ensures AllRan(lib, j, disk, trace, [seg] + rest)
  {
    hide Ran;
  }

  /** A run that begins with the source alone, and room for its copy only, passes through a state with both. */
  lemma CopyPassed(lib: Libraries, j: Job, disk: FileSystem, trace: seq<State>, seg: Segment, data: seq<Byte>)
    requires WellPlaced(j) && Ran(lib, j, disk, trace, seg) && seg.from == 1 && seg.to == |trace| && seg.working
    requires trace[0] == State(map[j.source := data], {}) && !IsPartition(j.source) && Listed(lib, j, data)
    requires NeverEnough(disk, j) && HasRoom(lib, j, disk, trace[0].files)
    requires Parsed(j.targetSha1).Some? && Parsed(j.targetSha1) != Some(lib.sha(data))
    ensures PassesBoth(lib, j, trace, 1, data)
  {
    hide Listed, Enough, HasRoom, Parsed, PassesBoth, KeepsSafe, HoldsTarget, ComesFrom, Delivers, DeletingFrees, Kept,
         Precious, Safe;
    assert trace[..seg.to] == trace;
    assert !HasTarget(lib, j, trace[0].files) by { WellPlacedApart(j); }
    assert SourceGivesWay(lib, j, disk, trace[0].files);
  }

  lemma AfterCut(lib: Libraries, j: Job, s: State, t: State, data: seq<Byte>)
    requires WellPlaced(j) && CopyMade(lib, j, s, data) && Listed(lib, j, data)
    requires Same(j.Target(), State(map[j.source := data], {}), s) && Survives(s, t)
    requires Parsed(j.targetSha1) != Some(lib.sha(data))
    ensures Stuck(lib, j, t, data)
  {
    hide Listed, Parsed;
    assert Stuck(lib, j, s, data);
    StuckSurvives(lib, j, s, t, data);
  }

  lemma OnlySource(lib: Libraries, j: Job, s: State, data: seq<Byte>)
    requires s == State(map[j.source := data], {}) && Listed(lib, j, data) && !IsPartition(j.source)
    ensures Steady(j, s) && SourceIs(lib, j, s, data)
  {
    hide Listed;
  }

  /** On such a device the source alone leaves room for its copy, and nothing else ever does. */
  lemma FullButForOne(lib: Libraries, j: Job, disk: FileSystem, data: seq<Byte>)
    requires WellPlaced(j) && !IsPartition(j.source) && |data| <= 262144
    requires forall p: Path, files: map<Path, seq<Byte>> ::
               disk.freeSpace(p, files) == if CACHE_TEMP_SOURCE in files then 0 else 262144
    ensures DeletingFrees(disk) && NeverEnough(disk, j) && (data != [] ==> NoSecondCopy(disk, data))
    ensures CanMakeRoom(disk, map[j.source := data], |data|) && HasRoom(lib, j, disk, map[j.source := data])
  {
    hide Listed, WellPlaced, Parsed, Expendable, IsPartition;
    WellPlacedApart(j);
    assert CACHE_TEMP_SOURCE !in Spared(map[j.source := data], disk.open);
    forall a: map<Path, seq<Byte>>, b: map<Path, seq<Byte>> | Within(a, b)
      ensures disk.freeSpace(CACHE, b) <= disk.freeSpace(CACHE, a)
    {
    }
  }

  /**
   The other surprise: on success the source is deleted, although it is not the target, when it had to give way to the
   target.  `patch` makes `after` of `before`, as bsdiff or imgdiff wrote it.
   */
  method SourceGone(lib: Libraries, source: Path, target: Path, before: seq<Byte>, after: seq<Byte>, patch: seq<Byte>)
      returns (disk: FileSystem, j: Job, r: int, ghost seg: Segment)
    requires Makes(lib, before, after, patch) && Unmistakable(lib.sha, before) && Unmistakable(lib.sha, after)
    requires WellPlaced(Job(source, target, "", 0, [], [])) && !IsPartition(source) && target != "-" && source != target
    requires |before| <= 262144
    ensures disk.Valid() && disk.trace != [] && disk.trace[0] == State(map[source := before], {})
    ensures JobFor(lib, j, source, target, before, after)
    ensures seg == Segment(1, |disk.trace|, true, r) && Ran(lib, j, disk, disk.trace, seg)
    ensures r == 0 && source !in disk.files && target in disk.files && disk.files[target] == after
  {
    hide Makes, WellPlaced, Defined, Tells, Delivers, DeletingFrees, Listed, Enough, HasTarget, HasRoom, Printed,
         Unmistakable, Parsed, Safe, Steady, Kept, IsPartition, Ran, NeverEnough;
    var free := (p: Path, files: map<Path, seq<Byte>>) => if CACHE_TEMP_SOURCE in files then 0 else 262144;
    disk := new FileSystem(free, {}, true, map[source := before]);
    j := Job(source, target, Printed(lib.sha(after)), |after|, [Printed(lib.sha(before))], [Blob(patch)]);
    OneVersion(lib, j, before, after, patch);
    StillPlaced(j);
    FullButForOne(lib, j, disk, before);
    SafeStart(lib, j, [before], after, disk.Now(), 0);
    SafeSteady(lib, j, disk.Now());
    MadeForDefined(lib, j, [before], after);
    MadeForTells(lib, j, [before], after);
    MadeForDelivers(lib, j, [before], after);
    GivesWay(lib, j, disk, before, after);
    r, seg := RunOnce(lib, disk, j);
    GoneAfter(lib, j, disk, disk.trace, seg, before);
    TargetIs(lib, j, [before], after, disk.Now());
  }

  lemma GoneAfter(lib: Libraries, j: Job, disk: FileSystem, trace: seq<State>, seg: Segment, before: seq<Byte>)
    requires Ran(lib, j, disk, trace, seg) && seg.from == 1 && seg.to == |trace| && seg.working && Delivers(lib, j)
    requires trace[0].files == map[j.source := before] && j.source != j.Target() && Safe(lib, j, trace[0])
    requires HasRoom(lib, j, disk, trace[0].files) && SourceGivesWay(lib, j, disk, trace[0].files)
    ensures seg.r == 0 && j.source !in trace[|trace| - 1].files && HoldsTarget(lib, j, trace[|trace| - 1])
  {
    hide Listed, Enough, HasRoom, Parsed, PassesBoth, KeepsSafe, HoldsTarget, ComesFrom, Delivers, DeletingFrees, Kept,
         Precious, Safe, SourceGivesWay, HasTarget;
    assert trace[..seg.to] == trace;
  }

  lemma GivesWay(lib: Libraries, j: Job, disk: FileSystem, before: seq<Byte>, after: seq<Byte>)
    requires MadeFor(lib, j, [before], after) && j.source != j.Target() && disk.files == map[j.source := before]
    requires NeverEnough(disk, j) && !IsPartition(j.source)
    ensures SourceGivesWay(lib, j, disk, disk.files) && !HasTarget(lib, j, disk.files)
  {
    hide Printed, Parsed, Makes, Enough;
    assert before == [before][0];
    PrintedSpells(lib.sha(before));
    ParsedIs(j.shas[0], lib.sha(before));
    assert Names(j.shas, 0, lib.sha(before));
  }
}
