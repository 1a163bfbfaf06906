/**
 applypatch/applypatch.c for targets that are partitions, which are written over in place; the source is copied to the
 cache first, in every run.
 */
module PartitionTarget {
  import opened Common
  import opened Digests
  import opened Disk
  import opened FreeCache
  import opened ApplyPatch
  import opened Lives
  import ImgPatch

  predicate OnPartition(j: Job) {
    IsPartition(j.Target()) && |j.patches| == |j.shas| && !("/cache/" <= j.source)
  }

  /** Whatever happens to contents that are not synced, there is something to get the target from. */
  ghost predicate Recoverable(lib: Libraries, j: Job, s: State) {
    HoldsTarget(lib, j, s) || HoldsSource(lib, j, s, j.source) || HoldsSource(lib, j, s, CACHE_TEMP_SOURCE)
  }

  ghost predicate AllRecoverable(lib: Libraries, j: Job, trace: seq<State>, since: int) {
    0 < since <= |trace| && forall i :: since - 1 <= i < |trace| ==> Recoverable(lib, j, trace[i])
  }

  /**
   What the caller must provide: the name of the target lists it, so that what begins with it is found to be it.
   Without that a partition could not be told to hold the target.
   */
  ghost predicate Recognises(lib: Libraries, j: Job) {
    forall contents: seq<Byte>, n ::
      0 <= n <= |contents| && n <= j.targetSize && Parsed(j.targetSha1) == Some(lib.sha(contents[..n])) ==>
        lib.search(j.Target(), contents).Match?
        && Parsed(j.targetSha1) == Some(lib.sha(lib.search(j.Target(), contents).data))
  }

  lemma Apart(j: Job, open: set<Path>)
    requires OnPartition(j)
    ensures j.source != CACHE_TEMP_SOURCE && j.Target() != CACHE_TEMP_SOURCE
    ensures j.source in Precious(open) && j.Target() in Precious(open) && CACHE_TEMP_SOURCE in Precious(open)
  {
    assert "/cache/"[0] == '/' && "MTD:"[0] == 'M' && "EMMC:"[0] == 'E';
    assert "/cache/" <= CACHE_TEMP_SOURCE && j.Target()[0] != '/';
    if Expendable(j.source) { InCache(j.source); }
    if Expendable(j.Target()) { InCache(j.Target()); }
  }

  /** Steps that leave good contents at `p` alone. */
  lemma StaysRecoverable(lib: Libraries, j: Job, keep: iset<Path>, trace: seq<State>, since: nat, p: Path)
    requires Kept(keep, trace, since) && p in keep && HoldsSource(lib, j, trace[since - 1], p)
    requires p == j.source || p == CACHE_TEMP_SOURCE
    ensures AllRecoverable(lib, j, trace, since) && HoldsSource(lib, j, trace[|trace| - 1], p)
  {
    hide Listed;
    forall i | since - 1 <= i < |trace| ensures HoldsSource(lib, j, trace[i], p) {
      if since <= i {
        assert SameOn(keep, trace[since - 1], trace[i]);
        assert Same(p, trace[since - 1], trace[i]);
      }
    }
  }

  lemma RecoverableOn(lib: Libraries, j: Job, trace: seq<State>, mid: nat, since: nat)
    requires mid <= |trace| && AllRecoverable(lib, j, trace[..mid], since) && AllRecoverable(lib, j, trace, mid)
    ensures AllRecoverable(lib, j, trace, since)
  {
    hide Recoverable;
    forall i | since - 1 <= i < |trace| ensures Recoverable(lib, j, trace[i]) {
      if i < mid {
        assert trace[..mid][i] == trace[i];
      }
    }
  }

  predicate HalfWritten(p: Path, s: State) {
    p in s.files && p in s.dirty
  }

  /**
   WriteToPartition: the partition passes through any contents, and may be left with them; what is behind the data when
   it is written is anything.
   */
  method WriteToPartition(disk: FileSystem, p: Path, data: seq<Byte>) returns (ok: bool)
    requires disk.Valid()
    modifies disk`files, disk`dirty, disk`trace
    ensures disk.Valid() && old(disk.trace) <= disk.trace
    ensures Kept(AllBut(p), disk.trace, |old(disk.trace)|)
    ensures ok ==> p in disk.files && data <= disk.files[p] && p !in disk.dirty
    ensures disk.working && p in old(disk.files) ==> ok
    ensures disk.working && p in old(disk.files) ==>
              |old(disk.trace)| < |disk.trace| && HalfWritten(p, disk.trace[|old(disk.trace)|])
  {
    hide Same, SameOn, Kept;
    ghost var since := |disk.trace|;
    KeptNothing(AllBut(p), disk.trace);
    ok := disk.Works();
    if !ok || p !in disk.files {
      return false;
    }
    var anything: seq<Byte> := *;
    disk.Overwrite(p, anything);
    KeptNext(AllBut(p), old(disk.trace), disk.Now(), since);
    ok := disk.Works();
    if !ok {
      return;
    }
    ghost var trace := disk.trace;
    var tail: seq<Byte> := *;
    disk.Overwrite(p, data + tail);
    KeptNext(AllBut(p), trace, disk.Now(), since);
    trace := disk.trace;
    disk.Sync(p);
    KeptNext(AllBut(p), trace, disk.Now(), since);
  }

  /**
   SaveFileContents when the copy is in use: what is saved over it is what is left of the source that was not good.  If
   that could not be read there are no data (`noData`), and the write fails unless there is nothing to write; if it
   could be read its data have been freed, and anything may be written, or nothing.
   */
  method SaveStale(disk: FileSystem, noData: bool, size: nat) returns (ok: bool)
    requires disk.Valid()
    modifies disk`files, disk`dirty, disk`trace
    ensures disk.Valid() && old(disk.trace) <= disk.trace
    ensures Kept(AllBut(CACHE_TEMP_SOURCE), disk.trace, |old(disk.trace)|)
    ensures disk.working ==>
              |old(disk.trace)| < |disk.trace| && CACHE_TEMP_SOURCE in disk.trace[|old(disk.trace)|].dirty
    ensures noData && size > 0 ==>
              !ok && (disk.working ==> CACHE_TEMP_SOURCE in disk.files && disk.files[CACHE_TEMP_SOURCE] == [])
  {
    hide Same, SameOn, Kept;
    ghost var since := |disk.trace|;
    KeptNothing(AllBut(CACHE_TEMP_SOURCE), disk.trace);
    ok := disk.Truncate(CACHE_TEMP_SOURCE);
    if !ok {
      return;
    }
    KeptNext(AllBut(CACHE_TEMP_SOURCE), old(disk.trace), disk.Now(), since);
    if noData && size > 0 {
      return false;
    }
    ghost var mid, trace := |disk.trace|, disk.trace;
    var stale: seq<Byte> := *;
    var written := FileSink(disk, CACHE_TEMP_SOURCE, stale);
    assert disk.trace[..mid] == trace;
    KeptMore(AllBut(CACHE_TEMP_SOURCE), disk.trace, mid, since);
    trace := disk.trace;
    disk.Sync(CACHE_TEMP_SOURCE);
    KeptNext(AllBut(CACHE_TEMP_SOURCE), trace, disk.Now(), since);
    ok := *;
  }

  /** The saved copy has been truncated, and source and target are as they were. */
  predicate CopyEmpty(j: Job, s: State, t: State) {
    && CACHE_TEMP_SOURCE in t.files && t.files[CACHE_TEMP_SOURCE] == []
    && Same(j.source, s, t) && Same(j.Target(), s, t)
  }

  ghost function Only(p: Path): (paths: iset<Path>) { iset{p} }

  lemma KeptOnly(keep: iset<Path>, trace: seq<State>, since: nat, p: Path)
    requires Kept(keep, trace, since) && p in keep
    ensures Kept(Only(p), trace, since)
  {
    hide Same;
    forall i | since <= i < |trace| ensures SameOn(Only(p), trace[since - 1], trace[i]) {
      assert SameOn(keep, trace[since - 1], trace[i]);
    }
  }

  /** The saved copy is written over while source and target are as they were. */
  ghost predicate LosesCopy(j: Job, trace: seq<State>, since: int) {
    exists i :: OpenCopy(j, trace, since, i)
  }

  predicate OpenCopy(j: Job, trace: seq<State>, since: int, i: int) {
    && 0 < since <= i < |trace| && CACHE_TEMP_SOURCE in trace[i].dirty
    && Same(j.source, trace[since - 1], trace[i]) && Same(j.Target(), trace[since - 1], trace[i])
  }

  /** The copy is there for certain, and this is what it holds. */
  predicate CopyIs(lib: Libraries, s: State, text: seq<Byte>) {
    CACHE_TEMP_SOURCE !in s.dirty && ReadOf(lib, s.files, CACHE_TEMP_SOURCE) == Some(text)
  }

  /** Room on /cache, and a copy of the source there; or, if the copy is in use, the stale source over it. */
  method SaveFirst(lib: Libraries, disk: FileSystem, j: Job, text: seq<Byte>, fromSource: bool, noData: bool,
                   size: nat)
      returns (ok: bool)
    requires disk.Valid() && OnPartition(j) && Steady(j, disk.Now())
    requires fromSource ==> SourceIs(lib, j, disk.Now(), text) && size == |text|
    modifies disk`files, disk`dirty, disk`trace
    ensures disk.Valid() && old(disk.trace) <= disk.trace
    ensures Same(j.Target(), old(disk.Now()), disk.Now())
    ensures Kept(Only(j.source), disk.trace, |old(disk.trace)|)
    ensures fromSource ==> AllRecoverable(lib, j, disk.trace, |old(disk.trace)|)
    ensures fromSource && ok ==> HoldsSource(lib, j, disk.Now(), CACHE_TEMP_SOURCE) && CopyIs(lib, disk.Now(), text)
    ensures disk.working && fromSource && CanMakeRoom(disk, old(disk.files), size) ==> ok
    ensures disk.working && !fromSource && CanMakeRoom(disk, old(disk.files), size) ==>
              LosesCopy(j, disk.trace, |old(disk.trace)|)
    ensures disk.working && !fromSource && noData && size > 0 && CanMakeRoom(disk, old(disk.files), size) ==>
              !ok && CopyEmpty(j, old(disk.Now()), disk.Now())
    ensures DeletingFrees(disk) && !CanMakeRoom(disk, old(disk.files), size) ==>
              !ok && Kept(Precious(disk.open), disk.trace, |old(disk.trace)|)
  {
    hide Same, SameOn, Kept, Precious, Listed, Expendable, CanMakeRoom, DeletingFrees, WasFull, AllRecoverable,
         LosesCopy;
    ghost var since := |disk.trace|;
    Apart(j, disk.open);
    CopyIsFile();
    var room := MakeFreeSpaceOnCache(disk, size);
    if fromSource {
      StaysRecoverable(lib, j, Precious(disk.open), disk.trace, since, j.source);
    }
    KeptLast(Precious(disk.open), disk.trace, since, j.Target());
    KeptOnly(Precious(disk.open), disk.trace, since, j.source);
    if room < 0 {
      return false;
    }
    ghost var mid, trace := |disk.trace|, disk.trace;
    if fromSource {
      ok := SaveFileContents(disk, CACHE_TEMP_SOURCE, text);
    } else {
      ok := SaveStale(disk, noData, size);
    }
    assert disk.trace[..mid] == trace;
    ApartFromCopy(j, disk.open, disk.trace, mid, since);
    if fromSource {
      StaysRecoverable(lib, j, AllBut(CACHE_TEMP_SOURCE), disk.trace, mid, j.source);
      RecoverableOn(lib, j, disk.trace, mid, since);
    } else if disk.working {
      CopyLost(j, disk.open, disk.trace, mid, since);
    }
  }

  lemma ApartFromCopy(j: Job, open: set<Path>, trace: seq<State>, mid: nat, since: nat)
    requires OnPartition(j) && 0 < since <= mid <= |trace| && Kept(Precious(open), trace[..mid], since)
    requires Kept(AllBut(CACHE_TEMP_SOURCE), trace, mid)
    ensures Kept(Only(j.source), trace, since)
    ensures Same(j.source, trace[since - 1], trace[|trace| - 1])
    ensures Same(j.Target(), trace[since - 1], trace[|trace| - 1])
  {
    hide Precious, Same, SameOn, Kept, Only, OnPartition;
    Apart(j, open);
    assert trace[..mid][since - 1] == trace[since - 1] && trace[..mid][mid - 1] == trace[mid - 1];
    KeptOnly(Precious(open), trace[..mid], since, j.source);
    KeptOnly(AllBut(CACHE_TEMP_SOURCE), trace, mid, j.source);
    KeptMore(Only(j.source), trace, mid, since);
    KeptTo(Precious(open), trace[..mid], since, j.source, j.Target());
    KeptTo(AllBut(CACHE_TEMP_SOURCE), trace, mid, j.source, j.Target());
    SameTwice(j.source, trace[since - 1], trace[mid - 1], trace[|trace| - 1]);
    SameTwice(j.Target(), trace[since - 1], trace[mid - 1], trace[|trace| - 1]);
  }

  lemma CopyLost(j: Job, open: set<Path>, trace: seq<State>, mid: nat, since: nat)
    requires OnPartition(j) && 0 < since <= mid < |trace| && Kept(Precious(open), trace[..mid], since)
    requires Kept(AllBut(CACHE_TEMP_SOURCE), trace, mid) && CACHE_TEMP_SOURCE in trace[mid].dirty
    ensures LosesCopy(j, trace, since)
  {
    hide Precious, Same, SameOn;
    Apart(j, open);
    assert SameOn(AllBut(CACHE_TEMP_SOURCE), trace[mid - 1], trace[mid]);
    KeptTo(Precious(open), trace[..mid], since, j.source, j.Target());
    assert trace[..mid][since - 1] == trace[since - 1] && trace[..mid][mid - 1] == trace[mid - 1];
    SameOnAt(AllBut(CACHE_TEMP_SOURCE), trace[mid - 1], trace[mid], j.source);
    SameOnAt(AllBut(CACHE_TEMP_SOURCE), trace[mid - 1], trace[mid], j.Target());
    SameTwice(j.source, trace[since - 1], trace[mid - 1], trace[mid]);
    SameTwice(j.Target(), trace[since - 1], trace[mid - 1], trace[mid]);
    assert OpenCopy(j, trace, since, mid);
  }

  lemma SameOnAt(keep: iset<Path>, s: State, t: State, p: Path)
    requires SameOn(keep, s, t) && p in keep
    ensures Same(p, s, t)
  {
  }

  lemma KeptTo(keep: iset<Path>, trace: seq<State>, since: nat, p: Path, q: Path)
    requires Kept(keep, trace, since) && p in keep && q in keep
    ensures Same(p, trace[since - 1], trace[|trace| - 1]) && Same(q, trace[since - 1], trace[|trace| - 1])
  {
    KeptLast(keep, trace, since, p);
    KeptLast(keep, trace, since, q);
  }

  /** What the patch makes is what is wanted, and fits the memory for it. */
  ghost predicate Fits(lib: Libraries, j: Job, text: seq<Byte>, k: int) {
    WorksOn(lib, j, text, k) && |Decode(lib, text, j.patches[k].data).data| <= j.targetSize
  }

  /** MemorySink: a piece that does not fit any more is left out, and that is noticed only if it is looked at. */
  method SinkToMemory(pieces: seq<ImgPatch.Piece>, size: nat) returns (ok: bool, buffer: seq<Byte>)
    ensures ok ==> |buffer| <= size && exists kept :: Thins(kept, pieces) && buffer == ImgPatch.Joined(kept)
    ensures |ImgPatch.Joined(pieces)| <= size ==> ok && buffer == ImgPatch.Joined(pieces)
  {
    hide Thins, ImgPatch.Joined;
    NothingThinned();
    buffer := [];
    ghost var kept := [];
    assert pieces[..0] == [];
    var i := 0;
    while i < |pieces|
      invariant 0 <= i <= |pieces| && |buffer| <= size
      invariant Thins(kept, pieces[..i]) && buffer == ImgPatch.Joined(kept)
      invariant buffer == ImgPatch.Joined(pieces[..i]) || size < |ImgPatch.Joined(pieces[..i])|
    {
      var data := pieces[i].data;
      var fits := |buffer| + |data| <= size;
      JoinedGrows(pieces, i + 1);
      if !fits && pieces[i].checked {
        ThinsSnoc(kept, pieces, i, true);
        return false, buffer;
      }
      ThinsSnoc(kept, pieces, i, fits);
      if fits {
        buffer, kept := buffer + data, kept + [pieces[i]];
      }
      i := i + 1;
    }
    assert pieces[..i] == pieces;
    ok := true;
  }

  lemma {:induction false} JoinedGrows(pieces: seq<ImgPatch.Piece>, n: nat)
    requires n <= |pieces|
    ensures |ImgPatch.Joined(pieces[..n])| <= |ImgPatch.Joined(pieces)|
  {
    if n == |pieces| {
      assert pieces[..n] == pieces;
    } else {
      JoinedGrows(pieces[..|pieces| - 1], n);
      assert pieces[..|pieces| - 1][..n] == pieces[..n];
    }
  }

  /** The end of applypatch: the partition is written with what has the wanted hash, and the copy is deleted. */
  method Replace(lib: Libraries, disk: FileSystem, j: Job, want: seq<Byte>, buffer: seq<Byte>, ghost text: seq<Byte>)
      returns (r: int)
    requires disk.Valid() && OnPartition(j) && Recognises(lib, j) && Parsed(j.targetSha1) == Some(want)
    requires |buffer| <= j.targetSize && lib.sha(buffer) == want
    modifies disk`files, disk`dirty, disk`trace
    ensures disk.Valid() && old(disk.trace) <= disk.trace
    ensures r == 0 || r == 1
    ensures r == 0 ==> HoldsTarget(lib, j, disk.Now())
    ensures HoldsSource(lib, j, old(disk.Now()), CACHE_TEMP_SOURCE) ==>
              AllRecoverable(lib, j, disk.trace, |old(disk.trace)|)
    ensures disk.working && j.Target() in old(disk.files) ==>
              r == 0 && (CopyIs(lib, old(disk.Now()), text) ==> WritesOver(lib, j, disk.trace, |old(disk.trace)|, text))
    ensures j.source != j.Target() ==> Kept(Only(j.source), disk.trace, |old(disk.trace)|)
  {
    hide Same, SameOn, Kept, Parsed, Listed, AllRecoverable, HoldsSource, Recognises, WritesOver, HoldsTarget, CopyIs,
         OnPartition, Only, AllBut;
    ghost var since := |disk.trace|;
    ghost var over := disk.working && j.Target() in disk.files && CopyIs(lib, disk.Now(), text);
    var ok := WriteToPartition(disk, j.Target(), buffer);
    Overwritten(lib, j, disk.trace, since);
    if over {
      OpenAt(lib, j, disk.trace, since, text);
    }
    if !ok {
      return 1;
    }
    Recognised(lib, j, disk.Now(), buffer, want);
    ghost var trace := disk.trace;
    var deleted := disk.Unlink(CACHE_TEMP_SOURCE);
    if deleted {
      CopyDeleted(lib, j, trace, disk.Now(), since);
      if over {
        StillOver(lib, j, trace, disk.trace, since, text);
      }
    }
    return 0;
  }

  /** Steps on the partition alone. */
  lemma Overwritten(lib: Libraries, j: Job, trace: seq<State>, since: nat)
    requires OnPartition(j) && 0 < since <= |trace| && Kept(AllBut(j.Target()), trace, since)
    ensures HoldsSource(lib, j, trace[since - 1], CACHE_TEMP_SOURCE) ==> AllRecoverable(lib, j, trace, since)
    ensures j.source != j.Target() ==> Kept(Only(j.source), trace, since)
  {
    hide Kept, HoldsSource, AllRecoverable, OnPartition;
    Apart(j, {});
    if HoldsSource(lib, j, trace[since - 1], CACHE_TEMP_SOURCE) {
      StaysRecoverable(lib, j, AllBut(j.Target()), trace, since, CACHE_TEMP_SOURCE);
    }
    if j.source != j.Target() {
      KeptOnly(AllBut(j.Target()), trace, since, j.source);
    }
  }

  /** The copy may go when the target is there. */
  lemma CopyDeleted(lib: Libraries, j: Job, trace: seq<State>, t: State, since: nat)
    requires OnPartition(j) && trace != [] && HoldsTarget(lib, j, trace[|trace| - 1])
    requires SameOn(AllBut(CACHE_TEMP_SOURCE), trace[|trace| - 1], t)
    ensures HoldsTarget(lib, j, t)
    ensures AllRecoverable(lib, j, trace, since) ==> AllRecoverable(lib, j, trace + [t], since)
    ensures Kept(Only(j.source), trace, since) ==> Kept(Only(j.source), trace + [t], since)
  {
    hide Kept, HoldsTarget, AllRecoverable, OnPartition, SameOn;
    Apart(j, {});
    TargetStays(lib, j, trace[|trace| - 1], t);
    if AllRecoverable(lib, j, trace, since) {
      RecoverableNext(lib, j, trace, t, since);
    }
    if Kept(Only(j.source), trace, since) {
      OnlyNext(trace, t, since, j.source, CACHE_TEMP_SOURCE);
    }
  }

  lemma OnlyNext(trace: seq<State>, t: State, since: nat, p: Path, q: Path)
    requires trace != [] && Kept(Only(p), trace, since) && SameOn(AllBut(q), trace[|trace| - 1], t) && p != q
    ensures Kept(Only(p), trace + [t], since)
  {
    hide Kept, Same, SameOn;
    SameOnAt(AllBut(q), trace[|trace| - 1], t, p);
    SameOnOnly(trace[|trace| - 1], t, p);
    KeptNext(Only(p), trace, t, since);
  }

  /** The patch applied in memory, and the result written to the partition. */
  method PatchAndWrite(lib: Libraries, disk: FileSystem, j: Job, want: seq<Byte>, text: seq<Byte>, patch: Value)
      returns (r: int)
    requires disk.Valid() && OnPartition(j) && Recognises(lib, j) && Parsed(j.targetSha1) == Some(want)
    requires patch.Blob? ==> !Decode(lib, text, patch.data).Undefined?
    modifies disk`files, disk`dirty, disk`trace
    ensures disk.Valid() && old(disk.trace) <= disk.trace
    ensures r == 0 || r == 1
    ensures r == 0 ==> HoldsTarget(lib, j, disk.Now())
    ensures HoldsSource(lib, j, old(disk.Now()), CACHE_TEMP_SOURCE) ==>
              AllRecoverable(lib, j, disk.trace, |old(disk.trace)|)
    ensures disk.working && j.Target() in old(disk.files) && patch.Blob? && Decode(lib, text, patch.data).Produces? ==>
              var data := Decode(lib, text, patch.data).data;
              |data| <= j.targetSize && lib.sha(data) == want ==>
                && r == 0
                && (CopyIs(lib, old(disk.Now()), text) ==> WritesOver(lib, j, disk.trace, |old(disk.trace)|, text))
    ensures j.source != j.Target() ==> Kept(Only(j.source), disk.trace, |old(disk.trace)|)
  {
    hide Same, SameOn, Kept, Decode, Parsed, Listed, AllRecoverable, HoldsSource, PiecesFor, Thins, ImgPatch.Joined,
         Recognises, WritesOver, HoldsTarget, CopyIs, OnPartition;
    KeptNothing(AllBut(j.Target()), disk.trace);
    Overwritten(lib, j, disk.trace, |disk.trace|);
    if !patch.Blob? {
      return 1;
    }
    var decoded, pieces := ApplyDelta(lib, text, patch.data);
    var ok, buffer := SinkToMemory(pieces, j.targetSize);
    if !decoded.Produces? || !ok || lib.sha(buffer) != want {
      return 1;
    }
    r := Replace(lib, disk, j, want, buffer, text);
  }

  lemma SameOnOnly(s: State, t: State, p: Path)
    requires Same(p, s, t)
    ensures SameOn(Only(p), s, t)
  {
  }

  /** What was written to the partition is found there. */
  lemma Recognised(lib: Libraries, j: Job, s: State, data: seq<Byte>, want: seq<Byte>)
    requires Recognises(lib, j) && OnPartition(j) && Parsed(j.targetSha1) == Some(want)
    requires j.Target() in s.files && j.Target() !in s.dirty && data <= s.files[j.Target()]
    requires |data| <= j.targetSize && lib.sha(data) == want
    ensures HoldsTarget(lib, j, s)
  {
    hide Parsed;
    assert s.files[j.Target()][..|data|] == data;
  }

  /** The partition is being written, and the copy is there. */
  predicate OpenTarget(lib: Libraries, j: Job, trace: seq<State>, since: int, i: int, text: seq<Byte>) {
    0 < since <= i < |trace| && HalfWritten(j.Target(), trace[i]) && CopyIs(lib, trace[i], text)
  }

  /** A state is passed through with the partition half written, and with `text` as the copy. */
  ghost predicate WritesOver(lib: Libraries, j: Job, trace: seq<State>, since: int, text: seq<Byte>) {
    exists i :: OpenTarget(lib, j, trace, since, i, text)
  }

  lemma OpenAt(lib: Libraries, j: Job, trace: seq<State>, since: nat, text: seq<Byte>)
    requires OnPartition(j) && 0 < since < |trace| && Kept(AllBut(j.Target()), trace, since)
    requires CopyIs(lib, trace[since - 1], text) && HalfWritten(j.Target(), trace[since])
    ensures WritesOver(lib, j, trace, since, text)
  {
    hide OnPartition;
    Apart(j, {});
    assert SameOn(AllBut(j.Target()), trace[since - 1], trace[since]);
    SameOnAt(AllBut(j.Target()), trace[since - 1], trace[since], CACHE_TEMP_SOURCE);
    assert OpenTarget(lib, j, trace, since, since, text);
  }

  lemma StillOver(lib: Libraries, j: Job, before: seq<State>, after: seq<State>, since: int, text: seq<Byte>)
    requires before <= after && WritesOver(lib, j, before, since, text)
    ensures WritesOver(lib, j, after, since, text)
  {
    hide CopyIs;
    var i :| OpenTarget(lib, j, before, since, i, text);
    assert after[i] == before[i];
    assert OpenTarget(lib, j, after, since, i, text);
  }

  /** A part of the trace from later on. */
  lemma OverSince(lib: Libraries, j: Job, trace: seq<State>, mid: int, since: int, text: seq<Byte>)
    requires 0 < since <= mid && WritesOver(lib, j, trace, mid, text)
    ensures WritesOver(lib, j, trace, since, text)
  {
    hide CopyIs;
    var i :| OpenTarget(lib, j, trace, mid, i, text);
    assert OpenTarget(lib, j, trace, since, i, text);
  }

  lemma TargetStays(lib: Libraries, j: Job, s: State, t: State)
    requires OnPartition(j) && HoldsTarget(lib, j, s) && SameOn(AllBut(CACHE_TEMP_SOURCE), s, t)
    ensures HoldsTarget(lib, j, t)
  {
    hide Parsed;
    Apart(j, {});
    SameOnAt(AllBut(CACHE_TEMP_SOURCE), s, t, j.Target());
  }

  lemma RecoverableNext(lib: Libraries, j: Job, trace: seq<State>, t: State, since: nat)
    requires AllRecoverable(lib, j, trace, since) && HoldsTarget(lib, j, t)
    ensures AllRecoverable(lib, j, trace + [t], since)
  {
    hide HoldsTarget, HoldsSource;
  }

  /** The two together. */
  method CopyAndWrite(lib: Libraries, disk: FileSystem, j: Job, want: seq<Byte>, text: seq<Byte>, use: nat,
                      fromSource: bool, noData: bool, size: nat)
      returns (r: int)
    requires disk.Valid() && OnPartition(j) && Steady(j, disk.Now()) && Parsed(j.targetSha1) == Some(want)
    requires Recognises(lib, j)
    requires use < |j.patches| && (fromSource ==> SourceIs(lib, j, disk.Now(), text) && size == |text|)
    requires j.patches[use].Blob? ==> !Decode(lib, text, j.patches[use].data).Undefined?
    modifies disk`files, disk`dirty, disk`trace
    ensures disk.Valid() && old(disk.trace) <= disk.trace
    ensures r == 0 || r == 1
    ensures r == 0 ==> HoldsTarget(lib, j, disk.Now())
    ensures fromSource ==> AllRecoverable(lib, j, disk.trace, |old(disk.trace)|)
    ensures disk.working && fromSource && CanMakeRoom(disk, old(disk.files), size) ==>
              j.Target() in old(disk.files) && Fits(lib, j, text, use) ==>
                r == 0 && WritesOver(lib, j, disk.trace, |old(disk.trace)|, text)
    ensures j.source != j.Target() ==> Kept(Only(j.source), disk.trace, |old(disk.trace)|)
    ensures disk.working && !fromSource && CanMakeRoom(disk, old(disk.files), size) ==>
              LosesCopy(j, disk.trace, |old(disk.trace)|)
    ensures disk.working && !fromSource && noData && size > 0 && CanMakeRoom(disk, old(disk.files), size) ==>
              r == 1 && CopyEmpty(j, old(disk.Now()), disk.Now())
    ensures DeletingFrees(disk) && !CanMakeRoom(disk, old(disk.files), size) ==>
              r == 1 && Kept(Precious(disk.open), disk.trace, |old(disk.trace)|)
  {
    hide Parsed, Decode, Listed, DeletingFrees, CanMakeRoom, Kept, Precious, LosesCopy, AllRecoverable, HoldsSource,
         HoldsTarget, OnPartition, Steady, Fits, Recognises, WritesOver, CopyEmpty, CopyIs;
    ghost var since := |disk.trace|;
    var ok := SaveFirst(lib, disk, j, text, fromSource, noData, size);
    if !ok {
      return 1;
    }
    ghost var mid, trace := |disk.trace|, disk.trace;
    FitsIs(lib, j, text, use, want);
    r := PatchAndWrite(lib, disk, j, want, text, j.patches[use]);
    assert disk.trace[..mid] == trace;
    if j.source != j.Target() {
      KeptMore(Only(j.source), disk.trace, mid, since);
    }
    if fromSource {
      RecoverableOn(lib, j, disk.trace, mid, since);
      if WritesOver(lib, j, disk.trace, mid, text) {
        OverSince(lib, j, disk.trace, mid, since, text);
      }
    } else if LosesCopy(j, trace, since) {
      StillLost(j, trace, disk.trace, since);
    }
  }

  lemma FitsIs(lib: Libraries, j: Job, text: seq<Byte>, k: nat, want: seq<Byte>)
    requires Parsed(j.targetSha1) == Some(want) && k < |j.patches|
    ensures Fits(lib, j, text, k) ==>
              && j.patches[k].Blob? && Decode(lib, text, j.patches[k].data).Produces?
              && var data := Decode(lib, text, j.patches[k].data).data;
                 |data| <= j.targetSize && lib.sha(data) == want
  {
    hide Parsed, Decode;
  }

  /** Every listed patch turns every source it is listed for into the wanted target, within the size given for it. */
  ghost predicate DeliversInto(lib: Libraries, j: Job) {
    && Parsed(j.targetSha1).Some?
    && forall data: seq<Byte>, k :: Names(j.shas, k, lib.sha(data)) ==> Fits(lib, j, data, k)
  }

  /**
   applypatch to a partition.  0 means that the target is there for good.  A run on working file systems that begins
   where the target can be had passes only through such states exactly if the target or the source is good, or there is
   no room to begin with.  One that has nothing but the saved copy writes over it; and if the source could not be read,
   as a partition that is half written cannot, it fails and leaves the copy empty.
   */
  method ApplyToPartition(lib: Libraries, disk: FileSystem, j: Job) returns (r: int)
    requires disk.Valid() && OnPartition(j) && Defined(lib, j) && Recognises(lib, j) && Steady(j, disk.Now())
    modifies disk`files, disk`dirty, disk`trace
    ensures disk.Valid() && old(disk.trace) <= disk.trace
    ensures r == 0 || r == 1
    ensures r == 0 ==> HoldsTarget(lib, j, disk.Now())
    ensures disk.working && DeletingFrees(disk) && Recoverable(lib, j, old(disk.Now())) ==>
              j.source in old(disk.files) && Parsed(j.targetSha1).Some? ==>
                (AllRecoverable(lib, j, disk.trace, |old(disk.trace)|) <==>
                 || HasTarget(lib, j, old(disk.files)) || Good(lib, j, old(disk.files), j.source)
                 || !CanMakeRoom(disk, old(disk.files), SizeOf(lib, old(disk.files), j.source)))
    ensures disk.working && OnlyCopyGood(lib, j, old(disk.files)) && Parsed(j.targetSha1).Some? ==>
              j.source in old(disk.files)
              && CanMakeRoom(disk, old(disk.files), SizeOf(lib, old(disk.files), j.source)) ==>
                && LosesCopy(j, disk.trace, |old(disk.trace)|)
                && (Unread(lib, j, old(disk.files)) ==> r == 1 && CopyEmpty(j, old(disk.Now()), disk.Now()))
    ensures disk.working && NoneGood(lib, j, old(disk.files)) ==> r == 1 && disk.trace == old(disk.trace)
    ensures disk.working && HasTarget(lib, j, old(disk.files)) ==> r == 0 && disk.trace == old(disk.trace)
    ensures disk.working && DeliversInto(lib, j) && j.Target() in old(disk.files) ==>
              !HasTarget(lib, j, old(disk.files)) && Good(lib, j, old(disk.files), j.source)
              && CanMakeRoom(disk, old(disk.files), SizeOf(lib, old(disk.files), j.source)) ==>
                && r == 0
                && WritesOver(lib, j, disk.trace, |old(disk.trace)|, ReadOf(lib, old(disk.files), j.source).value)
    ensures j.source != j.Target() ==> Kept(Only(j.source), disk.trace, |old(disk.trace)|)
    ensures disk.working && DeletingFrees(disk) && !HasTarget(lib, j, old(disk.files)) ==>
              j.source in old(disk.files)
              && !CanMakeRoom(disk, old(disk.files), SizeOf(lib, old(disk.files), j.source)) ==>
                r == 1 && Kept(Precious(disk.open), disk.trace, |old(disk.trace)|)
  {
    hide Parsed, Decode, Names, Listed, DeletingFrees, CanMakeRoom, Kept, Precious, LosesCopy, AllRecoverable,
         Recoverable, Fits, HoldsSource, HoldsTarget, HasTarget, Good, Same, OnPartition, Steady, Defined, Recognises,
         WritesOver, CopyEmpty, SizeOf, DeliversInto;
    ghost var since, start := |disk.trace|, disk.Now();
    KeptNothing(Precious(disk.open), disk.trace);
    KeptNothing(Only(j.source), disk.trace);
    NothingHappened(lib, j, disk.trace);
    var want := ParseSha1(j.targetSha1);
    if want.None? {
      NoTarget(lib, j, disk.files);
      return 1;
    }
    var loaded, _ := LoadFileContents(lib, disk, j.Target());
    if loaded.Some? && loaded.value.sha1 == want.value {
      TargetThere(lib, j, disk.Now());
      ReadIsTarget(lib, j, disk.files, loaded.value.data);
      return 0;
    }
    LoadedTarget(lib, j, disk.files, loaded, want.value);
    var use, text, fromSource, sourceFile, size := ChooseSource(lib, disk, j, loaded);
    if use < 0 {
      if disk.working && Recoverable(lib, j, start) {
        SomethingGood(lib, j, start);
      }
      return 1;
    }
    TextIsGood(lib, j, disk, text, use, fromSource);
    SourceRead(lib, j, disk.files);
    r := CopyAndWrite(lib, disk, j, want.value, text, use, fromSource, sourceFile.None?, size);
    if disk.working && !fromSource && LosesCopy(j, disk.trace, since) && Recoverable(lib, j, start) {
      LostIsLost(lib, j, disk.open, disk.trace, since);
    }
    if Kept(Precious(disk.open), disk.trace, since) && Recoverable(lib, j, start) {
      KeptIsRecoverable(lib, j, disk.open, disk.trace, since);
    }
  }

  /** Nothing but the saved copy is good. */
  ghost predicate OnlyCopyGood(lib: Libraries, j: Job, files: map<Path, seq<Byte>>) {
    && !HasTarget(lib, j, files) && !Good(lib, j, files, j.source) && Good(lib, j, files, CACHE_TEMP_SOURCE)
  }

  ghost predicate NoneGood(lib: Libraries, j: Job, files: map<Path, seq<Byte>>) {
    && !HasTarget(lib, j, files) && !Good(lib, j, files, j.source) && !Good(lib, j, files, CACHE_TEMP_SOURCE)
  }

  /** The source is a partition in which nothing listed for it is found. */
  ghost predicate Unread(lib: Libraries, j: Job, files: map<Path, seq<Byte>>) {
    j.source in files && ReadOf(lib, files, j.source).None? && SizeOf(lib, files, j.source) > 0
  }

  lemma NoTarget(lib: Libraries, j: Job, files: map<Path, seq<Byte>>)
    requires Parsed(j.targetSha1).None?
    ensures !HasTarget(lib, j, files) && !DeliversInto(lib, j)
  {
    hide Parsed, Fits, Names;
  }

  lemma ReadIsTarget(lib: Libraries, j: Job, files: map<Path, seq<Byte>>, data: seq<Byte>)
    requires ReadOf(lib, files, j.Target()) == Some(data) && Parsed(j.targetSha1) == Some(lib.sha(data))
    ensures HasTarget(lib, j, files)
  {
    hide Parsed;
  }

  lemma LoadedTarget(lib: Libraries, j: Job, files: map<Path, seq<Byte>>, loaded: Option<FileContents>,
                     want: seq<Byte>)
    requires Parsed(j.targetSha1) == Some(want)
    requires loaded.Some? ==>
               ReadOf(lib, files, j.Target()) == Some(loaded.value.data)
               && loaded.value.sha1 == lib.sha(loaded.value.data) && loaded.value.sha1 != want
    ensures HasTarget(lib, j, files) ==> loaded.None? && ReadOf(lib, files, j.Target()).Some?
  {
    hide Parsed;
  }

  /** A source that is good is there, and has been read. */
  lemma SourceRead(lib: Libraries, j: Job, files: map<Path, seq<Byte>>)
    ensures Good(lib, j, files, j.source) ==> j.source in files && ReadOf(lib, files, j.source).Some?
  {
    hide Listed;
  }

  lemma SomethingGood(lib: Libraries, j: Job, s: State)
    requires Recoverable(lib, j, s)
    ensures
      HasTarget(lib, j, s.files) || Good(lib, j, s.files, j.source) || Good(lib, j, s.files, CACHE_TEMP_SOURCE)
  {
    hide Parsed, Listed;
  }

  lemma NothingHappened(lib: Libraries, j: Job, trace: seq<State>)
    requires trace != []
    ensures Recoverable(lib, j, trace[|trace| - 1]) <==> AllRecoverable(lib, j, trace, |trace|)
  {
    hide Recoverable;
  }

  lemma TextIsGood(lib: Libraries, j: Job, disk: FileSystem, text: seq<Byte>, k: int, fromSource: bool)
    requires OnPartition(j) && Defined(lib, j) && Steady(j, disk.Now()) && Names(j.shas, k, lib.sha(text))
    requires ReadOf(lib, disk.files, if fromSource then j.source else CACHE_TEMP_SOURCE) == Some(text)
    ensures 0 <= k < |j.patches| && (fromSource ==> SourceIs(lib, j, disk.Now(), text))
    ensures Good(lib, j, disk.files, if fromSource then j.source else CACHE_TEMP_SOURCE)
    ensures j.patches[k].Blob? ==> !Decode(lib, text, j.patches[k].data).Undefined?
    ensures DeliversInto(lib, j) ==> Fits(lib, j, text, k)
  {
    hide Parsed, Decode, Fits;
  }

  lemma StillLost(j: Job, before: seq<State>, after: seq<State>, since: int)
    requires before <= after && LosesCopy(j, before, since)
    ensures LosesCopy(j, after, since)
  {
    hide Same;
    var i :| OpenCopy(j, before, since, i);
    assert after[since - 1] == before[since - 1] && after[i] == before[i];
    assert OpenCopy(j, after, since, i);
  }

  /** With nothing else to go by, writing over the copy is a state from which the target cannot be had. */
  lemma LostIsLost(lib: Libraries, j: Job, open: set<Path>, trace: seq<State>, since: nat)
    requires OnPartition(j) && LosesCopy(j, trace, since) && Recoverable(lib, j, trace[since - 1])
    requires !HasTarget(lib, j, trace[since - 1].files) && !Good(lib, j, trace[since - 1].files, j.source)
    ensures !AllRecoverable(lib, j, trace, since) && !Kept(Precious(open), trace, since)
  {
    hide Listed, Parsed, OnPartition, Precious;
    Apart(j, open);
    var i :| OpenCopy(j, trace, since, i);
    assert !Recoverable(lib, j, trace[i]);
    assert !Same(CACHE_TEMP_SOURCE, trace[since - 1], trace[i]);
  }

  lemma KeptIsRecoverable(lib: Libraries, j: Job, open: set<Path>, trace: seq<State>, since: nat)
    requires OnPartition(j) && Kept(Precious(open), trace, since) && Recoverable(lib, j, trace[since - 1])
    ensures AllRecoverable(lib, j, trace, since)
  {
    hide Listed, Parsed, OnPartition, Precious;
    Apart(j, open);
    forall i | since <= i < |trace| ensures Recoverable(lib, j, trace[i]) {
      assert SameOn(Precious(open), trace[since - 1], trace[i]);
      SameOnAt(Precious(open), trace[since - 1], trace[i], j.source);
      SameOnAt(Precious(open), trace[since - 1], trace[i], j.Target());
      SameOnAt(Precious(open), trace[since - 1], trace[i], CACHE_TEMP_SOURCE);
    }
  }

  // Lives of such an update

  /** What is proved of a run, said of a run in a trace. */
  ghost predicate RanOnPartition(lib: Libraries, j: Job, disk: FileSystem, trace: seq<State>, seg: Segment) {
    && 0 < seg.from <= seg.to <= |trace| && (seg.r == 0 || seg.r == 1)
    && (j.source != j.Target() ==> Kept(Only(j.source), trace[..seg.to], seg.from))
    && (seg.r == 0 ==> HoldsTarget(lib, j, trace[seg.to - 1]))
    && (seg.working ==> EndedOnPartition(lib, j, disk, trace[..seg.to], seg.from, trace[seg.from - 1], seg.r))
  }

  /** How a run on working file systems ended that began in a state. */
  ghost predicate EndedOnPartition(lib: Libraries, j: Job, disk: FileSystem, trace: seq<State>, from: nat,
                                   begun: State, r: int)
    requires 0 < from <= |trace|
  {
    var roomy := j.source in begun.files && CanMakeRoom(disk, begun.files, SizeOf(lib, begun.files, j.source));
    && (NoneGood(lib, j, begun.files) ==> r == 1 && |trace| == from)
    && (HasTarget(lib, j, begun.files) ==> r == 0 && |trace| == from)
    && (DeliversInto(lib, j) && j.Target() in begun.files && Good(lib, j, begun.files, j.source) ==>
          !HasTarget(lib, j, begun.files) && roomy ==>
            r == 0 && WritesOver(lib, j, trace, from, ReadOf(lib, begun.files, j.source).value))
    && (DeletingFrees(disk) && !HasTarget(lib, j, begun.files) && j.source in begun.files && !roomy ==>
          r == 1 && Kept(Precious(disk.open), trace, from))
    && (OnlyCopyGood(lib, j, begun.files) && Parsed(j.targetSha1).Some? && roomy ==>
          && LosesCopy(j, trace, from)
          && (Unread(lib, j, begun.files) ==> r == 1 && CopyEmpty(j, begun, trace[|trace| - 1])))
    && (DeletingFrees(disk) && Recoverable(lib, j, begun) && j.source in begun.files && Parsed(j.targetSha1).Some? ==>
          (AllRecoverable(lib, j, trace, from) <==>
             HasTarget(lib, j, begun.files) || Good(lib, j, begun.files, j.source) || !roomy))
  }

  ghost predicate AllRanOnPartition(lib: Libraries, j: Job, disk: FileSystem, trace: seq<State>,
                                    history: seq<Segment>)
  {
    forall i :: 0 <= i < |history| ==> RanOnPartition(lib, j, disk, trace, history[i])
  }

  /** One run of applypatch on a partition to its end. */
  method RunOnPartition(lib: Libraries, disk: FileSystem, j: Job) returns (r: int, ghost seg: Segment)
    requires disk.Valid() && OnPartition(j) && Defined(lib, j) && Recognises(lib, j) && Steady(j, disk.Now())
    modifies disk`files, disk`dirty, disk`trace
    ensures disk.Valid() && old(disk.trace) <= disk.trace
    ensures seg == Segment(|old(disk.trace)|, |disk.trace|, disk.working, r)
    ensures RanOnPartition(lib, j, disk, disk.trace, seg)
  {
    hide OnPartition, Defined, Recognises, Steady, HoldsTarget, HasTarget, Good, DeliversInto, CanMakeRoom, SizeOf,
         DeletingFrees, Kept, Precious, LosesCopy, CopyEmpty, Recoverable, AllRecoverable, WritesOver, Unread, Parsed;
    ghost var trace := disk.trace;
    r := ApplyToPartition(lib, disk, j);
    seg := Segment(|trace|, |disk.trace|, disk.working, r);
    assert disk.trace[..seg.to] == disk.trace && disk.trace[seg.from - 1] == trace[|trace| - 1];
  }

  lemma RanOnPartitionStill(lib: Libraries, j: Job, disk: FileSystem, before: seq<State>, trace: seq<State>,
                            seg: Segment)
    requires before <= trace && RanOnPartition(lib, j, disk, before, seg)
    ensures RanOnPartition(lib, j, disk, trace, seg)
  {
    hide EndedOnPartition, HoldsTarget, Kept;
    assert trace[..seg.to] == before[..seg.to];
  }

  /**
   However runs follow one another and are cut off: a source that is not the target is never lost, so every state is one
   from which the target can be had; and a run on working file systems brings the target exactly if it is there already
   or there is room for the copy.
   */
  lemma LifeOnPartition(lib: Libraries, j: Job, disk: FileSystem, trace: seq<State>, start: nat, working: bool,
                        runs: seq<Run>, history: seq<Segment>)
    requires Lived(trace, start, working, runs, history) && AllRanOnPartition(lib, j, disk, trace, history)
    requires j.source != j.Target() && HoldsSource(lib, j, trace[start - 1], j.source) && DeliversInto(lib, j)
    ensures forall i :: start - 1 <= i < |trace| ==> HoldsSource(lib, j, trace[i], j.source)
    ensures AllRecoverable(lib, j, trace, start)
    ensures forall i :: 0 <= i < |history| ==> BringsTarget(lib, j, disk, trace, history[i])
  {
    hide Lived, AllRanOnPartition, HoldsSource, DeliversInto, HoldsTarget, BringsTarget;
    Span(trace, start, working, runs, history);
    SourceUpTo(lib, j, disk, trace, start, working, runs, history, |runs|);
    forall i | 0 <= i < |history| ensures BringsTarget(lib, j, disk, trace, history[i]) {
      SourceUpTo(lib, j, disk, trace, start, working, runs, history, i);
      RunBrings(lib, j, disk, trace, start, working, runs, history, i);
    }
  }

  /** A run on working file systems returns 0 exactly if it finds the target or room. */
  ghost predicate BringsTarget(lib: Libraries, j: Job, disk: FileSystem, trace: seq<State>, seg: Segment) {
    && 0 < seg.from <= |trace|
    && var files := trace[seg.from - 1].files;
       seg.working && DeletingFrees(disk) && j.Target() in files ==>
         && j.source in files
         && (seg.r == 0 <==> HasTarget(lib, j, files) || CanMakeRoom(disk, files, SizeOf(lib, files, j.source)))
  }

  lemma RunBrings(lib: Libraries, j: Job, disk: FileSystem, trace: seq<State>, start: nat, working: bool,
                  runs: seq<Run>, history: seq<Segment>, i: nat)
    requires Lived(trace, start, working, runs, history) && AllRanOnPartition(lib, j, disk, trace, history)
    requires i < |history| && DeliversInto(lib, j) && 0 < Begin(start, runs, history, i) <= |trace|
    requires HoldsSource(lib, j, trace[Begin(start, runs, history, i) - 1], j.source)
    ensures BringsTarget(lib, j, disk, trace, history[i])
  {
    hide DeliversInto, Listed, Kept, Precious, LosesCopy, CopyEmpty, Recoverable, AllRecoverable, WritesOver, Unread,
         Parsed, InTrace, HoldsTarget, HasTarget, CanMakeRoom, DeletingFrees, SizeOf;
    assert Placed(trace, start, working, runs, history, i);
    assert RanOnPartition(lib, j, disk, trace, history[i]);
    SourceRead(lib, j, trace[history[i].from - 1].files);
  }

  lemma Span(trace: seq<State>, start: nat, working: bool, runs: seq<Run>, history: seq<Segment>)
    requires Lived(trace, start, working, runs, history)
    ensures 0 < start <= |trace| == Begin(start, runs, history, |runs|) && |history| == |runs|
  {
  }

  lemma {:induction false} SourceUpTo(lib: Libraries, j: Job, disk: FileSystem, trace: seq<State>, start: nat,
                                      working: bool, runs: seq<Run>, history: seq<Segment>, i: nat)
    requires Lived(trace, start, working, runs, history) && AllRanOnPartition(lib, j, disk, trace, history)
    requires j.source != j.Target() && HoldsSource(lib, j, trace[start - 1], j.source) && i <= |runs|
    ensures 0 < start <= Begin(start, runs, history, i) <= |trace|
    ensures forall k :: start - 1 <= k < Begin(start, runs, history, i) ==> HoldsSource(lib, j, trace[k], j.source)
  {
    hide HoldsSource, EndedOnPartition, HoldsTarget, InTrace, Kept;
    if i == 0 {
    } else {
      SourceUpTo(lib, j, disk, trace, start, working, runs, history, i - 1);
      assert Placed(trace, start, working, runs, history, i - 1);
      assert RanOnPartition(lib, j, disk, trace, history[i - 1]);
      SourceThroughRun(lib, j, trace, start, history[i - 1], runs[i - 1]);
    }
  }

  lemma SourceThroughRun(lib: Libraries, j: Job, trace: seq<State>, start: nat, seg: Segment, run: Run)
    requires InTrace(trace, seg, run) && Kept(Only(j.source), trace[..seg.to], seg.from) && 0 < start <= seg.from
    requires forall k :: start - 1 <= k < seg.from ==> HoldsSource(lib, j, trace[k], j.source)
    ensures start <= End(seg, run) <= |trace|
    ensures forall k :: start - 1 <= k < End(seg, run) ==> HoldsSource(lib, j, trace[k], j.source)
  {
    hide HoldsSource, Same, SameOn;
    forall k | seg.from <= k < seg.to ensures HoldsSource(lib, j, trace[k], j.source) {
      assert SameOn(Only(j.source), trace[..seg.to][seg.from - 1], trace[..seg.to][k]);
      SameOnAt(Only(j.source), trace[seg.from - 1], trace[k], j.source);
      HeldIfSame(lib, j, trace[seg.from - 1], trace[k], j.source);
    }
    if run.Cut? {
      var at := CutPoint(seg, run.after);
      HeldAfterLoss(lib, j, trace[at], trace[seg.to], run.junk);
    }
  }

  lemma HeldIfSame(lib: Libraries, j: Job, s: State, t: State, p: Path)
    requires HoldsSource(lib, j, s, p) && Same(p, s, t)
    ensures HoldsSource(lib, j, t, p)
  {
    hide Listed;
  }

  lemma HeldAfterLoss(lib: Libraries, j: Job, s: State, t: State, junk: Path -> seq<Byte>)
    requires HoldsSource(lib, j, s, j.source) && t == State(Left(s, junk), {})
    ensures HoldsSource(lib, j, t, j.source)
  {
    hide Listed;
  }

  /** Only the copy is good, the source cannot be read, and there is room to write over the copy. */
  ghost predicate OnTheBrink(lib: Libraries, j: Job, disk: FileSystem, s: State) {
    && OnlyCopyGood(lib, j, s.files) && Unread(lib, j, s.files)
    && CanMakeRoom(disk, s.files, SizeOf(lib, s.files, j.source))
  }

  /** From there the first run that goes to its end destroys the copy; it and every further run return 1. */
  lemma LostWithFirstRun(lib: Libraries, j: Job, disk: FileSystem, trace: seq<State>, start: nat, times: nat,
                         history: seq<Segment>)
    requires Lived(trace, start, true, Wholes(times), history) && AllRanOnPartition(lib, j, disk, trace, history)
    requires OnTheBrink(lib, j, disk, trace[start - 1]) && Parsed(j.targetSha1).Some? && !Listed(lib, j, [])
    ensures |history| == times && forall i :: 0 <= i < times ==> history[i].r == 1
    ensures times > 0 ==> NoneGood(lib, j, trace[|trace| - 1].files)
  {
    hide Lived, AllRanOnPartition, OnTheBrink, NoneGood, Parsed, Listed;
    Span(trace, start, true, Wholes(times), history);
    forall i | 0 <= i < times ensures history[i].r == 1 {
      LostUpTo(lib, j, disk, trace, start, times, history, i + 1);
    }
    if times > 0 {
      LostUpTo(lib, j, disk, trace, start, times, history, times);
    }
  }

  lemma {:induction false} LostUpTo(lib: Libraries, j: Job, disk: FileSystem, trace: seq<State>, start: nat,
                                    times: nat, history: seq<Segment>, i: nat)
    requires Lived(trace, start, true, Wholes(times), history) && AllRanOnPartition(lib, j, disk, trace, history)
    requires OnTheBrink(lib, j, disk, trace[start - 1]) && Parsed(j.targetSha1).Some? && !Listed(lib, j, [])
    requires 0 < i <= times
    ensures history[i - 1].working && history[i - 1].r == 1 && 0 < history[i - 1].to <= |trace|
    ensures NoneGood(lib, j, trace[history[i - 1].to - 1].files)
  {
    hide RanOnPartition, OnTheBrink, NoneGood, Parsed, Listed;
    var seg := history[i - 1];
    assert Placed(trace, start, true, Wholes(times), history, i - 1);
    assert RanOnPartition(lib, j, disk, trace, seg);
    if i == 1 {
      FirstRunLoses(lib, j, disk, trace, seg);
    } else {
      LostUpTo(lib, j, disk, trace, start, times, history, i - 1);
      NextRunInVain(lib, j, disk, trace, seg);
    }
  }

  lemma FirstRunLoses(lib: Libraries, j: Job, disk: FileSystem, trace: seq<State>, seg: Segment)
    requires RanOnPartition(lib, j, disk, trace, seg) && seg.working && Parsed(j.targetSha1).Some?
    requires OnTheBrink(lib, j, disk, trace[seg.from - 1]) && !Listed(lib, j, [])
    ensures seg.r == 1 && NoneGood(lib, j, trace[seg.to - 1].files)
    ensures Steady(j, trace[seg.from - 1]) ==> Steady(j, trace[seg.to - 1])
  {
    hide Parsed, Listed, Kept, Precious, LosesCopy, Recoverable, AllRecoverable, WritesOver, DeliversInto, CanMakeRoom,
         DeletingFrees, SizeOf, HoldsTarget;
    CopyIsFile();
  }

  lemma NextRunInVain(lib: Libraries, j: Job, disk: FileSystem, trace: seq<State>, seg: Segment)
    requires RanOnPartition(lib, j, disk, trace, seg) && seg.working
    requires NoneGood(lib, j, trace[seg.from - 1].files)
    ensures seg.r == 1 && NoneGood(lib, j, trace[seg.to - 1].files)
    ensures Steady(j, trace[seg.from - 1]) ==> Steady(j, trace[seg.to - 1])
  {
    hide Parsed, Listed, Kept, Precious, LosesCopy, Recoverable, AllRecoverable, WritesOver, DeliversInto, CanMakeRoom,
         DeletingFrees, SizeOf, HoldsTarget, HasTarget, Good, CopyEmpty, Unread;
  }

  /** What can be read of the partition before and after a loss of power in the middle of its being written. */
  predicate ReadsAs(lib: Libraries, j: Job, content: seq<Byte>, before: seq<Byte>, junk: seq<Byte>) {
    && lib.search(j.source, content) == Match(before)
    && lib.search(j.source, junk).NoMatch? && lib.search(j.source, junk).read > 0
  }

  /**
   What can come of it, for a partition that is patched in place: one loss of power is enough.  It hits the first run
   while the partition is written; the next run has only the copy to go by, writes over it, and fails; nothing is left,
   and every further run fails too.
   */
  method LostForGood(lib: Libraries, j: Job, content: seq<Byte>, before: seq<Byte>, junk: Path -> seq<Byte>, times: nat)
      returns (disk: FileSystem, after: nat, results: seq<int>, ghost history: seq<Segment>)
    requires OnPartition(j) && j.source == j.Target() && Defined(lib, j) && Recognises(lib, j) && DeliversInto(lib, j)
    requires ReadsAs(lib, j, content, before, junk(j.source)) && Listed(lib, j, before) && !Listed(lib, j, [])
    requires Parsed(j.targetSha1) != Some(lib.sha(before)) && times > 0
    ensures disk.Valid() && disk.trace != [] && disk.trace[0] == State(map[j.source := content], {})
    ensures Lived(disk.trace, 1, true, [Cut(after, junk, true)] + Wholes(times), history)
    ensures AllRanOnPartition(lib, j, disk, disk.trace, history)
    ensures |results| == times && |history| == times + 1
    ensures forall i :: 0 <= i < times ==> results[i] == history[i + 1].r == 1
    ensures NoneGood(lib, j, disk.files)
  {
    hide OnPartition, Defined, Recognises, DeliversInto, ReadsAs, Listed, Lived, AllRanOnPartition, RanOnPartition,
         NoneGood, OnTheBrink, Steady, Parsed, WorkingAt;
    SomeTarget(lib, j);
    ghost var seg;
    disk, after, seg := CutInWrite(lib, j, content, before, junk);
    ghost var cut, begun := Cut(after, junk, true), disk.trace;
    ghost var rest;
    results, rest := RunsInVain(lib, disk, j, times);
    RanOnPartitionStill(lib, j, disk, begun, disk.trace, seg);
    LivedOn(begun, disk.trace, 1, true, [cut], [seg], Wholes(times), rest);
    history := [seg] + rest;
    AllFromFirst(lib, j, disk, disk.trace, seg, rest);
  }

  lemma SomeTarget(lib: Libraries, j: Job)
    requires DeliversInto(lib, j)
    ensures Parsed(j.targetSha1).Some?
  {
    hide Parsed, Fits, Names;
  }

  /** The first run, with a state in which the partition is half written. */
  method FirstRun(lib: Libraries, j: Job, content: seq<Byte>, before: seq<Byte>, room: nat)
      returns (disk: FileSystem, after: nat, ghost seg: Segment)
    requires OnPartition(j) && j.source == j.Target() && Defined(lib, j) && Recognises(lib, j) && DeliversInto(lib, j)
    requires lib.search(j.source, content) == Match(before) && Listed(lib, j, before) && |before| <= room
    requires Parsed(j.targetSha1) != Some(lib.sha(before))
    ensures fresh(disk) && disk.Valid() && disk.working && Roomy(disk, room)
    ensures disk.trace != [] && disk.trace[0] == State(map[j.source := content], {})
    ensures RanOnPartition(lib, j, disk, disk.trace, seg) && seg.from == 1 && seg.to == |disk.trace| && seg.working
    ensures 1 <= after < |disk.trace| && OpenTarget(lib, j, disk.trace, 1, after, before)
  {
    hide OnPartition, Defined, Recognises, DeliversInto, Listed, RanOnPartition, Steady, OpenTarget, Parsed, Roomy;
    disk := new FileSystem((p: Path, files: map<Path, seq<Byte>>) => room, {}, true, map[j.source := content]);
    assert Roomy(disk, room) by { IsRoomy(disk, room); }
    SteadyStart(j, disk.Now());
    var r;
    r, seg := RunOnPartition(lib, disk, j);
    PartitionOpened(lib, j, disk, disk.trace, seg, content, before, room);
    after :| 1 <= after < |disk.trace| && OpenTarget(lib, j, disk.trace, 1, after, before);
  }

  /** There is always so much room on /cache. */
  ghost predicate Roomy(disk: FileSystem, room: nat) {
    forall files: map<Path, seq<Byte>> :: disk.freeSpace(CACHE, files) >= room
  }

  lemma IsRoomy(disk: FileSystem, room: nat)
    requires forall p: Path, files: map<Path, seq<Byte>> :: disk.freeSpace(p, files) == room
    ensures Roomy(disk, room)
  {
  }

  /** The first run, cut off there. */
  method CutInWrite(lib: Libraries, j: Job, content: seq<Byte>, before: seq<Byte>, junk: Path -> seq<Byte>)
      returns (disk: FileSystem, after: nat, ghost seg: Segment)
    requires OnPartition(j) && j.source == j.Target() && Defined(lib, j) && Recognises(lib, j) && DeliversInto(lib, j)
    requires ReadsAs(lib, j, content, before, junk(j.source)) && Listed(lib, j, before)
    requires Parsed(j.targetSha1) != Some(lib.sha(before))
    ensures fresh(disk) && disk.Valid() && disk.working && disk.trace != []
    ensures disk.trace[0] == State(map[j.source := content], {})
    ensures Lived(disk.trace, 1, true, [Cut(after, junk, true)], [seg])
    ensures WorkingAt(true, [Cut(after, junk, true)], [seg], 1)
    ensures RanOnPartition(lib, j, disk, disk.trace, seg)
    ensures OnTheBrink(lib, j, disk, disk.Now()) && Steady(j, disk.Now())
  {
    hide OnPartition, Defined, Recognises, DeliversInto, Listed, Lived, RanOnPartition, OnTheBrink, Steady, OpenTarget,
         Parsed, Left, WorkingAt, Roomy;
    var room := |before| + lib.search(j.source, junk(j.source)).read;
    disk, after, seg := FirstRun(lib, j, content, before, room);
    ghost var ran := disk.trace;
    disk.LosePower(after, junk, true);
    Brink(lib, j, disk, ran, after, disk.Now(), before, junk, room);
    RanOnPartitionStill(lib, j, disk, ran, disk.trace, seg);
    OneLived(disk.trace, Cut(after, junk, true), seg);
  }

  lemma AllFromFirst(lib: Libraries, j: Job, disk: FileSystem, trace: seq<State>, seg: Segment, rest: seq<Segment>)
    requires RanOnPartition(lib, j, disk, trace, seg) && AllRanOnPartition(lib, j, disk, trace, rest)
    ensures AllRanOnPartition(lib, j, disk, trace, [seg] + rest)
  {
    hide RanOnPartition;
  }

  lemma SteadyStart(j: Job, s: State)
    requires s.dirty == {}
    ensures Steady(j, s)
  {
  }

  /** The first run, from the source alone, comes to write the partition. */
  lemma PartitionOpened(lib: Libraries, j: Job, disk: FileSystem, trace: seq<State>, seg: Segment, content: seq<Byte>,
                        before: seq<Byte>, room: nat)
    requires OnPartition(j) && j.source == j.Target() && DeliversInto(lib, j) && Listed(lib, j, before)
    requires lib.search(j.source, content) == Match(before) && Parsed(j.targetSha1) != Some(lib.sha(before))
    requires RanOnPartition(lib, j, disk, trace, seg) && seg.from == 1 && seg.to == |trace| && seg.working
    requires trace[0] == State(map[j.source := content], {}) && Roomy(disk, room) && |before| <= room
    ensures exists i :: 1 <= i < |trace| && OpenTarget(lib, j, trace, 1, i, before)
  {
    hide DeliversInto, Listed, Parsed, OpenTarget, Kept, Precious, LosesCopy, CopyEmpty, Recoverable, AllRecoverable,
         DeletingFrees, HoldsTarget;
    assert trace[..seg.to] == trace;
    assert WritesOver(lib, j, trace, 1, before);
    var i :| OpenTarget(lib, j, trace, 1, i, before);
    assert 1 <= i < |trace| by { OpenSpan(lib, j, trace, 1, i, before); }
  }

  lemma OpenSpan(lib: Libraries, j: Job, trace: seq<State>, since: int, i: int, text: seq<Byte>)
    requires OpenTarget(lib, j, trace, since, i, text)
    ensures since <= i < |trace|
  {
  }

  /** What the loss of power leaves: only the copy. */
  lemma Brink(lib: Libraries, j: Job, disk: FileSystem, ran: seq<State>, after: nat, s: State, before: seq<Byte>,
              junk: Path -> seq<Byte>, room: nat)
    requires OnPartition(j) && j.source == j.Target() && Listed(lib, j, before)
    requires lib.search(j.source, junk(j.source)).NoMatch? && 0 < lib.search(j.source, junk(j.source)).read <= room
    requires OpenTarget(lib, j, ran, 1, after, before) && s == State(Left(ran[after], junk), {}) && Roomy(disk, room)
    ensures OnTheBrink(lib, j, disk, s) && Steady(j, s)
  {
    hide Listed, Parsed;
    CopyIsFile();
  }

  /** Whole runs, one after the other, from there. */
  method RunsInVain(lib: Libraries, disk: FileSystem, j: Job, times: nat)
      returns (results: seq<int>, ghost history: seq<Segment>)
    requires disk.Valid() && disk.working && OnPartition(j) && Defined(lib, j) && Recognises(lib, j)
    requires OnTheBrink(lib, j, disk, disk.Now()) && Steady(j, disk.Now()) && Parsed(j.targetSha1).Some?
    requires !Listed(lib, j, []) && times > 0
    modifies disk`files, disk`dirty, disk`trace
    ensures disk.Valid() && old(disk.trace) <= disk.trace
    ensures Lived(disk.trace, |old(disk.trace)|, true, Wholes(times), history)
    ensures AllRanOnPartition(lib, j, disk, disk.trace, history)
    ensures |results| == |history| == times && forall i :: 0 <= i < times ==> results[i] == history[i].r == 1
    ensures NoneGood(lib, j, disk.files)
  {
    hide OnPartition, Defined, Recognises, Listed, Lived, AllRanOnPartition, RanOnPartition, NoneGood, OnTheBrink,
         Steady, Parsed;
    results, history := [], [];
    ghost var start := |disk.trace|;
    NothingLived(disk.trace, true);
    NoneRan(lib, j, disk, disk.trace);
    while |results| < times
      invariant |results| == |history| <= times && disk.Valid() && disk.working && old(disk.trace) <= disk.trace
      invariant Lived(disk.trace, start, true, Wholes(|history|), history)
      invariant WorkingAt(true, Wholes(|history|), history, |history|)
      invariant AllRanOnPartition(lib, j, disk, disk.trace, history) && Steady(j, disk.Now())
      invariant forall i :: 0 <= i < |history| ==> results[i] == history[i].r == 1
      invariant if results == [] then OnTheBrink(lib, j, disk, disk.Now()) else NoneGood(lib, j, disk.files)
    {
      ghost var before := disk.trace;
      var r;
      ghost var seg;
      r, seg := RunOnPartition(lib, disk, j);
      if results == [] {
        FirstRunLoses(lib, j, disk, disk.trace, seg);
      } else {
        NextRunInVain(lib, j, disk, disk.trace, seg);
      }
      OneMore(lib, j, disk, before, disk.trace, start, history, seg);
      results, history := results + [r], history + [seg];
    }
  }

  lemma NoneRan(lib: Libraries, j: Job, disk: FileSystem, trace: seq<State>)
    ensures AllRanOnPartition(lib, j, disk, trace, [])
  {
  }

  lemma OneMore(lib: Libraries, j: Job, disk: FileSystem, before: seq<State>, trace: seq<State>, start: nat,
                history: seq<Segment>, seg: Segment)
    requires Lived(before, start, true, Wholes(|history|), history) && before <= trace
    requires WorkingAt(true, Wholes(|history|), history, |history|) && seg.working
    requires AllRanOnPartition(lib, j, disk, before, history) && RanOnPartition(lib, j, disk, trace, seg)
    requires seg.from == |before| && seg.to == |trace|
    ensures Lived(trace, start, true, Wholes(|history| + 1), history + [seg])
    ensures WorkingAt(true, Wholes(|history| + 1), history + [seg], |history| + 1)
    ensures AllRanOnPartition(lib, j, disk, trace, history + [seg])
  {
    hide Lived, RanOnPartition;
    Span(before, start, true, Wholes(|history|), history);
    RanSpan(lib, j, disk, trace, seg);
    OneLived(trace, Whole, seg);
    LivedOn(before, trace, start, true, Wholes(|history|), history, [Whole], [seg]);
    assert Wholes(|history| + 1) == Wholes(|history|) + [Whole];
    forall i | 0 <= i < |history| ensures RanOnPartition(lib, j, disk, trace, history[i]) {
      RanOnPartitionStill(lib, j, disk, before, trace, history[i]);
    }
  }

  lemma RanSpan(lib: Libraries, j: Job, disk: FileSystem, trace: seq<State>, seg: Segment)
    requires RanOnPartition(lib, j, disk, trace, seg)
    ensures 0 < seg.from <= seg.to <= |trace|
  {
  }
}
