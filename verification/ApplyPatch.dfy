/**
 The restartable protocol of applypatch/applypatch.c, for targets that are ordinary files.

 The hash, bzip2 and zlib are parameters.
 */
module ApplyPatch {
  import opened Common
  import opened Digests
  import opened Disk
  import opened FreeCache
  import BsPatch
  import ImgPatch

  /**
   What LoadPartitionContents finds for a name in the contents of a partition: data with a digest listed in the name; or
   none, when that many bytes had been read.
   */
  datatype Search = Match(data: seq<Byte>) | NoMatch(read: nat)

  datatype Libraries = Libraries(
    sha: Sha, unzip: seq<Byte> -> seq<Byte>, zlib: ImgPatch.Zlib, search: (Path, seq<Byte>) -> Search)

  /** An edify value: a blob, or something else. */
  datatype Value = Blob(data: seq<Byte>) | NotBlob

  /** The arguments of applypatch; `target` may be "-". */
  datatype Job = Job(
    source: Path, target: Path, targetSha1: string, targetSize: nat, shas: seq<string>, patches: seq<Value>)
  {
    function Target(): (path: Path) { if target == "-" then source else target }
    function Out(): (path: Path) { Target() + ".patch" }
  }

  predicate IsPartition(p: Path) { "MTD:" <= p || "EMMC:" <= p }

  /**
   What the caller must provide: an ordinary file as the target; files that are not below /cache; and a .patch file
   that is not the source.
   */
  predicate WellPlaced(j: Job) {
    && !IsPartition(j.Target()) && |j.patches| == |j.shas|
    && !("/cache/" <= j.source) && !("/cache/" <= j.Target()) && j.Out() != j.source
  }

  /** What a patch makes of the source data. */
  datatype Decoded = Produces(data: seq<Byte>) | Fails | Unknown | Undefined

  function Decode(lib: Libraries, text: seq<Byte>, patch: seq<Byte>): (decoded: Decoded) {
    if |patch| >= 8 && patch[..8] == BsPatch.MAGIC then
      match BsPatch.PatchMem(lib.unzip, text, patch, 0)
      case Done(data) => Produces(data)
      case Fail => Fails
      case _ => Undefined
    else if |patch| >= 8 && patch[..8] == ImgPatch.MAGIC then
      match ImgPatch.ImageOf(lib.zlib, lib.unzip, text, patch)
      case Image(data) => Produces(data)
      case Fail => Fails
      case Undefined => Undefined
    else Unknown
  }

  /** What decoding hands to the sink, piece by piece, up to where it fails. */
  function PiecesFor(lib: Libraries, text: seq<Byte>, patch: seq<Byte>): (pieces: seq<ImgPatch.Piece>) {
    if |patch| >= 8 && patch[..8] == BsPatch.MAGIC then
      match BsPatch.PatchMem(lib.unzip, text, patch, 0)
      case Done(data) => [ImgPatch.Piece(data, true)]
      case _ => []
    else if |patch| >= 8 && patch[..8] == ImgPatch.MAGIC then ImgPatch.PiecesOf(lib.zlib, lib.unzip, text, patch)
    else []
  }

  /** All the pieces, or without some of those for which a failure of the sink is not noticed. */
  ghost predicate Thins(kept: seq<ImgPatch.Piece>, all: seq<ImgPatch.Piece>) {
    if all == [] then kept == []
    else
      var n, piece := |all| - 1, all[|all| - 1];
      || (kept != [] && kept[|kept| - 1] == piece && Thins(kept[..|kept| - 1], all[..n]))
      || (!piece.checked && Thins(kept, all[..n]))
  }

  /** The output holds `content`, and `sha1` is the digest of the pieces that were `kept`. */
  ghost predicate SunkAs(lib: Libraries, text: seq<Byte>, patch: seq<Byte>, content: seq<Byte>, sha1: seq<Byte>,
                         kept: seq<ImgPatch.Piece>)
  {
    && Decode(lib, text, patch).Produces? && Thins(kept, PiecesFor(lib, text, patch))
    && sha1 == lib.sha(ImgPatch.Joined(kept))
    && (ImgPatch.Joined(kept) == Decode(lib, text, patch).data ==> content == Decode(lib, text, patch).data)
  }

  ghost predicate Sunk(lib: Libraries, text: seq<Byte>, patch: seq<Byte>, content: seq<Byte>, sha1: seq<Byte>) {
    exists kept :: SunkAs(lib, text, patch, content, sha1, kept)
  }

  /** The digest of the target tells what a listed patch makes from what is left of it when pieces are missing. */
  ghost predicate Tells(lib: Libraries, j: Job) {
    forall text: seq<Byte>, k, content, sha1, kept ::
      && Names(j.shas, k, lib.sha(text)) && 0 <= k < |j.patches| && j.patches[k].Blob?
      && SunkAs(lib, text, j.patches[k].data, content, sha1, kept) && Parsed(j.targetSha1) == Some(sha1) ==>
        ImgPatch.Joined(kept) == Decode(lib, text, j.patches[k].data).data
  }

  /** No patch runs into undefined behaviour on a source that it is listed for. */
  ghost predicate Defined(lib: Libraries, j: Job) {
    forall data: seq<Byte>, k :: Names(j.shas, k, lib.sha(data)) && k < |j.patches| && j.patches[k].Blob? ==>
      !Decode(lib, data, j.patches[k].data).Undefined?
  }

  ghost predicate Named(lib: Libraries, shas: seq<string>, data: seq<Byte>) {
    exists k :: Names(shas, k, lib.sha(data))
  }

  /** Contents with one of the listed digests. */
  ghost predicate Listed(lib: Libraries, j: Job, data: seq<Byte>) {
    Named(lib, j.shas, data)
  }

  /** What a path reads as: a file as it is, a partition as what is found in it. */
  function ReadOf(lib: Libraries, files: map<Path, seq<Byte>>, p: Path): (data: Option<seq<Byte>>) {
    if p !in files then None
    else if !IsPartition(p) then Some(files[p])
    else
      match lib.search(p, files[p])
      case Match(found) => Some(found)
      case NoMatch(_) => None
  }

  /** What is read there has one of the listed digests. */
  ghost predicate Good(lib: Libraries, j: Job, files: map<Path, seq<Byte>>, p: Path) {
    ReadOf(lib, files, p).Some? && Listed(lib, j, ReadOf(lib, files, p).value)
  }

  /** The target is there. */
  ghost predicate HasTarget(lib: Libraries, j: Job, files: map<Path, seq<Byte>>) {
    && ReadOf(lib, files, j.Target()).Some?
    && Parsed(j.targetSha1) == Some(lib.sha(ReadOf(lib, files, j.Target()).value))
  }

  /** Whether a path holds something good for certain, whatever happens to contents that are not synced. */
  ghost predicate HoldsSource(lib: Libraries, j: Job, s: State, p: Path) {
    p !in s.dirty && Good(lib, j, s.files, p)
  }

  ghost predicate HoldsTarget(lib: Libraries, j: Job, s: State) {
    j.Target() !in s.dirty && HasTarget(lib, j, s.files)
  }

  ghost predicate SourceIs(lib: Libraries, j: Job, s: State, text: seq<Byte>) {
    HoldsSource(lib, j, s, j.source) && ReadOf(lib, s.files, j.source) == Some(text)
  }

  /** Nothing is lost: the target is there, or the source, or the saved copy of the source. */
  ghost predicate Safe(lib: Libraries, j: Job, s: State) {
    && j.source !in s.dirty && j.Target() !in s.dirty
    && (HoldsTarget(lib, j, s) || HoldsSource(lib, j, s, j.source) || HoldsSource(lib, j, s, CACHE_TEMP_SOURCE))
  }

  /** All the states from the one before `since` on are safe. */
  ghost predicate SafeRun(lib: Libraries, j: Job, trace: seq<State>, since: int) {
    0 < since <= |trace| && forall i :: since - 1 <= i < |trace| ==> Safe(lib, j, trace[i])
  }

  /** A loss of power in a safe state leads to a safe state. */
  lemma SafeAfterCrash(lib: Libraries, j: Job, s: State, t: State)
    requires Safe(lib, j, s) && Survives(s, t)
    ensures Safe(lib, j, t)
  {
    hide Listed;
    assert forall p :: p in s.files <==> p in t.files.Keys;
  }

  /** A state in which the paths that matter are the same is safe too. */
  lemma SafeIfSame(lib: Libraries, j: Job, s: State, t: State)
    requires Safe(lib, j, s) && Same(j.source, s, t) && Same(j.Target(), s, t)
    requires Same(CACHE_TEMP_SOURCE, s, t) || HoldsTarget(lib, j, s) || HoldsSource(lib, j, s, j.source)
    ensures Safe(lib, j, t)
  {
    hide Listed;
  }

  /** Steps that leave the source, the target and what holds good data alone. */
  lemma SafeThroughout(lib: Libraries, j: Job, keep: iset<Path>, trace: seq<State>, since: nat)
    requires Kept(keep, trace, since) && Safe(lib, j, trace[since - 1]) && j.source in keep && j.Target() in keep
    requires CACHE_TEMP_SOURCE in keep || HoldsTarget(lib, j, trace[since - 1]) ||
             HoldsSource(lib, j, trace[since - 1], j.source)
    ensures SafeRun(lib, j, trace, since)
  {
    hide Safe, HoldsTarget, HoldsSource, Same;
    forall i | since - 1 <= i < |trace| ensures Safe(lib, j, trace[i]) {
      if since <= i {
        assert SameOn(keep, trace[since - 1], trace[i]);
        SafeIfSame(lib, j, trace[since - 1], trace[i]);
      }
    }
  }

  lemma SafeOn(lib: Libraries, j: Job, trace: seq<State>, mid: nat, since: nat)
    requires mid <= |trace| && SafeRun(lib, j, trace[..mid], since) && SafeRun(lib, j, trace, mid)
    ensures SafeRun(lib, j, trace, since)
  {
    hide Safe;
    forall i | since - 1 <= i < |trace| ensures Safe(lib, j, trace[i]) {
      if i < mid {
        assert trace[..mid][i] == trace[i];
      }
    }
  }

  datatype FileContents = FileContents(data: seq<Byte>, sha1: seq<Byte>)

  /** The size that reading a path leaves in the FileContents, also when there are no data. */
  function SizeOf(lib: Libraries, files: map<Path, seq<Byte>>, p: Path): (size: nat)
    requires p in files
  {
    if !IsPartition(p) then |files[p]|
    else
      match lib.search(p, files[p])
      case Match(found) => |found|
      case NoMatch(read) => read
  }

  /** The contents with their hash, or none; `size` is set in any case. */
  method LoadFileContents(lib: Libraries, disk: FileSystem, p: Path) returns (f: Option<FileContents>, size: nat)
    ensures f.Some? ==> ReadOf(lib, disk.files, p) == Some(f.value.data) && f.value.sha1 == lib.sha(f.value.data)
    ensures f.Some? ==> size == |f.value.data|
    ensures disk.working && ReadOf(lib, disk.files, p).Some? ==> f.Some?
    ensures disk.working && p in disk.files ==> size == SizeOf(lib, disk.files, p)
  {
    size := *;
    var content := disk.Read(p);
    if content.None? {
      return None, size;
    }
    var data := content.value;
    if IsPartition(p) {
      match lib.search(p, content.value) {
        case Match(found) => data := found;
        case NoMatch(read) => return None, read;
      }
    }
    return Some(FileContents(data, lib.sha(data))), |data|;
  }

  /** The data is appended as far as it can be written. */
  method FileSink(disk: FileSystem, p: Path, data: seq<Byte>) returns (done: nat)
    requires disk.Valid() && p in disk.files
    modifies disk`files, disk`dirty, disk`trace
    ensures disk.Valid() && old(disk.trace) <= disk.trace
    ensures Kept(AllBut(p), disk.trace, |old(disk.trace)|)
    ensures done <= |data| && p in disk.files && disk.files[p] == old(disk.files[p]) + data[..done]
    ensures disk.working ==> done == |data|
  {
    hide Same, SameOn;
    done := 0;
    ghost var since := |disk.trace|;
    while done < |data|
      invariant done <= |data| && disk.Valid() && old(disk.trace) <= disk.trace
      invariant Kept(AllBut(p), disk.trace, since)
      invariant p in disk.files && disk.files[p] == old(disk.files[p]) + data[..done]
    {
      ghost var trace := disk.trace;
      var wrote := disk.Write(p, data[done..]);
      KeptNext(AllBut(p), trace, disk.Now(), since);
      assert data[..done] + data[done..][..wrote] == data[..done + wrote];
      if wrote <= 0 {
        return done;
      }
      done := done + wrote;
    }
  }

  /** A file written, synced and given its mode. */
  method SaveFileContents(disk: FileSystem, p: Path, data: seq<Byte>) returns (ok: bool)
    requires disk.Valid()
    modifies disk`files, disk`dirty, disk`trace
    ensures disk.Valid() && old(disk.trace) <= disk.trace
    ensures Kept(AllBut(p), disk.trace, |old(disk.trace)|)
    ensures ok ==> p in disk.files && disk.files[p] == data && p !in disk.dirty
    ensures disk.working ==> ok
    ensures ok ==> |disk.trace| > |old(disk.trace)|
  {
    hide Same, SameOn, Kept;
    ghost var since := |disk.trace|;
    ok := Rewrite(disk, p, data);
    if !ok {
      return;
    }
    ghost var trace := disk.trace;
    disk.Sync(p);
    KeptNext(AllBut(p), trace, disk.Now(), since);
    ok := disk.ChangeMode(p);
    if !ok {
      return;
    }
    ok := disk.ChangeMode(p);
  }

  /** The file opened anew and filled. */
  method Rewrite(disk: FileSystem, p: Path, data: seq<Byte>) returns (ok: bool)
    requires disk.Valid()
    modifies disk`files, disk`dirty, disk`trace
    ensures disk.Valid() && old(disk.trace) <= disk.trace
    ensures Kept(AllBut(p), disk.trace, |old(disk.trace)|)
    ensures ok ==> p in disk.files && disk.files[p] == data
    ensures disk.working ==> ok
  {
    hide Same, SameOn, Kept;
    ghost var since := |disk.trace|;
    KeptNothing(AllBut(p), disk.trace);
    ok := disk.Truncate(p);
    if !ok {
      return;
    }
    KeptNext(AllBut(p), old(disk.trace), disk.Now(), since);
    ghost var mid := |disk.trace|;
    ghost var trace := disk.trace;
    var written := FileSink(disk, p, data);
    assert disk.trace[..mid] == trace;
    KeptMore(AllBut(p), disk.trace, mid, since);
    ok := written == |data|;
  }

  lemma ThinsSnoc(kept: seq<ImgPatch.Piece>, all: seq<ImgPatch.Piece>, i: nat, taken: bool)
    requires i < |all| && Thins(kept, all[..i]) && (taken || !all[i].checked)
    ensures Thins(if taken then kept + [all[i]] else kept, all[..i + 1])
    ensures ImgPatch.Joined(all[..i + 1]) == ImgPatch.Joined(all[..i]) + all[i].data
    ensures ImgPatch.Joined(kept + [all[i]]) == ImgPatch.Joined(kept) + all[i].data
  {
    assert all[..i + 1][..i] == all[..i] && (kept + [all[i]])[..|kept|] == kept;
  }

  /**
   The pieces go to the output file and into the digest.  An error of the file stops the work only for the pieces for
   which it is looked at; the digest then leaves the others out.
   */
  method SinkAll(lib: Libraries, disk: FileSystem, out: Path, pieces: seq<ImgPatch.Piece>)
      returns (ok: bool, hashed: seq<Byte>, ghost kept: seq<ImgPatch.Piece>)
    requires disk.Valid() && out in disk.files && disk.files[out] == []
    modifies disk`files, disk`dirty, disk`trace
    ensures disk.Valid() && old(disk.trace) <= disk.trace && out in disk.files
    ensures Kept(AllBut(out), disk.trace, |old(disk.trace)|)
    ensures ok ==> Thins(kept, pieces) && hashed == ImgPatch.Joined(kept)
    ensures ok && hashed == ImgPatch.Joined(pieces) ==> disk.files[out] == hashed
    ensures disk.working ==> ok && hashed == ImgPatch.Joined(pieces)
  {
    hide Same, SameOn, Kept, Thins, ImgPatch.Joined;
    ghost var since := |disk.trace|;
    KeptNothing(AllBut(out), disk.trace);
    NothingThinned();
    hashed, kept := [], [];
    ghost var whole := true;
    assert pieces[..0] == [];
    var i := 0;
    while i < |pieces|
      invariant 0 <= i <= |pieces| && disk.Valid() && old(disk.trace) <= disk.trace && out in disk.files
      invariant Kept(AllBut(out), disk.trace, since)
      invariant Thins(kept, pieces[..i]) && hashed == ImgPatch.Joined(kept)
      invariant if whole then hashed == ImgPatch.Joined(pieces[..i]) == disk.files[out]
                else |hashed| < |ImgPatch.Joined(pieces[..i])|
      invariant disk.working ==> whole
    {
      ghost var mid, trace := |disk.trace|, disk.trace;
      var data := pieces[i].data;
      var done := FileSink(disk, out, data);
      assert disk.trace[..mid] == trace;
      KeptMore(AllBut(out), disk.trace, mid, since);
      if done < |data| && pieces[i].checked {
        return false, hashed, kept;
      }
      ThinsSnoc(kept, pieces, i, done == |data|);
      if done == |data| {
        assert data[..done] == data;
        hashed, kept := hashed + data, kept + [pieces[i]];
      } else {
        whole := false;
      }
      i := i + 1;
    }
    assert pieces[..i] == pieces;
    ok := true;
  }

  lemma NothingThinned()
    ensures Thins([], []) && ImgPatch.Joined([]) == []
  {
  }

  /**
   The middle of the loop: decode the patch into the output file.  output: whether the file could be opened;
   result: None for a patch of unknown format; sha1: the digest of what the sink took.
   */
  method WriteOutput(lib: Libraries, disk: FileSystem, out: Path, text: seq<Byte>, patch: seq<Byte>)
      returns (output: bool, result: Option<int>, sha1: seq<Byte>)
    requires disk.Valid() && !Decode(lib, text, patch).Undefined?
    modifies disk`files, disk`dirty, disk`trace
    ensures disk.Valid() && old(disk.trace) <= disk.trace
    ensures Kept(AllBut(out), disk.trace, |old(disk.trace)|)
    ensures result.Some? ==> result == Some(0) || result == Some(1)
    ensures output && result == Some(0) ==>
              out in disk.files && out !in disk.dirty && Sunk(lib, text, patch, disk.files[out], sha1)
    ensures disk.working && output && result == Some(0) ==>
              sha1 == lib.sha(disk.files[out]) && Decode(lib, text, patch) == Produces(disk.files[out])
    ensures disk.working ==> output
    ensures disk.working && Decode(lib, text, patch).Produces? ==> result == Some(0)
  {
    hide Decode, PiecesFor, Same, SameOn, Kept, Thins;
    ghost var since := |disk.trace|;
    KeptNothing(AllBut(out), disk.trace);
    sha1, result := [], None;
    output := disk.Truncate(out);
    if !output {
      return;
    }
    KeptNext(AllBut(out), old(disk.trace), disk.Now(), since);
    var decoded, pieces := ApplyDelta(lib, text, patch);
    if decoded.Unknown? {
      return;
    }
    ghost var mid, trace := |disk.trace|, disk.trace;
    var ok, hashed, kept := SinkAll(lib, disk, out, pieces);
    assert disk.trace[..mid] == trace;
    KeptMore(AllBut(out), disk.trace, mid, since);
    result := Some(if decoded.Produces? && ok then 0 else 1);
    sha1 := lib.sha(hashed);
    assert result == Some(0) ==> SunkAs(lib, text, patch, disk.files[out], sha1, kept);
    trace := disk.trace;
    disk.Sync(out);
    KeptNext(AllBut(out), trace, disk.Now(), since);
  }

  lemma KeptNothing(keep: iset<Path>, trace: seq<State>)
    requires trace != []
    ensures Kept(keep, trace, |trace|)
  {
  }

  /** The choice between the two patch formats. */
  method ApplyDelta(lib: Libraries, text: seq<Byte>, patch: seq<Byte>)
      returns (r: Decoded, pieces: seq<ImgPatch.Piece>)
    ensures r == Decode(lib, text, patch) && pieces == PiecesFor(lib, text, patch)
    ensures r.Produces? ==> ImgPatch.Joined(pieces) == r.data
  {
    pieces := [];
    if |patch| >= 8 && patch[..8] == BsPatch.MAGIC {
      var outcome := BsPatch.ApplyBSDiffPatchMem(lib.unzip, text, patch, 0);
      r := match outcome case Done(data) => Produces(data) case Fail => Fails case _ => Undefined;
      if r.Produces? {
        pieces := [ImgPatch.Piece(r.data, true)];
        ImgPatch.JoinedSnoc([], pieces[0]);
      }
    } else if |patch| >= 8 && patch[..8] == ImgPatch.MAGIC {
      var outcome;
      outcome, pieces := ImgPatch.ApplyImagePatch(lib.zlib, lib.unzip, text, patch);
      r := match outcome case Image(data) => Produces(data) case Fail => Fails case Undefined => Undefined;
    } else {
      r := Unknown;
    }
  }

  /** Neither the source nor the target waits to be synced; so it is when the device has just started. */
  predicate Steady(j: Job, s: State) {
    j.source !in s.dirty && j.Target() !in s.dirty
  }

  lemma WellPlacedPrecious(j: Job, open: set<Path>)
    requires WellPlaced(j)
    ensures j.source in Precious(open) && j.Target() in Precious(open) && CACHE_TEMP_SOURCE in Precious(open)
  {
    if Expendable(j.source) { InCache(j.source); }
    if Expendable(j.Target()) { InCache(j.Target()); }
  }

  lemma WellPlacedApart(j: Job)
    requires WellPlaced(j)
    ensures j.source != CACHE_TEMP_SOURCE && j.Target() != CACHE_TEMP_SOURCE && j.Out() != CACHE_TEMP_SOURCE
    ensures j.Out() != j.Target() && j.Out() != j.source
  {
    assert "/cache/" <= CACHE_TEMP_SOURCE;
  }

  lemma CopyIsFile()
    ensures !IsPartition(CACHE_TEMP_SOURCE)
  {
    assert "MTD:"[0] == 'M' && "EMMC:"[0] == 'E' && CACHE_TEMP_SOURCE[0] == '/';
  }

  /** The source is in place, and the cache holds a copy of it. */
  ghost predicate HoldsBoth(lib: Libraries, j: Job, s: State, data: seq<Byte>) {
    && SourceIs(lib, j, s, data) && HoldsSource(lib, j, s, CACHE_TEMP_SOURCE)
    && ReadOf(lib, s.files, CACHE_TEMP_SOURCE) == Some(data)
  }

  /** The state `i` has the source and the copy, and the target as it was. */
  ghost predicate BothAt(lib: Libraries, j: Job, trace: seq<State>, since: int, i: int, data: seq<Byte>) {
    0 < since <= i < |trace| && HoldsBoth(lib, j, trace[i], data) && Same(j.Target(), trace[since - 1], trace[i])
  }

  /** A state with the source and the copy is passed through. */
  ghost predicate PassesBoth(lib: Libraries, j: Job, trace: seq<State>, since: int, data: seq<Byte>) {
    exists i :: BothAt(lib, j, trace, since, i, data)
  }

  lemma PassedBoth(lib: Libraries, j: Job, before: seq<State>, after: seq<State>, since: int, data: seq<Byte>)
    requires before <= after && PassesBoth(lib, j, before, since, data)
    ensures PassesBoth(lib, j, after, since, data)
  {
    hide HoldsBoth, Same;
    var i :| BothAt(lib, j, before, since, i, data);
    assert after[since - 1] == before[since - 1] && after[i] == before[i];
    assert BothAt(lib, j, after, since, i, data);
  }

  /** Making room on /cache, and saving the source there. */
  method CopySource(lib: Libraries, disk: FileSystem, j: Job, data: seq<Byte>) returns (ok: bool)
    requires disk.Valid() && WellPlaced(j) && Steady(j, disk.Now())
    requires SourceIs(lib, j, disk.Now(), data)
    modifies disk`files, disk`dirty, disk`trace
    ensures disk.Valid() && old(disk.trace) <= disk.trace
    ensures SafeRun(lib, j, disk.trace, |old(disk.trace)|)
    ensures ok ==> HoldsBoth(lib, j, disk.Now(), data) && Same(j.Target(), old(disk.Now()), disk.Now())
    ensures ok ==> |disk.trace| > |old(disk.trace)|
    ensures disk.working && CanMakeRoom(disk, old(disk.files), |data|) ==> ok
    ensures DeletingFrees(disk) && !CanMakeRoom(disk, old(disk.files), |data|) ==>
              !ok && Kept(Precious(disk.open), disk.trace, |old(disk.trace)|)
  {
    hide CanMakeRoom, DeletingFrees, Same, SameOn, Kept, Precious, Listed, Expendable, WellPlaced, Safe, SafeRun,
         WasFull, Within, IsPartition, Steady, HoldsTarget;
    ghost var since := |disk.trace|;
    WellPlacedPrecious(j, disk.open);
    WellPlacedApart(j);
    SafeWithSource(lib, j, disk.Now());
    CopyIsFile();
    var room := MakeFreeSpaceOnCache(disk, |data|);
    SafeThroughout(lib, j, Precious(disk.open), disk.trace, since);
    HoldsStill(lib, j, Precious(disk.open), disk.trace, since);
    KeptLast(Precious(disk.open), disk.trace, since, j.Target());
    ghost var first, second := old(disk.Now()), disk.Now();
    if room < 0 {
      return false;
    }
    ghost var mid, trace := |disk.trace|, disk.trace;
    SafeLast(lib, j, trace, since);
    ok := SaveFileContents(disk, CACHE_TEMP_SOURCE, data);
    assert disk.trace[..mid] == trace;
    SafeThroughout(lib, j, AllBut(CACHE_TEMP_SOURCE), disk.trace, mid);
    SafeOn(lib, j, disk.trace, mid, since);
    HoldsStill(lib, j, AllBut(CACHE_TEMP_SOURCE), disk.trace, mid);
    KeptLast(AllBut(CACHE_TEMP_SOURCE), disk.trace, mid, j.Target());
    SameTwice(j.Target(), first, second, disk.Now());
  }

  /** Not enough room for the target: the source is copied to the cache, and only then deleted. */
  method BackUp(lib: Libraries, disk: FileSystem, j: Job, data: seq<Byte>) returns (ok: bool)
    requires disk.Valid() && WellPlaced(j) && Steady(j, disk.Now())
    requires SourceIs(lib, j, disk.Now(), data)
    modifies disk`files, disk`dirty, disk`trace
    ensures disk.Valid() && old(disk.trace) <= disk.trace
    ensures SafeRun(lib, j, disk.trace, |old(disk.trace)|)
    ensures ok ==> HoldsSource(lib, j, disk.Now(), CACHE_TEMP_SOURCE)
    ensures disk.working && CanMakeRoom(disk, old(disk.files), |data|) ==> ok
    ensures DeletingFrees(disk) && !CanMakeRoom(disk, old(disk.files), |data|) ==>
              !ok && Kept(Precious(disk.open), disk.trace, |old(disk.trace)|)
    ensures disk.working && ok ==> j.source !in disk.files
    ensures disk.working && ok ==> PassesBoth(lib, j, disk.trace, |old(disk.trace)|, data)
  {
    hide CanMakeRoom, DeletingFrees, Same, Kept, Precious, Listed, WellPlaced, Safe, SafeRun, HoldsBoth, PassesBoth;
    ghost var since := |disk.trace|;
    WellPlacedApart(j);
    ok := CopySource(lib, disk, j, data);
    if !ok {
      return;
    }
    SafeLast(lib, j, disk.trace, since);
    CopyIsThere(lib, j, disk.trace, since, data);
    ghost var trace, s := disk.trace, disk.Now();
    var gone := disk.Unlink(j.source);
    PassedBoth(lib, j, trace, disk.trace, since, data);
    if gone {
      SafeWithoutSource(lib, j, s, disk.Now());
      SafeNext(lib, j, trace, disk.Now(), since);
    }
  }

  lemma CopyIsThere(lib: Libraries, j: Job, trace: seq<State>, since: int, data: seq<Byte>)
    requires 0 < since < |trace| && HoldsBoth(lib, j, trace[|trace| - 1], data)
    requires Same(j.Target(), trace[since - 1], trace[|trace| - 1])
    ensures PassesBoth(lib, j, trace, since, data) && HoldsSource(lib, j, trace[|trace| - 1], CACHE_TEMP_SOURCE)
  {
    hide HoldsSource, Same;
    assert HoldsSource(lib, j, trace[|trace| - 1], CACHE_TEMP_SOURCE);
    assert BothAt(lib, j, trace, since, |trace| - 1, data);
  }

  lemma KeptLast(keep: iset<Path>, trace: seq<State>, since: nat, p: Path)
    requires Kept(keep, trace, since) && p in keep
    ensures Same(p, trace[since - 1], trace[|trace| - 1])
  {
    if since < |trace| {
      assert SameOn(keep, trace[since - 1], trace[|trace| - 1]);
    }
  }

  lemma SameTwice(p: Path, s: State, t: State, u: State)
    requires Same(p, s, t) && Same(p, t, u)
    ensures Same(p, s, u)
  {
  }

  lemma SafeWithSource(lib: Libraries, j: Job, s: State)
    requires Steady(j, s) && HoldsSource(lib, j, s, j.source)
    ensures Safe(lib, j, s)
  {
  }

  lemma SafeWithoutSource(lib: Libraries, j: Job, s: State, t: State)
    requires Safe(lib, j, s) && HoldsSource(lib, j, s, CACHE_TEMP_SOURCE) && j.source != CACHE_TEMP_SOURCE
    requires t == State(s.files - {j.source}, s.dirty - {j.source})
    ensures Safe(lib, j, t) && HoldsSource(lib, j, t, CACHE_TEMP_SOURCE)
  {
    hide Listed;
  }

  lemma SafeLast(lib: Libraries, j: Job, trace: seq<State>, since: int)
    requires SafeRun(lib, j, trace, since)
    ensures Safe(lib, j, trace[|trace| - 1])
  {
    hide Safe;
  }

  lemma SafeNext(lib: Libraries, j: Job, trace: seq<State>, t: State, since: int)
    requires SafeRun(lib, j, trace, since) && Safe(lib, j, t)
    ensures SafeRun(lib, j, trace + [t], since)
  {
    hide Safe;
  }

  lemma HoldsStill(lib: Libraries, j: Job, keep: iset<Path>, trace: seq<State>, since: nat)
    requires Kept(keep, trace, since) && j.source in keep && HoldsSource(lib, j, trace[since - 1], j.source)
    ensures HoldsSource(lib, j, trace[|trace| - 1], j.source)
    ensures ReadOf(lib, trace[|trace| - 1].files, j.source) == ReadOf(lib, trace[since - 1].files, j.source)
  {
    hide Listed;
    if since < |trace| {
      assert SameOn(keep, trace[since - 1], trace[|trace| - 1]);
      assert Same(j.source, trace[since - 1], trace[|trace| - 1]);
    }
  }

  /** From a safe state only safe states were reached. */
  ghost predicate KeepsSafe(lib: Libraries, j: Job, trace: seq<State>, since: int) {
    0 < since <= |trace| && (Safe(lib, j, trace[since - 1]) ==> SafeRun(lib, j, trace, since))
  }

  lemma KeepsSafeOn(lib: Libraries, j: Job, trace: seq<State>, mid: nat, since: nat)
    requires mid <= |trace| && KeepsSafe(lib, j, trace[..mid], since) && KeepsSafe(lib, j, trace, mid)
    ensures KeepsSafe(lib, j, trace, since)
  {
    hide Safe, SafeRun;
    if Safe(lib, j, trace[since - 1]) {
      SafeLast(lib, j, trace[..mid], since);
      SafeOn(lib, j, trace, mid, since);
    }
  }

  lemma KeepsSafeNext(lib: Libraries, j: Job, trace: seq<State>, t: State, since: nat)
    requires KeepsSafe(lib, j, trace, since) && (Safe(lib, j, trace[|trace| - 1]) ==> Safe(lib, j, t))
    ensures KeepsSafe(lib, j, trace + [t], since)
  {
    hide Safe, SafeRun;
    if Safe(lib, j, trace[since - 1]) {
      SafeLast(lib, j, trace, since);
      SafeNext(lib, j, trace, t, since);
    }
  }

  lemma KeepsSafeNow(lib: Libraries, j: Job, trace: seq<State>)
    requires trace != []
    ensures KeepsSafe(lib, j, trace, |trace|)
  {
    hide Safe;
  }

  /** Steps on the output file alone. */
  lemma KeepsSafeOut(lib: Libraries, j: Job, trace: seq<State>, since: nat)
    requires WellPlaced(j) && Kept(AllBut(j.Out()), trace, since)
    ensures KeepsSafe(lib, j, trace, since)
  {
    hide Safe, SafeRun;
    WellPlacedApart(j);
    if Safe(lib, j, trace[since - 1]) {
      SafeThroughout(lib, j, AllBut(j.Out()), trace, since);
    }
  }

  lemma SafeRenamed(lib: Libraries, j: Job, s: State, t: State)
    requires WellPlaced(j) && Steady(j, s) && j.Out() in s.files
    requires Parsed(j.targetSha1) == Some(lib.sha(s.files[j.Out()]))
    requires t == State((s.files - {j.Out()})[j.Target() := s.files[j.Out()]], s.dirty - {j.Target()})
    ensures Safe(lib, j, t) && HoldsTarget(lib, j, t)
  {
    hide Parsed;
  }

  lemma SafeWithoutCopy(lib: Libraries, j: Job, s: State, t: State)
    requires Safe(lib, j, s) && HoldsTarget(lib, j, s) && j.Target() != CACHE_TEMP_SOURCE
    requires t == State(s.files - {CACHE_TEMP_SOURCE}, s.dirty - {CACHE_TEMP_SOURCE})
    ensures Safe(lib, j, t) && HoldsTarget(lib, j, t)
  {
    hide Parsed;
  }

  /** The end of applypatch: the output replaces the target, and a copy made by this run is deleted. */
  method Finish(lib: Libraries, disk: FileSystem, j: Job, want: seq<Byte>, sha1: seq<Byte>, madeCopy: bool)
      returns (r: int)
    requires disk.Valid() && WellPlaced(j) && Parsed(j.targetSha1) == Some(want) && Steady(j, disk.Now())
    requires j.Out() in disk.files && j.Out() !in disk.dirty && (sha1 == want ==> sha1 == lib.sha(disk.files[j.Out()]))
    modifies disk`files, disk`dirty, disk`trace
    ensures disk.Valid() && old(disk.trace) <= disk.trace
    ensures KeepsSafe(lib, j, disk.trace, |old(disk.trace)|)
    ensures r == 0 || r == 1
    ensures r == 0 ==> HoldsTarget(lib, j, disk.Now()) && disk.files[j.Target()] == old(disk.files[j.Out()])
    ensures r == 0 ==> sha1 == want
    ensures disk.working && sha1 == want ==> r == 0
    ensures r == 0 ==> j.Out() !in disk.files
    ensures r == 0 && !madeCopy ==> (CACHE_TEMP_SOURCE in disk.files <==> CACHE_TEMP_SOURCE in old(disk.files))
    ensures r == 0 && madeCopy && disk.working ==> CACHE_TEMP_SOURCE !in disk.files
    ensures r == 0 && j.source != j.Target() ==> (j.source in disk.files <==> j.source in old(disk.files))
  {
    hide Safe, SafeRun, HoldsTarget, WellPlaced, Parsed, KeepsSafe;
    ghost var since := |disk.trace|;
    KeepsSafeNow(lib, j, disk.trace);
    WellPlacedApart(j);
    if sha1 != want {
      return 1;
    }
    var ok := disk.ChangeMode(j.Out());
    if !ok {
      return 1;
    }
    ok := disk.ChangeMode(j.Out());
    if !ok {
      return 1;
    }
    ghost var s, trace := disk.Now(), disk.trace;
    ok := disk.Rename(j.Out(), j.Target());
    if !ok {
      return 1;
    }
    SafeRenamed(lib, j, s, disk.Now());
    KeepsSafeNext(lib, j, trace, disk.Now(), since);
    if madeCopy {
      s, trace := disk.Now(), disk.trace;
      ok := disk.Unlink(CACHE_TEMP_SOURCE);
      if ok {
        SafeWithoutCopy(lib, j, s, disk.Now());
        KeepsSafeNext(lib, j, trace, disk.Now(), since);
      }
    }
    return 0;
  }

  const SIZE_T_LIMIT := 0x1_0000_0000

  /** The path up to its second slash, which stands for the file system it is on. */
  function TopLevel(p: Path, i: nat): (path: Path)
    decreases |p| - i
  {
    if i >= |p| then p else if p[i] == '/' then p[..i] else TopLevel(p, i + 1)
  }

  /** More than 256k and more than the target size with half of it again, computed in a size_t. */
  predicate Enough(disk: FileSystem, j: Job, files: map<Path, seq<Byte>>) {
    var free := disk.freeSpace(TopLevel(j.Target(), 1), files);
    free > 262144 && free > j.targetSize * 3 % SIZE_T_LIMIT / 2
  }

  /** The path is below this directory of the root, or is it. */
  predicate Below(p: Path, fs: Path) {
    fs != "" && fs <= p && '/' !in fs[1..] && (fs == p || p[|fs|] == '/')
  }

  /** The file system the target is on has more than 256k free, and half as much again as the target needs. */
  predicate Spacious(free: nat, size: nat) { free > 262144 && 2 * free > 3 * size }

  lemma {:induction false} TopLevelIs(p: Path, fs: Path, i: nat)
    requires Below(p, fs) && 1 <= i <= |fs|
    ensures TopLevel(p, i) == fs
    decreases |fs| - i
  {
    if i < |fs| {
      assert p[i] == fs[1..][i - 1];
      TopLevelIs(p, fs, i + 1);
    }
  }

  /** What is asked of the room, where its computation does not wrap around. */
  lemma EnoughExact(disk: FileSystem, j: Job, files: map<Path, seq<Byte>>, fs: Path)
    requires Below(j.Target(), fs) && 3 * j.targetSize < SIZE_T_LIMIT
    ensures Enough(disk, j, files) <==> Spacious(disk.freeSpace(fs, files), j.targetSize)
  {
    TopLevelIs(j.Target(), fs, 1);
  }

  lemma EnoughEverywhere(disk: FileSystem, j: Job, files: map<Path, seq<Byte>>)
    ensures 3 * j.targetSize < SIZE_T_LIMIT ==>
              forall fs :: Below(j.Target(), fs) ==>
                (Enough(disk, j, files) <==> Spacious(disk.freeSpace(fs, files), j.targetSize))
  {
    hide Enough, Below, Spacious;
    if 3 * j.targetSize < SIZE_T_LIMIT {
      forall fs | Below(j.Target(), fs)
        ensures Enough(disk, j, files) <==> Spacious(disk.freeSpace(fs, files), j.targetSize)
      {
        EnoughExact(disk, j, files, fs);
      }
    }
  }

  /** Whether a source that is used can stay where it is, or else can be moved to the cache; a partition cannot. */
  ghost predicate Feasible(disk: FileSystem, j: Job, text: seq<Byte>, fromSource: bool, retry: nat,
                           files: map<Path, seq<Byte>>)
  {
    fromSource && !(retry > 0 && Enough(disk, j, files)) ==>
      !IsPartition(j.source) && CanMakeRoom(disk, files, |text|)
  }

  /** The beginning of the loop: if the room does not suffice this is the last try, and the source has to give way. */
  method PrepareSpace(lib: Libraries, disk: FileSystem, j: Job, text: seq<Byte>, fromSource: bool, retry: nat)
      returns (ok: bool, retry': nat, madeCopy: bool)
    requires disk.Valid() && WellPlaced(j) && Steady(j, disk.Now())
    requires fromSource ==> SourceIs(lib, j, disk.Now(), text)
    modifies disk`files, disk`dirty, disk`trace
    ensures disk.Valid() && old(disk.trace) <= disk.trace
    ensures KeepsSafe(lib, j, disk.trace, |old(disk.trace)|)
    ensures ok ==> Steady(j, disk.Now())
    ensures retry' == (if retry > 0 && Enough(disk, j, old(disk.files)) then retry else 0)
    ensures ok ==> madeCopy == (fromSource && retry' == 0)
    ensures ok && fromSource && retry > 0 && 3 * j.targetSize < SIZE_T_LIMIT ==>
              forall fs :: Below(j.Target(), fs) ==>
                (madeCopy <==> !Spacious(disk.freeSpace(fs, old(disk.files)), j.targetSize))
    ensures ok && madeCopy ==> HoldsSource(lib, j, disk.Now(), CACHE_TEMP_SOURCE)
    ensures ok && madeCopy && disk.working ==>
              j.source !in disk.files && PassesBoth(lib, j, disk.trace, |old(disk.trace)|, text)
    ensures !madeCopy ==> disk.trace == old(disk.trace)
    ensures disk.working && Feasible(disk, j, text, fromSource, retry, old(disk.files)) ==> ok
    ensures DeletingFrees(disk) && !Feasible(disk, j, text, fromSource, retry, old(disk.files)) ==>
              !ok && Kept(Precious(disk.open), disk.trace, |old(disk.trace)|)
  {
    hide Safe, WellPlaced, Enough, CanMakeRoom, DeletingFrees, HoldsSource, SourceIs, IsPartition, SameOn, Precious,
         PassesBoth, Below, Spacious;
    KeepsSafeNow(lib, j, disk.trace);
    EnoughEverywhere(disk, j, disk.files);
    var enoughSpace := false;
    madeCopy := false;
    retry' := retry;
    if retry > 0 {
      enoughSpace := Enough(disk, j, disk.files);
    }
    if !enoughSpace {
      retry' := 0;
    }
    ok := true;
    if !enoughSpace && fromSource {
      if IsPartition(j.source) {
        return false, retry', false;
      }
      madeCopy := true;
      ok := BackUp(lib, disk, j, text);
      SafeLast(lib, j, disk.trace, |old(disk.trace)|);
      SafeSteady(lib, j, disk.Now());
    }
  }

  lemma SafeSteady(lib: Libraries, j: Job, s: State)
    requires Safe(lib, j, s)
    ensures Steady(j, s)
  {
  }

  /** Steps on the output file alone, seen at their end. */
  lemma OutLast(lib: Libraries, j: Job, trace: seq<State>, since: nat, fromSource: bool, text: seq<Byte>)
    requires WellPlaced(j) && Kept(AllBut(j.Out()), trace, since) && Steady(j, trace[since - 1])
    requires fromSource ==> SourceIs(lib, j, trace[since - 1], text)
    ensures Steady(j, trace[|trace| - 1])
    ensures fromSource ==> SourceIs(lib, j, trace[|trace| - 1], text)
    ensures j.source in trace[|trace| - 1].files <==> j.source in trace[since - 1].files
  {
    hide HoldsSource;
    WellPlacedApart(j);
    if since < |trace| {
      assert SameOn(AllBut(j.Out()), trace[since - 1], trace[|trace| - 1]);
      assert Same(j.source, trace[since - 1], trace[|trace| - 1]);
      assert Same(j.Target(), trace[since - 1], trace[|trace| - 1]);
    }
    if fromSource {
      HoldsStill(lib, j, AllBut(j.Out()), trace, since);
    }
  }

  /** A failed try that may be repeated deletes its output. */
  method Discard(lib: Libraries, disk: FileSystem, j: Job)
    requires disk.Valid() && WellPlaced(j)
    modifies disk`files, disk`dirty, disk`trace
    ensures disk.Valid() && old(disk.trace) <= disk.trace
    ensures Kept(AllBut(j.Out()), disk.trace, |old(disk.trace)|)
    ensures disk.working ==> j.Out() !in disk.files
  {
    hide SameOn, Kept, WellPlaced;
    KeptNothing(AllBut(j.Out()), disk.trace);
    var gone := disk.Unlink(j.Out());
    if gone {
      KeptNext(AllBut(j.Out()), old(disk.trace), disk.Now(), |old(disk.trace)|);
    }
  }

  /** Whether the source is gone exactly if it was used without enough room for the target. */
  ghost predicate SourceMoved(disk: FileSystem, j: Job, before: map<Path, seq<Byte>>, fromSource: bool, retry: nat)
    reads disk
  {
    j.source in disk.files <==>
      j.source in before && !(fromSource && !(retry > 0 && Enough(disk, j, before)))
  }

  /** One round of the loop; again: whether it failed and may be repeated. */
  method Try(lib: Libraries, disk: FileSystem, j: Job, text: seq<Byte>, patch: Value, fromSource: bool, retry: nat)
      returns (ok: bool, again: bool, sha1: seq<Byte>, madeCopy: bool)
    requires disk.Valid() && WellPlaced(j) && Steady(j, disk.Now())
    requires fromSource ==> SourceIs(lib, j, disk.Now(), text)
    requires patch.Blob? ==> !Decode(lib, text, patch.data).Undefined?
    modifies disk`files, disk`dirty, disk`trace
    ensures disk.Valid() && old(disk.trace) <= disk.trace
    ensures KeepsSafe(lib, j, disk.trace, |old(disk.trace)|)
    ensures ok || again ==> Steady(j, disk.Now())
    ensures ok ==>
              && patch.Blob? && j.Out() in disk.files && j.Out() !in disk.dirty
              && Sunk(lib, text, patch.data, disk.files[j.Out()], sha1)
    ensures disk.working && ok ==>
              && sha1 == lib.sha(disk.files[j.Out()])
              && Decode(lib, text, patch.data) == Produces(disk.files[j.Out()])
    ensures again ==> !ok && retry > 0 && !madeCopy && patch.Blob? && Enough(disk, j, old(disk.files))
    ensures disk.working && Feasible(disk, j, text, fromSource, retry, old(disk.files)) ==>
              fromSource && !(retry > 0 && Enough(disk, j, old(disk.files))) ==>
                PassesBoth(lib, j, disk.trace, |old(disk.trace)|, text)
    ensures again && fromSource ==> SourceIs(lib, j, disk.Now(), text)
    ensures disk.working && Feasible(disk, j, text, fromSource, retry, old(disk.files)) ==>
              patch.Blob? && Decode(lib, text, patch.data).Produces? ==> ok
    ensures disk.working && again ==> !Decode(lib, text, patch.data).Produces?
    ensures disk.working && ok ==> SourceMoved(disk, j, old(disk.files), fromSource, retry)
    ensures DeletingFrees(disk) && !Feasible(disk, j, text, fromSource, retry, old(disk.files)) ==>
              !ok && !again && Kept(Precious(disk.open), disk.trace, |old(disk.trace)|)
  {
    hide Safe, WellPlaced, Enough, Feasible, DeletingFrees, HoldsSource, SourceIs, IsPartition, Decode, Kept, SameOn,
         KeepsSafe, Sunk, PassesBoth;
    ghost var since := |disk.trace|;
    sha1 := [];
    var left;
    ok, left, madeCopy := PrepareSpace(lib, disk, j, text, fromSource, retry);
    if !ok || patch.NotBlob? {
      return false, false, sha1, madeCopy;
    }
    ghost var mid, trace := |disk.trace|, disk.trace;
    var output, result;
    output, result, sha1 := WriteOutput(lib, disk, j.Out(), text, patch.data);
    assert disk.trace[..mid] == trace;
    if disk.working && madeCopy {
      PassedBoth(lib, j, trace, disk.trace, since, text);
    }
    KeepsSafeOut(lib, j, disk.trace, mid);
    KeepsSafeOn(lib, j, disk.trace, mid, since);
    OutLast(lib, j, disk.trace, mid, fromSource && !madeCopy, text);
    ok := output && result == Some(0);
    again := output && result == Some(1) && left > 0;
    if again {
      mid, trace := |disk.trace|, disk.trace;
      Discard(lib, disk, j);
      assert disk.trace[..mid] == trace;
      KeepsSafeOut(lib, j, disk.trace, mid);
      KeepsSafeOn(lib, j, disk.trace, mid, since);
      OutLast(lib, j, disk.trace, mid, fromSource, text);
    }
  }

  /** The loop: a second try, with the source moved out of the way, if the first one fails. */
  method PatchLoop(lib: Libraries, disk: FileSystem, j: Job, text: seq<Byte>, patch: Value, fromSource: bool)
      returns (ok: bool, sha1: seq<Byte>, madeCopy: bool)
    requires disk.Valid() && WellPlaced(j) && Steady(j, disk.Now())
    requires fromSource ==> SourceIs(lib, j, disk.Now(), text)
    requires patch.Blob? ==> !Decode(lib, text, patch.data).Undefined?
    modifies disk`files, disk`dirty, disk`trace
    ensures disk.Valid() && old(disk.trace) <= disk.trace
    ensures KeepsSafe(lib, j, disk.trace, |old(disk.trace)|)
    ensures ok ==>
              && Steady(j, disk.Now())
              && patch.Blob? && j.Out() in disk.files && j.Out() !in disk.dirty
              && Sunk(lib, text, patch.data, disk.files[j.Out()], sha1)
    ensures disk.working && ok ==>
              && sha1 == lib.sha(disk.files[j.Out()])
              && Decode(lib, text, patch.data) == Produces(disk.files[j.Out()])
    ensures disk.working && Feasible(disk, j, text, fromSource, 1, old(disk.files)) ==>
              patch.Blob? && Decode(lib, text, patch.data).Produces? ==> ok
    ensures disk.working && ok ==> SourceMoved(disk, j, old(disk.files), fromSource, 1)
    ensures disk.working && Feasible(disk, j, text, fromSource, 1, old(disk.files)) ==>
              fromSource && !Enough(disk, j, old(disk.files)) ==>
                PassesBoth(lib, j, disk.trace, |old(disk.trace)|, text)
    ensures DeletingFrees(disk) && !Feasible(disk, j, text, fromSource, 1, old(disk.files)) ==>
              !ok && Kept(Precious(disk.open), disk.trace, |old(disk.trace)|)
  {
    hide Safe, WellPlaced, DeletingFrees, SourceIs, HoldsSource, Decode, KeepsSafe, Steady, Feasible, SourceMoved, Kept,
         Sunk, PassesBoth, Enough;
    ghost var since := |disk.trace|;
    KeepsSafeNow(lib, j, disk.trace);
    var retry := 1;
    while true
      invariant 0 <= retry <= 1
      invariant disk.Valid() && Steady(j, disk.Now()) && old(disk.trace) <= disk.trace
      invariant fromSource ==> SourceIs(lib, j, disk.Now(), text)
      invariant KeepsSafe(lib, j, disk.trace, since)
      invariant retry == 1 ==> disk.Now() == old(disk.Now()) && disk.trace == old(disk.trace)
      invariant disk.working && retry == 0 ==> patch.Blob? && !Decode(lib, text, patch.data).Produces?
      invariant retry == 0 ==> Enough(disk, j, old(disk.files))
      invariant DeletingFrees(disk) && !Feasible(disk, j, text, fromSource, 1, old(disk.files)) ==> retry == 1
      decreases retry
    {
      ghost var mid, trace := |disk.trace|, disk.trace;
      var again;
      ok, again, sha1, madeCopy := Try(lib, disk, j, text, patch, fromSource, retry);
      assert disk.trace[..mid] == trace;
      KeepsSafeOn(lib, j, disk.trace, mid, since);
      if !again {
        return;
      }
      retry := retry - 1;
    }
  }

  /** What the first patch listed for the source data makes of it. */
  ghost predicate Patched(lib: Libraries, j: Job, text: seq<Byte>, result: seq<Byte>) {
    exists k :: && Names(j.shas, k, lib.sha(text)) && k < |j.patches| && j.patches[k].Blob?
                && (forall i :: i < k ==> !Names(j.shas, i, lib.sha(text)))
                && Decode(lib, text, j.patches[k].data) == Produces(result)
  }

  /** Every listed patch turns every source it is listed for into the wanted target. */
  ghost predicate Delivers(lib: Libraries, j: Job) {
    && Parsed(j.targetSha1).Some?
    && forall data: seq<Byte>, k :: Names(j.shas, k, lib.sha(data)) ==> WorksOn(lib, j, data, k)
  }

  /** If the source is good there is room for the target beside it, or room on /cache to move the source to. */
  ghost predicate HasRoom(lib: Libraries, j: Job, disk: FileSystem, files: map<Path, seq<Byte>>) {
    Good(lib, j, files, j.source) ==>
      Enough(disk, j, files) || (!IsPartition(j.source) && CanMakeRoom(disk, files, |files[j.source]|))
  }

  ghost predicate WorksOn(lib: Libraries, j: Job, data: seq<Byte>, k: int) {
    && 0 <= k < |j.patches| && j.patches[k].Blob? && Decode(lib, data, j.patches[k].data).Produces?
    && Parsed(j.targetSha1) == Some(lib.sha(Decode(lib, data, j.patches[k].data).data))
  }

  /** The first half of applypatch: which file to patch, and with which patch. */
  method ChooseSource(lib: Libraries, disk: FileSystem, j: Job, loaded: Option<FileContents>)
      returns (use: int, text: seq<Byte>, fromSource: bool, sourceFile: Option<FileContents>, size: nat)
    requires loaded.Some? ==>
               ReadOf(lib, disk.files, j.Target()) == Some(loaded.value.data)
               && loaded.value.sha1 == lib.sha(loaded.value.data)
    requires disk.working && ReadOf(lib, disk.files, j.Target()).Some? ==> loaded.Some?
    ensures -1 <= use < |j.shas|
    ensures use >= 0 ==>
              && Names(j.shas, use, lib.sha(text)) && (forall i :: i < use ==> !Names(j.shas, i, lib.sha(text)))
              && ReadOf(lib, disk.files, if fromSource then j.source else CACHE_TEMP_SOURCE) == Some(text)
    ensures disk.working && use < 0 ==>
              !Good(lib, j, disk.files, j.source) && !Good(lib, j, disk.files, CACHE_TEMP_SOURCE)
    ensures disk.working && use >= 0 && !fromSource ==> !Good(lib, j, disk.files, j.source)
    ensures disk.working && j.source in disk.files ==>
              && size == SizeOf(lib, disk.files, j.source)
              && (sourceFile.None? <==> ReadOf(lib, disk.files, j.source).None?)
    ensures fromSource ==> size == |text|
  {
    hide Names;
    text, use, fromSource := [], -1, false;
    sourceFile := loaded;
    if sourceFile.None? || j.Target() != j.source {
      sourceFile, size := LoadFileContents(lib, disk, j.source);
    } else {
      size := |sourceFile.value.data|;
    }
    if sourceFile.Some? {
      use := FindMatchingPatch(sourceFile.value.sha1, j.shas);
      if use >= 0 {
        return use, sourceFile.value.data, true, sourceFile, size;
      }
    }
    var copyFile, _ := LoadFileContents(lib, disk, CACHE_TEMP_SOURCE);
    if copyFile.None? {
      return;
    }
    use := FindMatchingPatch(copyFile.value.sha1, j.shas);
    text := copyFile.value.data;
  }

  /** The second half of applypatch: patch what was chosen, and put the output in place. */
  method PatchAndFinish(lib: Libraries, disk: FileSystem, j: Job, want: seq<Byte>, text: seq<Byte>, use: nat,
                        fromSource: bool)
      returns (r: int)
    requires disk.Valid() && WellPlaced(j) && Steady(j, disk.Now()) && Parsed(j.targetSha1) == Some(want)
    requires Names(j.shas, use, lib.sha(text)) && (forall i :: i < use ==> !Names(j.shas, i, lib.sha(text)))
    requires use < |j.patches| && (fromSource ==> SourceIs(lib, j, disk.Now(), text)) && Tells(lib, j)
    requires j.patches[use].Blob? ==> !Decode(lib, text, j.patches[use].data).Undefined?
    modifies disk`files, disk`dirty, disk`trace
    ensures disk.Valid() && old(disk.trace) <= disk.trace
    ensures r == 0 || r == 1
    ensures KeepsSafe(lib, j, disk.trace, |old(disk.trace)|)
    ensures r == 0 ==> HoldsTarget(lib, j, disk.Now())
    ensures r == 0 ==> j.Target() in disk.files && Patched(lib, j, text, disk.files[j.Target()])
    ensures disk.working && Feasible(disk, j, text, fromSource, 1, old(disk.files)) && WorksOn(lib, j, text, use) ==>
              r == 0
    ensures disk.working && Feasible(disk, j, text, fromSource, 1, old(disk.files)) ==>
              fromSource && !Enough(disk, j, old(disk.files)) ==>
                PassesBoth(lib, j, disk.trace, |old(disk.trace)|, text)
    ensures DeletingFrees(disk) && !Feasible(disk, j, text, fromSource, 1, old(disk.files)) ==>
              r == 1 && Kept(Precious(disk.open), disk.trace, |old(disk.trace)|)
    ensures disk.working && r == 0 && j.source != j.Target() ==> SourceMoved(disk, j, old(disk.files), fromSource, 1)
  {
    hide Safe, WellPlaced, KeepsSafe, Parsed, Decode, Enough, Steady, Names, HoldsSource, SourceIs, HoldsTarget, Listed,
         Feasible, DeletingFrees, Kept, Precious, Sunk, Tells, PassesBoth;
    ghost var since := |disk.trace|;
    var ok, sha1, madeCopy := PatchLoop(lib, disk, j, text, j.patches[use], fromSource);
    if !ok {
      return 1;
    }
    ghost var mid, trace, result := |disk.trace|, disk.trace, disk.files[j.Out()];
    WholeIfWanted(lib, j, text, use, result, sha1, want);
    r := Finish(lib, disk, j, want, sha1, madeCopy);
    assert disk.trace[..mid] == trace;
    KeepsSafeOn(lib, j, disk.trace, mid, since);
    if PassesBoth(lib, j, trace, since, text) {
      PassedBoth(lib, j, trace, disk.trace, since, text);
    }
    if r == 0 {
      TargetInFiles(lib, j, disk.Now());
      IsPatched(lib, j, text, use, result);
    }
  }

  /** Output with the wanted digest is all of what the patch makes. */
  lemma WholeIfWanted(lib: Libraries, j: Job, text: seq<Byte>, k: nat, content: seq<Byte>, sha1: seq<Byte>,
                      want: seq<Byte>)
    requires Tells(lib, j) && Names(j.shas, k, lib.sha(text)) && k < |j.patches| && j.patches[k].Blob?
    requires Sunk(lib, text, j.patches[k].data, content, sha1) && Parsed(j.targetSha1) == Some(want)
    ensures sha1 == want ==>
              sha1 == lib.sha(content) && Decode(lib, text, j.patches[k].data) == Produces(content)
  {
    hide Names, Parsed, Decode, Thins, PiecesFor;
    if sha1 == want {
      var kept :| SunkAs(lib, text, j.patches[k].data, content, sha1, kept);
    }
  }

  /** The target is not there yet, the source is the one to patch, and there is no room for the target beside it. */
  ghost predicate SourceGivesWay(lib: Libraries, j: Job, disk: FileSystem, files: map<Path, seq<Byte>>) {
    !HasTarget(lib, j, files) && Good(lib, j, files, j.source) && !Enough(disk, j, files)
  }

  /**
   applypatch.  Only safe states are passed through, whatever fails; 0 means that the target is there for good.  With
   working file systems and patches that fit it returns 0 exactly if the target is there already or there is room; if it
   does not, the source, the copy and the target are as they were.  On success a source that is not the target is gone
   exactly if it had to give way.
   */
  method ApplyPatch(lib: Libraries, disk: FileSystem, j: Job) returns (r: int)
    requires disk.Valid() && WellPlaced(j) && Defined(lib, j) && Tells(lib, j) && Steady(j, disk.Now())
    modifies disk`files, disk`dirty, disk`trace
    ensures disk.Valid() && old(disk.trace) <= disk.trace
    ensures r == 0 || r == 1
    ensures KeepsSafe(lib, j, disk.trace, |old(disk.trace)|)
    ensures r == 0 ==> HoldsTarget(lib, j, disk.Now())
    ensures r == 0 ==> disk.trace == old(disk.trace) || ComesFrom(lib, j, old(disk.files), disk.files)
    ensures disk.working && Safe(lib, j, old(disk.Now())) && Delivers(lib, j) ==>
              HasTarget(lib, j, old(disk.files)) || HasRoom(lib, j, disk, old(disk.files)) ==> r == 0
    ensures disk.working && DeletingFrees(disk) ==>
              !HasTarget(lib, j, old(disk.files)) && !HasRoom(lib, j, disk, old(disk.files)) ==>
                r == 1 && Kept(Precious(disk.open), disk.trace, |old(disk.trace)|)
    ensures disk.working && r == 0 && j.source != j.Target() && j.source in old(disk.files) ==>
              (j.source !in disk.files <==> SourceGivesWay(lib, j, disk, old(disk.files)))
    ensures disk.working && r == 0 && j.source != j.Target() && 3 * j.targetSize < SIZE_T_LIMIT ==>
              !HasTarget(lib, j, old(disk.files)) && Good(lib, j, old(disk.files), j.source) ==>
                forall fs :: Below(j.Target(), fs) ==>
                  (j.source in disk.files <==> Spacious(disk.freeSpace(fs, old(disk.files)), j.targetSize))
    ensures disk.working && Parsed(j.targetSha1).Some? ==>
              SourceGivesWay(lib, j, disk, old(disk.files)) && HasRoom(lib, j, disk, old(disk.files)) ==>
                PassesBoth(lib, j, disk.trace, |old(disk.trace)|, ReadOf(lib, old(disk.files), j.source).value)
  {
    hide Safe, WellPlaced, KeepsSafe, Parsed, Decode, Enough, Steady, Names, HoldsSource, HoldsTarget, Listed, Feasible,
         DeletingFrees, HasRoom, Delivers, WorksOn, Kept, Tells, PassesBoth, Below, Spacious;
    ghost var since := |disk.trace|;
    KeepsSafeNow(lib, j, disk.trace);
    EnoughEverywhere(disk, j, disk.files);
    KeptNothing(Precious(disk.open), disk.trace);
    var want := ParseSha1(j.targetSha1);
    if want.None? {
      NothingWanted(lib, j);
      return 1;
    }
    var loaded, _ := LoadFileContents(lib, disk, j.Target());
    if loaded.Some? && loaded.value.sha1 == want.value {
      TargetThere(lib, j, disk.Now());
      return 0;
    }
    var use, text, fromSource, _, _ := ChooseSource(lib, disk, j, loaded);
    if disk.working && Safe(lib, j, disk.Now()) {
      SomethingThere(lib, j, disk.Now());
    }
    if use < 0 {
      return 1;
    }
    NamedIsListed(lib, j, text, use);
    if disk.working {
      RoomFacts(lib, j, disk, text, fromSource);
    }
    TextFacts(lib, j, disk, text, use, fromSource);
    r := PatchAndFinish(lib, disk, j, want.value, text, use, fromSource);
  }

  /** The new target is what a patch makes of the old source or of the old saved copy. */
  ghost predicate ComesFrom(lib: Libraries, j: Job, before: map<Path, seq<Byte>>, after: map<Path, seq<Byte>>) {
    && j.Target() in after
    && (ComesFromFile(lib, j, before, j.source, after[j.Target()]) ||
        ComesFromFile(lib, j, before, CACHE_TEMP_SOURCE, after[j.Target()]))
  }

  ghost predicate ComesFromFile(lib: Libraries, j: Job, before: map<Path, seq<Byte>>, p: Path, result: seq<Byte>) {
    ReadOf(lib, before, p).Some? && Patched(lib, j, ReadOf(lib, before, p).value, result)
  }

  lemma IsPatched(lib: Libraries, j: Job, text: seq<Byte>, k: int, result: seq<Byte>)
    requires Names(j.shas, k, lib.sha(text)) && (forall i :: i < k ==> !Names(j.shas, i, lib.sha(text)))
    requires 0 <= k < |j.patches| && j.patches[k].Blob? && Decode(lib, text, j.patches[k].data) == Produces(result)
    ensures Patched(lib, j, text, result)
  {
    hide Names, Decode;
  }

  lemma NothingWanted(lib: Libraries, j: Job)
    requires Parsed(j.targetSha1).None?
    ensures !Delivers(lib, j)
  {
    hide Parsed;
  }

  lemma NamedIsListed(lib: Libraries, j: Job, text: seq<Byte>, k: int)
    requires Names(j.shas, k, lib.sha(text))
    ensures Listed(lib, j, text)
  {
    hide Names;
  }

  /** There is room exactly if the source that was chosen can stay or be moved. */
  lemma RoomFacts(lib: Libraries, j: Job, disk: FileSystem, text: seq<Byte>, fromSource: bool)
    requires fromSource <==> Good(lib, j, disk.files, j.source)
    requires fromSource ==> ReadOf(lib, disk.files, j.source) == Some(text)
    ensures HasRoom(lib, j, disk, disk.files) <==> Feasible(disk, j, text, fromSource, 1, disk.files)
  {
    hide Listed, Enough, CanMakeRoom, IsPartition;
  }

  lemma TargetThere(lib: Libraries, j: Job, s: State)
    requires Steady(j, s) && HasTarget(lib, j, s.files)
    ensures HoldsTarget(lib, j, s)
  {
  }

  lemma TargetInFiles(lib: Libraries, j: Job, s: State)
    requires HoldsTarget(lib, j, s)
    ensures j.Target() in s.files
  {
  }

  /** A safe state has one of the three, as the code reads them. */
  lemma SomethingThere(lib: Libraries, j: Job, s: State)
    requires Safe(lib, j, s)
    ensures
      HasTarget(lib, j, s.files) || Good(lib, j, s.files, j.source) || Good(lib, j, s.files, CACHE_TEMP_SOURCE)
  {
    hide Parsed, Listed;
  }

  lemma TextFacts(lib: Libraries, j: Job, disk: FileSystem, text: seq<Byte>, k: int, fromSource: bool)
    requires WellPlaced(j) && Defined(lib, j) && Steady(j, disk.Now()) && Names(j.shas, k, lib.sha(text))
    requires fromSource ==> ReadOf(lib, disk.files, j.source) == Some(text)
    ensures 0 <= k < |j.patches|
    ensures fromSource ==> SourceIs(lib, j, disk.Now(), text)
    ensures j.patches[k].Blob? ==> !Decode(lib, text, j.patches[k].data).Undefined?
    ensures Delivers(lib, j) ==> WorksOn(lib, j, text, k)
  {
    hide Parsed, Decode, WorksOn;
  }

  /** applypatch_check: 0 if the file or else the saved copy has one of the digests. */
  method ApplyPatchCheck(lib: Libraries, disk: FileSystem, file: Path, shas: seq<string>) returns (r: int)
    ensures r == 0 || r == 1
    ensures r == 0 ==> CheckHolds(lib, disk.files, file, shas)
    ensures disk.working && CheckHolds(lib, disk.files, file, shas) ==> r == 0
  {
    hide Parsed;
    var f, size := LoadFileContents(lib, disk, file);
    var found := -1;
    if f.Some? && |shas| > 0 {
      found := FindMatchingPatch(f.value.sha1, shas);
    }
    if f.None? || (|shas| > 0 && found < 0) {
      f, size := LoadFileContents(lib, disk, CACHE_TEMP_SOURCE);
      if f.None? {
        return 1;
      }
      found := FindMatchingPatch(f.value.sha1, shas);
      if found < 0 {
        return 1;
      }
    }
    return 0;
  }

  /** With no digests listed, a file that can be read will do. */
  ghost predicate CheckHolds(lib: Libraries, files: map<Path, seq<Byte>>, file: Path, shas: seq<string>) {
    || (ReadOf(lib, files, file).Some? && (shas == [] || Named(lib, shas, ReadOf(lib, files, file).value)))
    || (ReadOf(lib, files, CACHE_TEMP_SOURCE).Some? && Named(lib, shas, ReadOf(lib, files, CACHE_TEMP_SOURCE).value))
  }

  /** What is read at `p` has the digest that the string `k` spells. */
  ghost predicate HasDigest(lib: Libraries, files: map<Path, seq<Byte>>, shas: seq<string>, k: int, p: Path) {
    0 <= k < |shas| && ReadOf(lib, files, p).Some? && Spells(shas[k], lib.sha(ReadOf(lib, files, p).value))
  }

  lemma NamedExact(lib: Libraries, files: map<Path, seq<Byte>>, shas: seq<string>, p: Path)
    requires ReadOf(lib, files, p).Some?
    ensures Named(lib, shas, ReadOf(lib, files, p).value) <==> exists k :: HasDigest(lib, files, shas, k, p)
  {
    hide Spells, ReadOf;
    var data := ReadOf(lib, files, p).value;
    if Named(lib, shas, data) {
      var k :| Names(shas, k, lib.sha(data));
      assert HasDigest(lib, files, shas, k, p);
    }
    if k :| HasDigest(lib, files, shas, k, p) {
      ParsedIs(shas[k], lib.sha(data));
      assert Names(shas, k, lib.sha(data));
    }
  }

  /** With no digests listed any file that can be read passes; else the file or the copy must have one of them. */
  lemma CheckExact(lib: Libraries, files: map<Path, seq<Byte>>, file: Path, shas: seq<string>)
    ensures shas == [] ==> (CheckHolds(lib, files, file, shas) <==> ReadOf(lib, files, file).Some?)
    ensures shas != [] ==>
              (CheckHolds(lib, files, file, shas) <==>
                 || (exists k :: HasDigest(lib, files, shas, k, file))
                 || (exists k :: HasDigest(lib, files, shas, k, CACHE_TEMP_SOURCE)))
  {
    hide ReadOf, Spells;
    if ReadOf(lib, files, file).Some? {
      NamedExact(lib, files, shas, file);
    }
    if ReadOf(lib, files, CACHE_TEMP_SOURCE).Some? {
      NamedExact(lib, files, shas, CACHE_TEMP_SOURCE);
    }
  }

  /** A safe state short of the target passes the check: an interrupted run does not spoil the next one. */
  lemma CheckHoldsWhenSafe(lib: Libraries, j: Job, s: State)
    requires Safe(lib, j, s)
    ensures HoldsTarget(lib, j, s) || CheckHolds(lib, s.files, j.source, j.shas)
  {
    hide Names, Parsed;
  }
}
