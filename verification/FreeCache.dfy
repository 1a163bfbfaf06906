/** applypatch/freecache.c: making room on /cache by deleting files that nothing needs. */
module FreeCache {
  import opened Common
  import opened Disk

  const CACHE_TEMP_SOURCE: Path := "/cache/saved.file"
  const CACHE: Path := "/cache"
  const OTATEST: Path := "/cache/recovery/otatest"

  /** Whether the path is directly in the directory. */
  predicate InDir(p: Path, dir: Path) {
    dir + "/" <= p && '/' !in p[|dir| + 1..]
  }

  /** What may be deleted: anything directly in one of the two directories but the saved source. */
  predicate Expendable(p: Path) {
    p != CACHE_TEMP_SOURCE && (InDir(p, CACHE) || InDir(p, OTATEST))
  }

  /** The files directly in the two directories, but for the one that is saved. */
  lemma ExpendableExact(name: Path)
    requires '/' !in name
    ensures Expendable("/cache/" + name) <==> name != "saved.file"
    ensures Expendable("/cache/recovery/otatest/" + name)
  {
    var p, q := "/cache/" + name, "/cache/recovery/otatest/" + name;
    assert p[|CACHE| + 1..] == name && q[|OTATEST| + 1..] == name;
    assert CACHE + "/" == "/cache/" && OTATEST + "/" == "/cache/recovery/otatest/";
    assert CACHE_TEMP_SOURCE == "/cache/" + "saved.file";
    assert p == CACHE_TEMP_SOURCE ==> name == p[7..] == CACHE_TEMP_SOURCE[7..] == "saved.file";
    assert q[7] == 'r' && CACHE_TEMP_SOURCE[7] == 's';
  }

  /** Whether there is nothing left to delete. */
  ghost predicate Swept(files: map<Path, seq<Byte>>, open: set<Path>) {
    forall p :: p in files && Expendable(p) ==> p in open
  }

  /** The names array: `n` slots are used, and some of those may have been cleared. */
  ghost predicate AllExpendable(names: array<Option<Path>>, n: int)
    reads names
  {
    && 0 <= n <= names.Length && 0 < names.Length
    && forall i :: 0 <= i < n && names[i].Some? ==> Expendable(names[i].value)
  }

  /** Whether a path is in one of the used slots. */
  ghost predicate Has(names: seq<Option<Path>>, p: Path) { Some(p) in names }

  /** Doubling the array. */
  method Grow(names: array<Option<Path>>) returns (bigger: array<Option<Path>>)
    requires names.Length > 0
    ensures fresh(bigger) && bigger.Length == 2 * names.Length
    ensures bigger[..names.Length] == names[..]
  {
    bigger := new Option<Path>[2 * names.Length](_ => None);
    forall i | 0 <= i < names.Length {
      bigger[i] := names[i];
    }
  }

  /** Clear the entries for files that are open. */
  method EliminateOpenFiles(disk: FileSystem, files: array<Option<Path>>, count: nat) returns (r: int)
    requires count <= files.Length
    modifies files
    ensures r == 0 || r == -1
    ensures disk.working ==> r == 0
    ensures r == 0 ==> forall j :: 0 <= j < files.Length ==>
              files[j] == if j < count && old(files[j]).Some? && old(files[j]).value in disk.open &&
                             "/cache/" <= old(files[j]).value then None else old(files[j])
  {
    var links := disk.OpenLinks();
    if links.None? {
      return -1;
    }
    var left := links.value;
    while left != {}
      invariant left <= disk.open
      invariant forall j :: 0 <= j < files.Length ==>
                  files[j] == if j < count && old(files[j]).Some? && old(files[j]).value in disk.open - left &&
                                 "/cache/" <= old(files[j]).value then None else old(files[j])
    {
      var link :| link in left;
      left := left - {link};
      if "/cache/" <= link {
        var j := 0;
        while j < count
          invariant 0 <= j <= count
          invariant forall i :: 0 <= i < files.Length ==>
                      files[i] == if i < count && old(files[i]).Some? && "/cache/" <= old(files[i]).value &&
                                     (old(files[i]).value in disk.open - left - {link} ||
                                      (i < j && old(files[i]).value == link)) then None else old(files[i])
        {
          if files[j].Some? && files[j].value == link {
            files[j] := None;
          }
          j := j + 1;
        }
      }
    }
    return 0;
  }

  /** List the regular files of one directory behind those listed so far, leaving out the saved source. */
  method ListDir(disk: FileSystem, dir: Path, names0: array<Option<Path>>, entries0: nat)
      returns (names: array<Option<Path>>, entries: nat)
    requires entries0 <= names0.Length && (dir == CACHE || dir == OTATEST)
    requires AllExpendable(names0, entries0)
    modifies names0
    ensures names == names0 || fresh(names)
    ensures entries0 <= entries <= names.Length && names[..entries0] == old(names0[..entries0])
    ensures AllExpendable(names, entries)
    ensures disk.working ==> forall p :: p in disk.files && p != CACHE_TEMP_SOURCE && InDir(p, dir) ==>
              Has(names[..entries], p)
  {
    hide Has;
    names, entries := names0, entries0;
    var all := disk.ReadDir(dir);
    if all.None? {
      return;
    }
    var k := 0;
    while k < |all.value|
      invariant 0 <= k <= |all.value|
      invariant names == names0 || fresh(names)
      invariant entries0 <= entries <= names.Length && names[..entries0] == old(names0[..entries0])
      invariant AllExpendable(names, entries)
      invariant disk.working ==>
                  forall i :: 0 <= i < k && NotSkipped(disk.files, dir + "/" + all.value[i]) ==>
                    Has(names[..entries], dir + "/" + all.value[i])
    {
      var path := dir + "/" + all.value[k];
      if path != CACHE_TEMP_SOURCE {
        var regular := disk.IsRegular(path);
        if regular {
          NameInDir(dir, all.value[k]);
          names, entries := Add(names, entries, path);
        }
      }
      k := k + 1;
    }
    forall p | disk.working && p in disk.files && p != CACHE_TEMP_SOURCE && InDir(p, dir)
      ensures Has(names[..entries], p)
    {
      var name := p[|dir| + 1..];
      assert dir + "/" + name == p;
      assert name in all.value;
    }
  }

  lemma NameInDir(dir: Path, name: Path)
    requires '/' !in name
    ensures InDir(dir + "/" + name, dir)
  {
    assert (dir + "/" + name)[|dir| + 1..] == name;
  }

  /** The files that FindExpendableFiles does not skip. */
  predicate NotSkipped(files: map<Path, seq<Byte>>, path: Path) {
    path in files && path != CACHE_TEMP_SOURCE
  }

  method Add(names0: array<Option<Path>>, n: nat, path: Path) returns (names: array<Option<Path>>, entries: nat)
    requires AllExpendable(names0, n) && Expendable(path)
    modifies names0
    ensures names == names0 || fresh(names)
    ensures entries == n + 1 <= names.Length && names[..n] == old(names0[..n]) && names[n] == Some(path)
    ensures AllExpendable(names, entries)
    ensures Has(names[..entries], path)
    ensures forall p :: Has(old(names0[..n]), p) ==> Has(names[..entries], p)
  {
    names := names0;
    if n >= names.Length {
      names := Grow(names);
    }
    assert names[..n] == old(names0[..n]);
    names[n] := Some(path);
    entries := n + 1;
    assert names[..entries] == old(names0[..n]) + [Some(path)];
  }

  /** The expendable files that are not open, in an array with cleared slots; None if /proc cannot be read. */
  method FindExpendableFiles(disk: FileSystem) returns (names: Option<array<Option<Path>>>, entries: nat)
    ensures names.Some? ==> fresh(names.value) && AllExpendable(names.value, entries)
    ensures names.Some? ==> forall i :: 0 <= i < entries && names.value[i].Some? ==> names.value[i].value !in disk.open
    ensures disk.working ==> names.Some?
    ensures disk.working ==> forall p :: p in disk.files && Expendable(p) && p !in disk.open ==>
              Has(names.value[..entries], p)
  {
    hide InDir;
    var list := new Option<Path>[32](_ => None);
    list, entries := ListDir(disk, CACHE, list, 0);
    ghost var first := list[..entries];
    ghost var n := entries;
    list, entries := ListDir(disk, OTATEST, list, entries);
    StillHas(first, list[..entries]);
    ghost var all := list[..entries];
    var r := EliminateOpenFiles(disk, list, entries);
    if r < 0 {
      return None, entries;
    }
    forall i | 0 <= i < entries && list[i].Some?
      ensures Expendable(list[i].value) && list[i].value !in disk.open
    {
      InCache(all[i].value);
    }
    forall p | disk.working && p in disk.files && Expendable(p) && p !in disk.open ensures Has(list[..entries], p) {
      assert Has(all, p);
      var i :| 0 <= i < entries && all[i] == Some(p);
      assert list[..entries][i] == Some(p);
    }
    return Some(list), entries;
  }

  lemma StillHas(first: seq<Option<Path>>, all: seq<Option<Path>>)
    requires first <= all
    ensures forall p :: Has(first, p) ==> Has(all, p)
  {
    forall p | Has(first, p) ensures Has(all, p) {
      var i :| 0 <= i < |first| && first[i] == Some(p);
      assert all[i] == Some(p);
    }
  }

  lemma InCache(p: Path)
    requires Expendable(p)
    ensures "/cache/" <= p
  {
    if InDir(p, CACHE) {
      assert CACHE + "/" == "/cache/";
    } else {
      assert OTATEST + "/" == "/cache/" + "recovery/otatest/";
    }
  }

  /** What must not be deleted: the open files and whatever is not expendable. */
  ghost function Precious(open: set<Path>): (paths: iset<Path>) {
    iset p: Path | !Expendable(p) || p in open
  }

  /** What is left when everything that may be deleted is deleted. */
  ghost function Spared(files: map<Path, seq<Byte>>, open: set<Path>): (left: map<Path, seq<Byte>>) {
    map p | p in files && (!Expendable(p) || p in open) :: files[p]
  }

  /** Whether `a` holds nothing that `b` does not hold. */
  predicate Within(a: map<Path, seq<Byte>>, b: map<Path, seq<Byte>>) {
    forall p :: p in a ==> p in b && a[p] == b[p]
  }

  /** Deleting files never makes less room on /cache. */
  ghost predicate DeletingFrees(disk: FileSystem) {
    forall a: map<Path, seq<Byte>>, b: map<Path, seq<Byte>> :: Within(a, b) ==>
      disk.freeSpace(CACHE, b) <= disk.freeSpace(CACHE, a)
  }

  /** Whether /cache can make room for so many bytes. */
  ghost predicate CanMakeRoom(disk: FileSystem, files: map<Path, seq<Byte>>, bytes: nat) {
    disk.freeSpace(CACHE, Spared(files, disk.open)) >= bytes
  }

  lemma KeptIsWithin(open: set<Path>, trace: seq<State>, since: nat)
    requires Kept(Precious(open), trace, since)
    ensures Within(Spared(trace[since - 1].files, open), trace[|trace| - 1].files)
  {
    hide Expendable;
    var first, last := trace[since - 1], trace[|trace| - 1];
    if since < |trace| {
      assert SameOn(Precious(open), first, last);
    }
    forall p | p in Spared(first.files, open) ensures p in last.files && last.files[p] == first.files[p] {
      assert p in Precious(open);
      assert since < |trace| ==> Same(p, first, last);
    }
  }

  lemma SweptIsSpared(open: set<Path>, before: map<Path, seq<Byte>>, after: map<Path, seq<Byte>>)
    requires Swept(after, open) && after.Keys <= before.Keys && Within(Spared(before, open), after)
    ensures after == Spared(before, open)
  {
    hide Expendable;
    forall p | p in after ensures p in Spared(before, open) {
    }
    assert after.Keys == Spared(before, open).Keys;
  }

  /** Whether there was too little room before every deletion. */
  ghost predicate WasFull(disk: FileSystem, trace: seq<State>, since: int, bytesNeeded: nat) {
    0 < since && forall i :: since - 1 <= i < |trace| - 1 ==> disk.freeSpace(CACHE, trace[i].files) < bytesNeeded
  }

  /** 0 if /cache has the room, after deleting expendable files one by one for as long as it has not. */
  method MakeFreeSpaceOnCache(disk: FileSystem, bytesNeeded: nat) returns (r: int)
    requires disk.Valid()
    modifies disk`files, disk`dirty, disk`trace
    ensures disk.Valid() && old(disk.trace) <= disk.trace
    ensures Kept(Precious(disk.open), disk.trace, |old(disk.trace)|)
    ensures WasFull(disk, disk.trace, |old(disk.trace)|, bytesNeeded)
    ensures r == 0 || r == -1
    ensures r == 0 ==> disk.freeSpace(CACHE, disk.files) >= bytesNeeded
    ensures disk.working && r == -1 ==> disk.files == Spared(old(disk.files), disk.open)
    ensures disk.working && CanMakeRoom(disk, old(disk.files), bytesNeeded) ==> r == 0
    ensures DeletingFrees(disk) && !CanMakeRoom(disk, old(disk.files), bytesNeeded) ==> r == -1
  {
    hide Expendable, Spared, Swept, DeletingFrees, Precious;
    NothingDeleted(disk);
    var freeNow := disk.freeSpace(CACHE, disk.files);
    if freeNow >= bytesNeeded {
      return 0;
    }
    var names, entries := FindExpendableFiles(disk);
    if names.None? {
      return -1;
    }
    if entries == 0 {
      NothingListed(disk.files, disk.open, names.value[..0]);
      return -1;
    }
    r := DeleteFiles(disk, names.value, entries, bytesNeeded);
    KeptIsWithin(disk.open, disk.trace, |old(disk.trace)|);
    if disk.working && r == -1 {
      SweptIsSpared(disk.open, old(disk.files), disk.files);
    }
    if DeletingFrees(disk) {
      FreedAtMost(disk, Spared(old(disk.files), disk.open), disk.files);
    }
  }

  lemma FreedAtMost(disk: FileSystem, a: map<Path, seq<Byte>>, b: map<Path, seq<Byte>>)
    requires DeletingFrees(disk) && Within(a, b)
    ensures disk.freeSpace(CACHE, b) <= disk.freeSpace(CACHE, a)
  {
  }

  lemma NothingDeleted(disk: FileSystem)
    requires disk.Valid()
    ensures Within(Spared(disk.files, disk.open), disk.files)
    ensures Swept(disk.files, disk.open) ==> disk.files == Spared(disk.files, disk.open)
    ensures DeletingFrees(disk) ==>
              disk.freeSpace(CACHE, disk.files) <= disk.freeSpace(CACHE, Spared(disk.files, disk.open))
  {
    hide Expendable;
    if Swept(disk.files, disk.open) {
      SweptIsSpared(disk.open, disk.files, disk.files);
    }
  }

  lemma NothingListed(files: map<Path, seq<Byte>>, open: set<Path>, names: seq<Option<Path>>)
    requires names == []
    ensures (forall p :: p in files && Expendable(p) && p !in open ==> Has(names, p)) ==> Swept(files, open)
  {
    hide Expendable;
  }

  method DeleteFiles(disk: FileSystem, names: array<Option<Path>>, entries: nat, bytesNeeded: nat) returns (r: int)
    requires disk.Valid() && AllExpendable(names, entries)
    requires disk.freeSpace(CACHE, disk.files) < bytesNeeded
    requires forall i :: 0 <= i < entries && names[i].Some? ==> names[i].value !in disk.open
    requires disk.working ==> forall p :: p in disk.files && Expendable(p) && p !in disk.open ==>
               Has(names[..entries], p)
    modifies disk`files, disk`dirty, disk`trace
    ensures disk.Valid() && old(disk.trace) <= disk.trace
    ensures Kept(Precious(disk.open), disk.trace, |old(disk.trace)|)
    ensures WasFull(disk, disk.trace, |old(disk.trace)|, bytesNeeded)
    ensures r == 0 || r == -1
    ensures r == 0 ==> disk.freeSpace(CACHE, disk.files) >= bytesNeeded
    ensures disk.files.Keys <= old(disk.files).Keys
    ensures disk.working && r == -1 ==>
              disk.freeSpace(CACHE, disk.files) < bytesNeeded && Swept(disk.files, disk.open)
  {
    hide Expendable;
    var freeNow := disk.freeSpace(CACHE, disk.files);
    var i := 0;
    ghost var since := |disk.trace|;
    while i < entries && freeNow < bytesNeeded
      invariant 0 <= i <= entries && freeNow == disk.freeSpace(CACHE, disk.files)
      invariant disk.Valid() && old(disk.trace) <= disk.trace
      invariant Kept(Precious(disk.open), disk.trace, since)
      invariant WasFull(disk, disk.trace, since, bytesNeeded)
      invariant disk.files.Keys <= old(disk.files).Keys
      invariant disk.working ==> forall j :: 0 <= j < i && names[j].Some? ==> names[j].value !in disk.files
    {
      if names[i].Some? {
        ghost var trace := disk.trace;
        var ok := disk.Unlink(names[i].value);
        if ok {
          KeptNext(Precious(disk.open), trace, disk.Now(), since);
        }
        freeNow := disk.freeSpace(CACHE, disk.files);
      }
      i := i + 1;
    }
    r := if freeNow >= bytesNeeded then 0 else -1;
  }
}
