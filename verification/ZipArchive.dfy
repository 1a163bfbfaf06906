/** minzip/Zip.c: opening an archive, finding an entry by name, and selecting the entries under a directory. */
module ZipArchive {
  import opened Common
  import opened ZipNames
  import opened Eocd
  import opened Hash
  import opened ZipIndex

  const SLASH: Byte := 0x2f

  /** The entries whose name begins with `z`, in order. */
  function WithPrefix(entries: seq<ZipEntry>, z: seq<Byte>): (found: seq<ZipEntry>) {
    if entries == [] then []
    else
      var n := |entries| - 1;
      WithPrefix(entries[..n], z) + if z <= entries[n].name then [entries[n]] else []
  }

  /** mzExtractRecursive's zpath: the directory with a slash at its end, or nothing. */
  function ZipPath(zipDir: seq<Byte>): (z: seq<Byte>)
    ensures zipDir <= z && (z == [] || z[|z| - 1] == SLASH)
  {
    if zipDir == [] || zipDir[|zipDir| - 1] == SLASH then zipDir else zipDir + [SLASH]
  }

  /** targetEntryPath: the target directory, a slash, and the rest of the entry's name. */
  function TargetPath(targetDir: seq<Byte>, z: seq<Byte>, name: seq<Byte>): (bytes: seq<Byte>)
    requires z <= name
  {
    (if targetDir == [] || targetDir[|targetDir| - 1] != SLASH then targetDir + [SLASH] else targetDir) + name[|z|..]
  }

  /** Where the record `p` says the directory is, if what it says is plausible. */
  predicate RecordOk(file: seq<Byte>, p: int) {
    && IsLastMarker(file, p)
    && Get2LE(file, p + 8) != 0 && Get4LE(file, p + 16) < |file|
    && Directory(file, Get4LE(file, p + 16), Get2LE(file, p + 8)).Some?
  }

  /** The array holds the entries of the directory that the record `p` describes. */
  ghost predicate ListsDirectory(file: seq<Byte>, p: int, entries: seq<ZipEntry>)
    requires RecordOk(file, p)
  {
    multiset(entries) == multiset(Directory(file, Get4LE(file, p + 16), Get2LE(file, p + 8)).value.0)
  }

  class ZipArchive {
    var pEntries: array<ZipEntry>
    var pHash: Index

    constructor (entries: array<ZipEntry>, index: Index)
      ensures pEntries == entries && pHash == index
    {
      pEntries, pHash := entries, index;
    }

    ghost predicate Valid()
      reads this, pEntries, pHash, pHash.pEntries
    {
      && Sorted(Names(pEntries[..]))
      && pHash.Valid() && pHash.keyOf == NameOf && pHash.hashOf == NameHash
      && Indexes(pHash.Contents, Names(pEntries[..]), pEntries.Length)
    }

    /** mzFindZipEntry: an entry of that name, exactly when there is one. */
    method Find(name: seq<Byte>) returns (found: Option<ZipEntry>)
      requires Valid()
      modifies pHash, pHash.pEntries
      ensures Valid() && pEntries == old(pEntries) && pHash == old(pHash)
      ensures found.Some? <==> name in Names(pEntries[..])
      ensures found.Some? ==> found.value.name == name && found.value in pEntries[..]
    {
      hide Sorted, Names, NameHash, Indexes;
      ghost var names := Names(pEntries[..]);
      var itemHash := ComputeHash(name);
      var ref := pHash.Lookup(itemHash, (r: EntryRef) => r.name == name, None, name);
      IndexedExactly(pHash.Contents, names, name);
      if ref.None? {
        return None;
      }
      assert names[ref.value.index] == pEntries[ref.value.index].name;
      return Some(pEntries[ref.value.index]);
    }

    /**
     The selection loop of mzExtractRecursive, when nothing fails.  It gives up at the first mismatch after a
     match; because the entries are sorted it has then seen every entry with the prefix.
     */
    method Select(z: seq<Byte>) returns (selected: seq<ZipEntry>)
      requires Valid()
      ensures selected == WithPrefix(pEntries[..], z)
    {
      hide Names, Indexes;
      SortedAt(pEntries[..]);
      hide Sorted;
      selected := [];
      var seenMatch, i := false, 0;
      while i < pEntries.Length
        invariant 0 <= i <= pEntries.Length && selected == WithPrefix(pEntries[..i], z)
        invariant seenMatch ==> exists k :: 0 <= k < i && z <= pEntries[k].name
      {
        assert pEntries[..i + 1][..i] == pEntries[..i];
        if |pEntries[i].name| < |z| || pEntries[i].name[..|z|] != z {
          assert !(z <= pEntries[i].name);
          if seenMatch {
            var k :| 0 <= k < i && z <= pEntries[k].name;
            NoMoreMatches(pEntries[..], z, k, i);
            WithPrefixStops(pEntries[..], z, i);
            return;
          }
        } else {
          seenMatch := true;
          selected := selected + [pEntries[i]];
        }
        i := i + 1;
      }
      assert pEntries[..i] == pEntries[..];
    }

    /** mzExtractRecursive on a dry run: the paths handed to the callback. */
    method DryRun(zipDir: seq<Byte>, targetDir: seq<Byte>) returns (paths: Option<seq<seq<Byte>>>)
      requires Valid()
      ensures paths.Some? <==> (zipDir == [] || zipDir[0] != SLASH) && targetDir != [] && targetDir[0] == SLASH
      ensures paths.Some? ==>
                paths.value == Targets(targetDir, ZipPath(zipDir), WithPrefix(pEntries[..], ZipPath(zipDir)))
    {
      hide WithPrefix, TargetPath, ZipPath, Valid;
      if (zipDir != [] && zipDir[0] == SLASH) || targetDir == [] || targetDir[0] != SLASH {
        return None;
      }
      var z := ZipPath(zipDir);
      var selected := Select(z);
      WithPrefixHave(pEntries[..], z);
      var list := ListTargets(targetDir, z, selected);
      return Some(list);
    }
  }

  /** The target paths of entries below `z`. */
  function Targets(targetDir: seq<Byte>, z: seq<Byte>, selected: seq<ZipEntry>): (paths: seq<seq<Byte>>)
    ensures |paths| == |selected|
  {
    seq(|selected|, i requires 0 <= i < |selected| =>
      if z <= selected[i].name then TargetPath(targetDir, z, selected[i].name) else [])
  }

  method ListTargets(targetDir: seq<Byte>, z: seq<Byte>, selected: seq<ZipEntry>) returns (list: seq<seq<Byte>>)
    requires forall i :: 0 <= i < |selected| ==> z <= selected[i].name
    ensures list == Targets(targetDir, z, selected)
  {
    hide TargetPath;
    list := [];
    while |list| < |selected|
      invariant |list| <= |selected|
      invariant forall i :: 0 <= i < |list| ==> list[i] == TargetPath(targetDir, z, selected[i].name)
    {
      list := list + [TargetPath(targetDir, z, selected[|list|].name)];
    }
  }

  /** A slash between the two, if there is none. */
  predicate Joined(dir: seq<Byte>, rest: seq<Byte>, path: seq<Byte>) {
    (path == dir + rest && dir != [] && dir[|dir| - 1] == SLASH) ||
    (path == dir + [SLASH] + rest && (dir == [] || dir[|dir| - 1] != SLASH))
  }

  /** What is below `zipDir` in the archive comes to the same place below `targetDir`. */
  lemma TargetsAreBelow(targetDir: seq<Byte>, zipDir: seq<Byte>, selected: seq<ZipEntry>, i: nat, rest: seq<Byte>)
    requires i < |selected| && targetDir != []
    requires if zipDir == [] then selected[i].name == rest else Joined(zipDir, rest, selected[i].name)
    ensures Joined(targetDir, rest, Targets(targetDir, ZipPath(zipDir), selected)[i])
  {
    var z := ZipPath(zipDir);
    assert selected[i].name == z + rest;
    assert (z + rest)[|z|..] == rest;
  }

  lemma IndexedExactly(m: map<seq<Byte>, EntryRef>, names: seq<seq<Byte>>, name: seq<Byte>)
    requires Indexes(m, names, |names|)
    ensures name in m <==> name in names
    ensures name in m ==> m[name].index < |names| && names[m[name].index] == name
  {
  }

  /** Sorted names: after a match and then a mismatch there are no more matches. */
  lemma NoMoreMatches(entries: seq<ZipEntry>, z: seq<Byte>, k: nat, i: nat)
    requires forall a, b :: 0 <= a < b < |entries| ==> Leq(entries[a].name, entries[b].name)
    requires k < i < |entries| && z <= entries[k].name && !(z <= entries[i].name)
    ensures forall j :: i <= j < |entries| ==> !(z <= entries[j].name)
  {
    forall j | i < j < |entries| ensures !(z <= entries[j].name) {
      if z <= entries[j].name {
        PrefixInterval(z, entries[k].name, entries[i].name, entries[j].name);
      }
    }
  }

  lemma {:induction false} WithPrefixStops(entries: seq<ZipEntry>, z: seq<Byte>, i: nat)
    requires i <= |entries| && forall j :: i <= j < |entries| ==> !(z <= entries[j].name)
    ensures WithPrefix(entries, z) == WithPrefix(entries[..i], z)
  {
    if i < |entries| {
      WithPrefixStops(entries[..|entries| - 1], z, i);
      assert entries[..|entries| - 1][..i] == entries[..i];
    } else {
      assert entries[..i] == entries;
    }
  }

  lemma {:induction false} WithPrefixHave(entries: seq<ZipEntry>, z: seq<Byte>)
    ensures forall e :: e in WithPrefix(entries, z) <==> e in entries && z <= e.name
    ensures forall i :: 0 <= i < |WithPrefix(entries, z)| ==> z <= WithPrefix(entries, z)[i].name
  {
    if entries == [] {
    } else {
      WithPrefixHave(entries[..|entries| - 1], z);
      assert entries == entries[..|entries| - 1] + [entries[|entries| - 1]];
    }
  }

  /**
   mzOpenZipArchive and parseZipArchive.  An archive is opened exactly when its directory can be read from the
   last end-of-central-directory record; its entries are then those of the directory, sorted by name.
   */
  method OpenArchive(file: seq<Byte>) returns (archive: ZipArchive?)
    ensures archive != null <==> |file| >= ENDHDR && file[..4] == LOCSIG && exists p :: RecordOk(file, p)
    ensures archive != null ==> fresh(archive) && archive.Valid()
    ensures archive != null ==> exists p :: RecordOk(file, p) && ListsDirectory(file, p, archive.pEntries[..])
  {
    hide Sorted, Names, NameHash, Indexes, Directory, Get2LE, Get4LE, IsPow2;
    if |file| < ENDHDR {
      return null;
    }
    if file[..4] != LOCSIG {
      return null;
    }
    var at := FindEocd(file);
    if at.None? {
      return null;
    }
    var p := at.value;
    assert forall q :: IsLastMarker(file, q) ==> q == p;
    var numEntries, cdOffset := Get2LE(file, p + 8), Get4LE(file, p + 16);
    if numEntries == 0 || cdOffset >= |file| {
      return null;
    }
    var entries := ReadEntries(file, cdOffset, numEntries);
    if entries.None? {
      return null;
    }
    assert RecordOk(file, p);
    var index := BuildIndex(entries.value, HashSize(numEntries));
    archive := new ZipArchive(entries.value, index);
  }
}
