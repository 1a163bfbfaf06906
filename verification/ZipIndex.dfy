/** minzip/Zip.c: reading the central directory into a sorted array of entries, and the hash index over it. */
module ZipIndex {
  import opened Common
  import opened LittleEndian
  import opened ZipNames
  import opened Eocd
  import opened HashSlots
  import opened Hash

  /** A ZipEntry; fileName and fileNameLen are `name`. */
  datatype ZipEntry = ZipEntry(
    name: seq<Byte>, offset: nat, compLen: nat, uncompLen: nat, compression: nat, modTime: nat, crc32: nat,
    versionMadeBy: nat, externalFileAttributes: nat)

  const CENSIG: seq<Byte> := [0x50, 0x4b, 0x01, 0x02]
  const LOCSIG: seq<Byte> := [0x50, 0x4b, 0x03, 0x04]
  const CENHDR := 46
  const LOCHDR := 30
  const PATH_MAX := 4096

  function Get2LE(b: seq<Byte>, at: nat): (n: nat)
    requires at + 2 <= |b|
    ensures n < 0x1_0000
  {
    assert Value(b[at..at + 2][1..]) == b[at + 1];
    Value(b[at..at + 2])
  }

  function Get4LE(b: seq<Byte>, at: nat): (n: nat)
    requires at + 4 <= |b|
  {
    Value(b[at..at + 4])
  }

  predicate ValidFilename(name: seq<Byte>) {
    |name| < PATH_MAX && forall i :: 0 <= i < |name| ==> 32 <= name[i] < 127
  }

  datatype Parsed = Parsed(entry: ZipEntry, next: nat)

  /** The central directory header at `ptr`, with all the checks parseZipArchive makes on it. */
  function EntryAt(file: seq<Byte>, ptr: nat): (parsed: Option<Parsed>) {
    if ptr + CENHDR > |file| || file[ptr..ptr + 4] != CENSIG then None
    else
      var nameLen, extraLen, commentLen := Get2LE(file, ptr + 28), Get2LE(file, ptr + 30), Get2LE(file, ptr + 32);
      var localHdr, madeBy, compLen := Get4LE(file, ptr + 42), Get2LE(file, ptr + 4), Get4LE(file, ptr + 20);
      if ptr + CENHDR + nameLen > |file| then None
      else
        var name := file[ptr + CENHDR..ptr + CENHDR + nameLen];
        if !ValidFilename(name) then None
        else if madeBy / 256 != 0 && madeBy / 256 != 3 then None
        else if localHdr + LOCHDR > |file| || file[localHdr..localHdr + 4] != LOCSIG then None
        else
          var offset := localHdr + LOCHDR + Get2LE(file, localHdr + 26) + Get2LE(file, localHdr + 28);
          if offset + compLen > |file| then None
          else
            Some(Parsed(
              ZipEntry(name, offset, compLen, Get4LE(file, ptr + 24), Get2LE(file, ptr + 10), Get4LE(file, ptr + 12),
                       Get4LE(file, ptr + 16), madeBy, Get4LE(file, ptr + 38)),
              ptr + CENHDR + nameLen + extraLen + commentLen))
  }

  /** The first `n` entries of the central directory at `ptr`, in file order, and where they end. */
  function Directory(file: seq<Byte>, ptr: nat, n: nat): (listed: Option<(seq<ZipEntry>, nat)>) {
    if n == 0 then Some(([], ptr))
    else
      match Directory(file, ptr, n - 1)
      case None => None
      case Some((entries, at)) =>
        match EntryAt(file, at)
        case None => None
        case Some(p) => Some((entries + [p.entry], p.next))
  }

  function Names(entries: seq<ZipEntry>): (names: seq<seq<Byte>>)
    ensures |names| == |entries| && forall i :: 0 <= i < |entries| ==> names[i] == entries[i].name
  {
    seq(|entries|, i requires 0 <= i < |entries| => entries[i].name)
  }

  /** Where the binary search says the name belongs among the first `n` entries. */
  method FindTarget(entries: array<ZipEntry>, n: nat, name: seq<Byte>) returns (target: nat)
    requires n <= entries.Length && Sorted(Names(entries[..n]))
    ensures target <= n
    ensures forall k :: 0 <= k < target ==> Leq(entries[k].name, name)
    ensures forall k :: target <= k < n ==> Leq(name, entries[k].name)
  {
    if n == 0 {
      return 0;
    }
    SortedAt(entries[..n]);
    var low, high := 0, n - 1;
    while low <= high
      invariant 0 <= low <= high + 1 <= n
      invariant forall k :: 0 <= k < low ==> Leq(entries[k].name, name)
      invariant forall k :: high < k < n ==> Leq(name, entries[k].name)
    {
      var mid := low + (high - low) / 2;
      var diff := Compare(entries[mid].name, name);
      CompareOpposite(entries[mid].name, name);
      if diff < 0 {
        forall k | 0 <= k <= mid ensures Leq(entries[k].name, name) {
          if k < mid { LeqTransitive(entries[k].name, entries[mid].name, name); }
        }
        low := mid + 1;
      } else if diff > 0 {
        forall k | mid <= k < n ensures Leq(name, entries[k].name) {
          if mid < k { LeqTransitive(name, entries[mid].name, entries[k].name); }
        }
        high := mid - 1;
      } else {
        return mid + 1;
      }
    }
    return high + 1;
  }

  lemma SortedAt(entries: seq<ZipEntry>)
    requires Sorted(Names(entries))
    ensures forall i, j :: 0 <= i < j < |entries| ==> Leq(entries[i].name, entries[j].name)
  {
    forall i, j | 0 <= i < j < |entries| ensures Leq(entries[i].name, entries[j].name) {
      assert Leq(Names(entries)[i], Names(entries)[j]);
    }
  }

  /** Making room at `target` and filling it, as memmove and the assignments do. */
  method InsertEntry(entries: array<ZipEntry>, n: nat, target: nat, entry: ZipEntry)
    requires target <= n < entries.Length
    modifies entries
    ensures entries[..n + 1] == old(entries[..target]) + [entry] + old(entries[target..n])
  {
    if target != n {
      forall k | target < k <= n {
        entries[k] := entries[k - 1];
      }
    }
    entries[target] := entry;
  }

  lemma InsertedSorted(before: seq<ZipEntry>, target: nat, entry: ZipEntry)
    requires target <= |before| && Sorted(Names(before))
    requires forall k :: 0 <= k < target ==> Leq(before[k].name, entry.name)
    requires forall k :: target <= k < |before| ==> Leq(entry.name, before[k].name)
    ensures Sorted(Names(before[..target] + [entry] + before[target..]))
    ensures multiset(before[..target] + [entry] + before[target..]) == multiset(before + [entry])
  {
    var after := before[..target] + [entry] + before[target..];
    InsertSorted(Names(before), target, entry.name);
    assert Names(after) == Names(before)[..target] + [entry.name] + Names(before)[target..];
    assert before == before[..target] + before[target..];
  }

  /** One sorted insertion: search, make room, fill. */
  method AddEntry(entries: array<ZipEntry>, n: nat, entry: ZipEntry)
    requires n < entries.Length && Sorted(Names(entries[..n]))
    modifies entries
    ensures Sorted(Names(entries[..n + 1]))
    ensures multiset(entries[..n + 1]) == multiset(old(entries[..n]) + [entry])
  {
    hide Sorted, Names, Leq;
    ghost var before := entries[..n];
    var target := FindTarget(entries, n, entry.name);
    assert entries[..target] == before[..target] && entries[target..n] == before[target..];
    InsertedSorted(before, target, entry);
    InsertEntry(entries, n, target, entry);
  }

  /** The loop over the central directory: the entries, sorted by name. */
  method ReadEntries(file: seq<Byte>, cdOffset: nat, numEntries: nat) returns (entries: Option<array<ZipEntry>>)
    ensures entries.Some? <==> Directory(file, cdOffset, numEntries).Some?
    ensures entries.Some? ==> fresh(entries.value) && Sorted(Names(entries.value[..]))
    ensures entries.Some? ==> multiset(entries.value[..]) == multiset(Directory(file, cdOffset, numEntries).value.0)
  {
    hide EntryAt, Sorted, Names, Directory;
    DirectoryBegin(file, cdOffset);
    var a := new ZipEntry[numEntries](_ => ZipEntry([], 0, 0, 0, 0, 0, 0, 0, 0));
    var ptr, i := cdOffset, 0;
    NothingSorted();
    assert a[..0] == [];
    while i < numEntries
      invariant 0 <= i <= numEntries == a.Length
      invariant Directory(file, cdOffset, i).Some? && Directory(file, cdOffset, i).value.1 == ptr
      invariant Sorted(Names(a[..i])) && multiset(a[..i]) == multiset(Directory(file, cdOffset, i).value.0)
    {
      var parsed := EntryAt(file, ptr);
      if parsed.None? {
        DirectoryFails(file, cdOffset, i, numEntries);
        return None;
      }
      var entry := parsed.value.entry;
      DirectoryNext(file, cdOffset, i);
      MultisetSnoc(a[..i], Directory(file, cdOffset, i).value.0, entry);
      AddEntry(a, i, entry);
      ptr := parsed.value.next;
      i := i + 1;
    }
    assert a[..] == a[..numEntries];
    return Some(a);
  }

  lemma DirectoryBegin(file: seq<Byte>, ptr: nat)
    ensures Directory(file, ptr, 0) == Some(([], ptr))
  {
  }

  lemma DirectoryNext(file: seq<Byte>, ptr: nat, i: nat)
    requires Directory(file, ptr, i).Some? && EntryAt(file, Directory(file, ptr, i).value.1).Some?
    ensures var p := EntryAt(file, Directory(file, ptr, i).value.1).value;
            Directory(file, ptr, i + 1) == Some((Directory(file, ptr, i).value.0 + [p.entry], p.next))
  {
    hide EntryAt;
  }

  lemma MultisetSnoc<T>(a: seq<T>, b: seq<T>, x: T)
    requires multiset(a) == multiset(b)
    ensures multiset(a + [x]) == multiset(b + [x])
  {
  }

  lemma NothingSorted()
    ensures Sorted(Names([]))
  {
  }

  lemma {:induction false} DirectoryFails(file: seq<Byte>, ptr: nat, i: nat, n: nat)
    requires i < n && Directory(file, ptr, i).Some? && EntryAt(file, Directory(file, ptr, i).value.1).None?
    ensures Directory(file, ptr, n).None?
    decreases n
  {
    hide EntryAt;
    if i >= n - 1 {
    } else {
      DirectoryFails(file, ptr, i, n - 1);
    }
  }

  /** A pointer to an entry of the array, with the name it leads to. */
  datatype EntryRef = EntryRef(index: nat, name: seq<Byte>)

  function NameOf(r: EntryRef): (bytes: seq<Byte>) { r.name }

  type Index = HashTable<seq<Byte>, EntryRef>

  /** computeHash, in unsigned 32-bit arithmetic. */
  function NameHash(name: seq<Byte>): (n: nat) {
    if name == [] then 2 else (NameHash(name[..|name| - 1]) * 31 + name[|name| - 1]) % 0x1_0000_0000
  }

  method ComputeHash(name: seq<Byte>) returns (hash: nat)
    ensures hash == NameHash(name)
  {
    hash := 2;
    var i := 0;
    while i < |name|
      invariant 0 <= i <= |name| && hash == NameHash(name[..i])
    {
      assert name[..i + 1][..i] == name[..i];
      hash := (hash * 31 + name[i]) % 0x1_0000_0000;
      i := i + 1;
    }
    assert name[..i] == name;
  }

  /** The index finds, under each name among the first `n`, the first entry that has it, and nothing else. */
  ghost predicate Indexes(m: map<seq<Byte>, EntryRef>, names: seq<seq<Byte>>, n: int) {
    && 0 <= n <= |names|
    && (forall i :: 0 <= i < n ==> names[i] in m)
    && (forall k :: k in m ==> m[k].index < n && names[m[k].index] == k == m[k].name)
    && (forall k, i :: k in m && 0 <= i < m[k].index ==> names[i] != k)
  }

  lemma NothingIndexed(names: seq<seq<Byte>>)
    ensures Indexes(map[], names, 0)
  {
  }

  lemma IndexNext(m: map<seq<Byte>, EntryRef>, names: seq<seq<Byte>>, n: nat)
    requires Indexes(m, names, n) && n < |names|
    ensures Indexes(if names[n] in m then m else m[names[n] := EntryRef(n, names[n])], names, n + 1)
  {
  }

  /** addEntryToHashTable. */
  method AddToIndex(index: Index, i: nat, name: seq<Byte>, ghost names: seq<seq<Byte>>)
    requires index.Valid() && index.keyOf == NameOf && index.hashOf == NameHash
    requires Indexes(index.Contents, names, i) && i < |names| && names[i] == name
    modifies index, index.pEntries
    ensures index.Valid() && (index.pEntries == old(index.pEntries) || fresh(index.pEntries))
    ensures Indexes(index.Contents, names, i + 1)
    ensures index.numEntries <= old(index.numEntries) + 1
    ensures LoadOk(old(index.numEntries + index.numDeadEntries) + 1, old(index.tableSize)) ==>
              index.tableSize == old(index.tableSize) && index.numDeadEntries == old(index.numDeadEntries)
  {
    hide Indexes, NameHash, IsPow2;
    var itemHash := ComputeHash(name);
    IndexNext(index.Contents, names, i);
    var found := index.Lookup(itemHash, (r: EntryRef) => r.name == name, Some(EntryRef(i, name)), name);
  }

  /** The loop that adds every entry to the hash table; an entry with a name already there is not added. */
  method BuildIndex(entries: array<ZipEntry>, size: nat) returns (index: Index)
    requires 0 < size <= MAX_SIZE
    ensures fresh(index) && fresh(index.pEntries) && index.Valid()
    ensures index.keyOf == NameOf && index.hashOf == NameHash
    ensures Indexes(index.Contents, Names(entries[..]), entries.Length)
    ensures entries.Length * LOAD_DENOM <= size * LOAD_NUMER ==> size <= index.tableSize < 2 * size
  {
    hide Names, NameHash, Indexes, IsPow2;
    ghost var names := Names(entries[..]);
    NothingIndexed(names);
    index := new HashTable(size, NameOf, NameHash);
    var i := 0;
    while i < entries.Length
      invariant 0 <= i <= entries.Length == |names| && fresh(index.pEntries) && index.Valid()
      invariant index.keyOf == NameOf && index.hashOf == NameHash
      invariant Indexes(index.Contents, names, i)
      invariant entries.Length * LOAD_DENOM <= size * LOAD_NUMER ==>
                  size <= index.tableSize < 2 * size && index.numEntries <= i && index.numDeadEntries == 0
    {
      assert names[i] == entries[i].name;
      AddToIndex(index, i, entries[i].name, names);
      i := i + 1;
    }
  }
}
