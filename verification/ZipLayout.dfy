/**
 Archives as they are laid out (APPNOTE.TXT, sections 4.3.7, 4.3.12 and 4.3.16): headers with each field in its place
 are read back as exactly those fields.
 */
module ZipLayout {
  import opened Common
  import opened LittleEndian
  import opened Eocd
  import opened ZipNames
  import opened ZipIndex
  import opened ZipArchive

  /** A number of so many bytes. */
  datatype Field = Field(value: nat, width: nat)

  function Packed(fields: seq<Field>): (bytes: seq<Byte>) {
    if fields == [] then []
    else Packed(fields[..|fields| - 1]) + Bytes(fields[|fields| - 1].value, fields[|fields| - 1].width)
  }

  /** Where the field `k` begins. */
  function Offset(fields: seq<Field>, k: nat): (at: nat)
    requires k <= |fields|
  {
    if k == 0 then 0 else Offset(fields, k - 1) + fields[k - 1].width
  }

  predicate Fitting(f: Field) { f.value < Pow256(f.width) }

  lemma {:induction false} OffsetOfFront(fields: seq<Field>, n: nat, k: nat)
    requires k <= n <= |fields|
    ensures Offset(fields[..n], k) == Offset(fields, k)
  {
    if k > 0 {
      OffsetOfFront(fields, n, k - 1);
    }
  }

  lemma {:induction false} PackedSize(fields: seq<Field>)
    ensures |Packed(fields)| == Offset(fields, |fields|)
  {
    if fields != [] {
      PackedSize(fields[..|fields| - 1]);
      OffsetOfFront(fields, |fields| - 1, |fields| - 1);
    }
  }

  lemma {:induction false} OffsetGrows(fields: seq<Field>, k: nat, n: nat)
    requires k <= n <= |fields|
    ensures Offset(fields, k) <= Offset(fields, n)
  {
    if k < n {
      OffsetGrows(fields, k, n - 1);
    }
  }

  /** Each field is found at its offset. */
  lemma {:induction false} PackedAt(fields: seq<Field>, k: nat)
    requires k < |fields|
    ensures Offset(fields, k) + fields[k].width <= |Packed(fields)|
    ensures Packed(fields)[Offset(fields, k)..Offset(fields, k) + fields[k].width] ==
              Bytes(fields[k].value, fields[k].width)
  {
    var n := |fields| - 1;
    PackedSize(fields);
    PackedSize(fields[..n]);
    OffsetOfFront(fields, n, n);
    if k < n {
      PackedAt(fields[..n], k);
      OffsetOfFront(fields, n, k);
    }
  }

  lemma SliceOfSlice(file: seq<Byte>, at: nat, n: nat, from: nat, to: nat)
    requires at + n <= |file| && from <= to <= n
    ensures file[at + from..at + to] == file[at..at + n][from..to]
  {
    var all := file[at..at + n];
    forall k | 0 <= k < to - from ensures file[at + from..at + to][k] == all[from..to][k] {
      assert all[from..to][k] == all[from + k] == file[at + (from + k)];
    }
  }

  /** A field of `fields` as it is read where they lie in a file. */
  lemma FieldAt(file: seq<Byte>, at: nat, fields: seq<Field>, k: nat)
    requires at + |Packed(fields)| <= |file| && file[at..at + |Packed(fields)|] == Packed(fields)
    requires k < |fields| && Fitting(fields[k])
    ensures at + Offset(fields, k) + fields[k].width <= |file|
    ensures fields[k].width == 2 ==> Get2LE(file, at + Offset(fields, k)) == fields[k].value
    ensures fields[k].width == 4 ==> Get4LE(file, at + Offset(fields, k)) == fields[k].value
  {
    hide Packed, Offset, Bytes, Value, Pow256;
    PackedAt(fields, k);
    var from, to := Offset(fields, k), Offset(fields, k) + fields[k].width;
    SliceOfSlice(file, at, |Packed(fields)|, from, to);
    ValueOfBytes(fields[k].value, fields[k].width);
  }

  // The local header

  datatype Local = Local(
    needed: nat, flags: nat, compression: nat, time: nat, date: nat, crc: nat, compLen: nat, uncompLen: nat,
    nameLen: nat, extraLen: nat)

  function LocalFields(l: Local): (fields: seq<Field>) {
    [Field(0x04034b50, 4), Field(l.needed, 2), Field(l.flags, 2), Field(l.compression, 2), Field(l.time, 2),
     Field(l.date, 2), Field(l.crc, 4), Field(l.compLen, 4), Field(l.uncompLen, 4), Field(l.nameLen, 2),
     Field(l.extraLen, 2)]
  }

  // The header in the central directory

  datatype Item = Item(
    madeBy: nat, needed: nat, flags: nat, compression: nat, time: nat, date: nat, crc: nat, compLen: nat,
    uncompLen: nat, name: seq<Byte>, extra: seq<Byte>, comment: seq<Byte>, disk: nat, internal: nat,
    external: nat, localAt: nat)

  function ItemFields(i: Item): (fields: seq<Field>) {
    [Field(0x02014b50, 4), Field(i.madeBy, 2), Field(i.needed, 2), Field(i.flags, 2), Field(i.compression, 2),
     Field(i.time, 2), Field(i.date, 2), Field(i.crc, 4), Field(i.compLen, 4), Field(i.uncompLen, 4),
     Field(|i.name|, 2), Field(|i.extra|, 2), Field(|i.comment|, 2), Field(i.disk, 2), Field(i.internal, 2),
     Field(i.external, 4), Field(i.localAt, 4)]
  }

  predicate AllFit(fields: seq<Field>) {
    forall k :: 0 <= k < |fields| ==> Fitting(fields[k])
  }

  lemma LocalOffsets(l: Local)
    ensures var f := LocalFields(l);
            Offset(f, 0) == 0 && Offset(f, 9) == 26 && Offset(f, 10) == 28 && |Packed(f)| == LOCHDR
  {
    var f := LocalFields(l);
    PackedSize(f);
    assert Offset(f, 1) == 4 && Offset(f, 2) == 6 && Offset(f, 3) == 8;
    assert Offset(f, 4) == 10 && Offset(f, 5) == 12 && Offset(f, 6) == 14;
    assert Offset(f, 7) == 18 && Offset(f, 8) == 22;
    assert Offset(f, 9) == 26 && Offset(f, 10) == 28;
  }

  lemma ItemOffsets(i: Item)
    ensures var f := ItemFields(i);
            && Offset(f, 0) == 0 && Offset(f, 1) == 4 && Offset(f, 4) == 10 && Offset(f, 5) == 12 && Offset(f, 6) == 14
            && Offset(f, 7) == 16 && Offset(f, 8) == 20 && Offset(f, 9) == 24 && Offset(f, 10) == 28
            && Offset(f, 11) == 30 && Offset(f, 12) == 32 && Offset(f, 15) == 38 && Offset(f, 16) == 42
            && |Packed(f)| == CENHDR
  {
    var f := ItemFields(i);
    PackedSize(f);
    assert Offset(f, 1) == 4 && Offset(f, 2) == 6 && Offset(f, 3) == 8;
    assert Offset(f, 4) == 10 && Offset(f, 5) == 12 && Offset(f, 6) == 14;
    assert Offset(f, 7) == 16 && Offset(f, 8) == 20 && Offset(f, 9) == 24;
    assert Offset(f, 10) == 28 && Offset(f, 11) == 30 && Offset(f, 12) == 32;
    assert Offset(f, 13) == 34 && Offset(f, 14) == 36 && Offset(f, 15) == 38;
    assert Offset(f, 16) == 42 && Offset(f, 17) == 46;
  }

  function Header(i: Item): (bytes: seq<Byte>) {
    Packed(ItemFields(i)) + i.name + i.extra + i.comment
  }

  /** The fields lie at that place in the file. */
  ghost predicate LiesAt(file: seq<Byte>, at: nat, fields: seq<Field>) {
    && at + |Packed(fields)| <= |file| && file[at..at + |Packed(fields)|] == Packed(fields) && AllFit(fields)
  }

  lemma Read(file: seq<Byte>, at: nat, fields: seq<Field>, k: nat)
    requires LiesAt(file, at, fields) && k < |fields|
    ensures at + Offset(fields, k) + fields[k].width <= |file|
    ensures fields[k].width == 2 ==> Get2LE(file, at + Offset(fields, k)) == fields[k].value
    ensures fields[k].width == 4 ==> Get4LE(file, at + Offset(fields, k)) == fields[k].value
  {
    hide Packed, Offset, Fitting, Get2LE, Get4LE;
    assert Fitting(fields[k]);
    FieldAt(file, at, fields, k);
  }

  /** Four bytes are a signature exactly if they have its value. */
  lemma Signature(file: seq<Byte>, at: nat)
    requires at + 4 <= |file|
    ensures file[at..at + 4] == CENSIG <==> Get4LE(file, at) == 0x02014b50
    ensures file[at..at + 4] == LOCSIG <==> Get4LE(file, at) == 0x04034b50
    ensures file[at..at + 4] == ENDSIG <==> Get4LE(file, at) == 0x06054b50
  {
    var b := file[at..at + 4];
    FourBytes(b);
    assert b == [b[0], b[1], b[2], b[3]];
  }

  lemma FourBytes(b: seq<Byte>)
    requires |b| == 4
    ensures Value(b) == b[0] as int + 256 * b[1] as int + 0x1_0000 * b[2] as int + 0x100_0000 * b[3] as int
  {
    assert b[1..][1..] == b[2..] && b[2..][1..] == b[3..] && b[3..][1..] == [];
    assert Value(b[3..]) == b[3] && Value(b[2..]) == b[2] as int + 256 * b[3] as int;
    assert Value(b[1..]) == b[1] as int + 256 * Value(b[2..]);
  }

  /** Two numbers of two bytes, read as one of four. */
  lemma TwoAndTwo(file: seq<Byte>, at: nat)
    requires at + 4 <= |file|
    ensures Get4LE(file, at) == Get2LE(file, at) + 0x1_0000 * Get2LE(file, at + 2)
  {
    var b := file[at..at + 4];
    FourBytes(b);
    TwoBytes(file[at..at + 2]);
    TwoBytes(file[at + 2..at + 4]);
  }

  /** Where the data of an entry begin, by its local header. */
  function DataAt(i: Item, l: Local): (at: nat) {
    i.localAt + LOCHDR + l.nameLen + l.extraLen
  }

  function EntryOf(i: Item, l: Local): (entry: ZipEntry) {
    ZipEntry(i.name, DataAt(i, l), i.compLen, i.uncompLen, i.compression, i.time + 0x1_0000 * i.date, i.crc, i.madeBy,
             i.external)
  }

  /** A header with its variable parts behind it, and the local header it points to. */
  ghost predicate Placed(file: seq<Byte>, at: nat, i: Item, l: Local) {
    && LiesAt(file, at, ItemFields(i)) && at + CENHDR + |i.name| <= |file|
    && file[at + CENHDR..at + CENHDR + |i.name|] == i.name
    && LiesAt(file, i.localAt, LocalFields(l))
  }

  /** What parseZipArchive asks of an entry besides. */
  predicate Acceptable(file: seq<Byte>, i: Item, l: Local) {
    && ValidFilename(i.name) && (i.madeBy / 256 == 0 || i.madeBy / 256 == 3)
    && DataAt(i, l) + i.compLen <= |file|
  }

  lemma ItemRead(file: seq<Byte>, at: nat, i: Item)
    requires LiesAt(file, at, ItemFields(i))
    ensures at + CENHDR <= |file| && file[at..at + 4] == CENSIG
    ensures Get2LE(file, at + 4) == i.madeBy && Get2LE(file, at + 10) == i.compression
    ensures Get4LE(file, at + 12) == i.time + 0x1_0000 * i.date && Get4LE(file, at + 16) == i.crc
    ensures Get4LE(file, at + 20) == i.compLen && Get4LE(file, at + 24) == i.uncompLen
    ensures Get2LE(file, at + 28) == |i.name| && Get2LE(file, at + 30) == |i.extra|
    ensures Get2LE(file, at + 32) == |i.comment| && Get4LE(file, at + 38) == i.external
    ensures Get4LE(file, at + 42) == i.localAt
  {
    hide LiesAt, Offset, Packed, Get2LE, Get4LE;
    var f := ItemFields(i);
    ItemOffsets(i);
    Read(file, at, f, 0);
    Read(file, at, f, 1);
    Read(file, at, f, 4);
    Read(file, at, f, 5);
    Read(file, at, f, 6);
    Read(file, at, f, 7);
    Read(file, at, f, 8);
    Read(file, at, f, 9);
    Read(file, at, f, 10);
    Read(file, at, f, 11);
    Read(file, at, f, 12);
    Read(file, at, f, 15);
    Read(file, at, f, 16);
    TwoAndTwo(file, at + 12);
    Signature(file, at);
  }

  lemma LocalRead(file: seq<Byte>, at: nat, l: Local)
    requires LiesAt(file, at, LocalFields(l))
    ensures at + LOCHDR <= |file| && file[at..at + 4] == LOCSIG
    ensures Get2LE(file, at + 26) == l.nameLen && Get2LE(file, at + 28) == l.extraLen
  {
    hide LiesAt, Offset, Packed, Get2LE, Get4LE;
    var f := LocalFields(l);
    LocalOffsets(l);
    assert at + |Packed(f)| <= |file| by { LiesInFile(file, at, f); }
    Read(file, at, f, 0);
    Read(file, at, f, 9);
    Read(file, at, f, 10);
    Signature(file, at);
  }

  lemma LiesInFile(file: seq<Byte>, at: nat, fields: seq<Field>)
    requires LiesAt(file, at, fields)
    ensures at + |Packed(fields)| <= |file|
  {
  }

  /** A header is read back as its fields, exactly if its entry is acceptable. */
  lemma EntryReadBack(file: seq<Byte>, at: nat, i: Item, l: Local)
    requires Placed(file, at, i, l)
    ensures EntryAt(file, at) ==
              if Acceptable(file, i, l) then
                Some(Parsed(EntryOf(i, l), at + CENHDR + |i.name| + |i.extra| + |i.comment|))
              else None
  {
    hide LiesAt, Offset, Packed, Get2LE, Get4LE;
    ItemRead(file, at, i);
    LocalRead(file, i.localAt, l);
  }

  // The central directory, and the whole archive

  function Headers(items: seq<Item>): (bytes: seq<Byte>) {
    if items == [] then [] else Headers(items[..|items| - 1]) + Header(items[|items| - 1])
  }

  /** The local headers are where the items say. */
  ghost predicate HasLocals(file: seq<Byte>, items: seq<Item>, locals: seq<Local>) {
    && |locals| == |items|
    && forall k :: 0 <= k < |items| ==>
        AllFit(ItemFields(items[k])) && LiesAt(file, items[k].localAt, LocalFields(locals[k]))
  }

  predicate AllAcceptable(file: seq<Byte>, items: seq<Item>, locals: seq<Local>) {
    |locals| == |items| && forall k :: 0 <= k < |items| ==> Acceptable(file, items[k], locals[k])
  }

  function Entries(items: seq<Item>, locals: seq<Local>): (entries: seq<ZipEntry>)
    requires |locals| == |items|
  {
    seq(|items|, k requires 0 <= k < |items| => EntryOf(items[k], locals[k]))
  }

  lemma HeaderPlaced(file: seq<Byte>, at: nat, i: Item, l: Local)
    requires AllFit(ItemFields(i)) && LiesAt(file, i.localAt, LocalFields(l))
    requires at + |Header(i)| <= |file| && file[at..at + |Header(i)|] == Header(i)
    ensures Placed(file, at, i, l) && |Header(i)| == CENHDR + |i.name| + |i.extra| + |i.comment|
  {
    hide Packed, Offset, Fitting;
    ItemOffsets(i);
    var h := Header(i);
    SliceOfSlice(file, at, |h|, 0, CENHDR);
    SliceOfSlice(file, at, |h|, CENHDR, CENHDR + |i.name|);
    assert h[0..CENHDR] == Packed(ItemFields(i));
    assert h[CENHDR..CENHDR + |i.name|] == i.name;
  }

  /** The first headers lie where all of them do. */
  lemma {:induction false} FrontLies(file: seq<Byte>, at: nat, items: seq<Item>, k: nat)
    requires k <= |items|
    requires at + |Headers(items)| <= |file| && file[at..at + |Headers(items)|] == Headers(items)
    ensures at + |Headers(items[..k])| <= |file|
    ensures file[at..at + |Headers(items[..k])|] == Headers(items[..k])
    decreases |items|
  {
    hide Header;
    if k == |items| {
      assert items[..k] == items;
    } else {
      var front := items[..|items| - 1];
      SliceOfSlice(file, at, |Headers(items)|, 0, |Headers(front)|);
      assert Headers(items)[0..|Headers(front)|] == Headers(front);
      FrontLies(file, at, front, k);
      assert front[..k] == items[..k];
    }
  }

  lemma SplitHeaders(file: seq<Byte>, at: nat, items: seq<Item>, k: nat)
    requires k < |items| && at + |Headers(items[..k + 1])| <= |file|
    requires file[at..at + |Headers(items[..k + 1])|] == Headers(items[..k + 1])
    ensures var from := at + |Headers(items[..k])|;
            && from + |Header(items[k])| <= |file| && file[from..from + |Header(items[k])|] == Header(items[k])
            && at + |Headers(items[..k + 1])| == from + |Header(items[k])|
  {
    hide Header;
    var all, front := items[..k + 1], items[..k];
    assert all[..k] == front;
    SliceOfSlice(file, at, |Headers(all)|, |Headers(front)|, |Headers(all)|);
    assert Headers(all)[|Headers(front)|..|Headers(all)|] == Header(items[k]);
  }

  /** All the headers are read back, one after the other. */
  lemma {:induction false} DirectoryReadBack(file: seq<Byte>, at: nat, items: seq<Item>, locals: seq<Local>, n: nat)
    requires HasLocals(file, items, locals) && AllAcceptable(file, items, locals) && n <= |items|
    requires at + |Headers(items[..n])| <= |file| && file[at..at + |Headers(items[..n])|] == Headers(items[..n])
    ensures Directory(file, at, n) == Some((Entries(items[..n], locals[..n]), at + |Headers(items[..n])|))
  {
    hide EntryAt, Header, Headers, LiesAt, Acceptable, EntryOf, AllFit;
    if n == 0 {
      NoHeaders(items, locals);
    } else {
      var i, l := items[n - 1], locals[n - 1];
      FrontLies(file, at, items[..n], n - 1);
      assert items[..n][..n - 1] == items[..n - 1];
      SplitHeaders(file, at, items, n - 1);
      DirectoryReadBack(file, at, items, locals, n - 1);
      HeaderPlaced(file, at + |Headers(items[..n - 1])|, i, l);
      EntryReadBack(file, at + |Headers(items[..n - 1])|, i, l);
      assert Entries(items[..n], locals[..n]) == Entries(items[..n - 1], locals[..n - 1]) + [EntryOf(i, l)];
    }
  }

  lemma NoHeaders(items: seq<Item>, locals: seq<Local>)
    ensures Headers(items[..0]) == [] && Entries(items[..0], locals[..0]) == []
  {
  }

  /** An entry that is not acceptable spoils the directory. */
  lemma {:induction false} DirectoryRefused(file: seq<Byte>, at: nat, items: seq<Item>, locals: seq<Local>, k: nat,
                                            n: nat)
    requires HasLocals(file, items, locals) && k < n <= |items| && !Acceptable(file, items[k], locals[k])
    requires forall j :: 0 <= j < k ==> Acceptable(file, items[j], locals[j])
    requires at + |Headers(items)| <= |file| && file[at..at + |Headers(items)|] == Headers(items)
    ensures Directory(file, at, n).None?
    decreases n
  {
    hide EntryAt, Header, Headers, LiesAt, Acceptable, EntryOf, AllFit;
    if n - 1 > k {
      DirectoryRefused(file, at, items, locals, k, n - 1);
    } else {
      FrontLies(file, at, items, k + 1);
      FrontLies(file, at, items, k);
      SplitHeaders(file, at, items, k);
      LocalsFront(file, items, locals, k);
      assert items[..k][..k] == items[..k];
      DirectoryReadBack(file, at, items[..k], locals[..k], k);
      HeaderPlaced(file, at + |Headers(items[..k])|, items[k], locals[k]);
      EntryReadBack(file, at + |Headers(items[..k])|, items[k], locals[k]);
    }
  }

  lemma LocalsFront(file: seq<Byte>, items: seq<Item>, locals: seq<Local>, k: nat)
    requires HasLocals(file, items, locals) && k <= |items|
    requires forall j :: 0 <= j < k ==> Acceptable(file, items[j], locals[j])
    ensures HasLocals(file, items[..k], locals[..k]) && AllAcceptable(file, items[..k], locals[..k])
  {
    hide Acceptable, LiesAt, AllFit;
  }

  /** The end of central directory record. */
  datatype End = End(disk: nat, dirDisk: nat, here: nat, total: nat, size: nat, offset: nat, comment: seq<Byte>)

  function EndFields(e: End): (fields: seq<Field>) {
    [Field(0x06054b50, 4), Field(e.disk, 2), Field(e.dirDisk, 2), Field(e.here, 2), Field(e.total, 2), Field(e.size, 4),
     Field(e.offset, 4), Field(|e.comment|, 2)]
  }

  lemma EndRead(file: seq<Byte>, at: nat, e: End)
    requires LiesAt(file, at, EndFields(e))
    ensures at + ENDHDR <= |file| && MarkerAt(file, at)
    ensures Get2LE(file, at + 8) == e.here && Get4LE(file, at + 16) == e.offset
  {
    hide LiesAt, Packed, Get2LE, Get4LE;
    var f := EndFields(e);
    PackedSize(f);
    assert Offset(f, 1) == 4 && Offset(f, 2) == 6 && Offset(f, 3) == 8;
    assert Offset(f, 4) == 10 && Offset(f, 5) == 12 && Offset(f, 6) == 16;
    assert Offset(f, 7) == 20 && Offset(f, 8) == 22;
    LiesInFile(file, at, f);
    Read(file, at, f, 0);
    Read(file, at, f, 3);
    Read(file, at, f, 6);
    Signature(file, at);
  }

  /**
   An archive: local headers and data, the headers of the items, and the end record, behind whose beginning no other one
   begins that would have room.
   */
  ghost predicate IsArchive(file: seq<Byte>, front: seq<Byte>, items: seq<Item>, locals: seq<Local>, e: End) {
    && file == front + Headers(items) + Packed(EndFields(e)) + e.comment
    && AllFit(EndFields(e)) && e.here == |items| > 0 && e.offset == |front|
    && |file| >= 4 && file[..4] == LOCSIG && HasLocals(file, items, locals)
    && forall k :: |front| + |Headers(items)| < k <= |file| - ENDHDR ==> !MarkerAt(file, k)
  }

  lemma ArchiveRecord(file: seq<Byte>, front: seq<Byte>, items: seq<Item>, locals: seq<Local>, e: End)
    requires IsArchive(file, front, items, locals, e)
    ensures var p := |front| + |Headers(items)|;
            && IsLastMarker(file, p) && Get2LE(file, p + 8) == |items| && Get4LE(file, p + 16) == |front| < |file|
    ensures |front| + |Headers(items)| <= |file| && |file| >= ENDHDR
    ensures file[|front|..|front| + |Headers(items)|] == Headers(items)
  {
    hide Headers, Packed, Get2LE, Get4LE, HasLocals, MarkerAt;
    var p := |front| + |Headers(items)|;
    assert file[p..p + |Packed(EndFields(e))|] == Packed(EndFields(e));
    EndRead(file, p, e);
  }

  /** The directory of such an archive: its entries, or, if one of them is not acceptable, nothing. */
  lemma ArchiveDirectory(file: seq<Byte>, at: nat, items: seq<Item>, locals: seq<Local>)
    requires HasLocals(file, items, locals)
    requires at + |Headers(items)| <= |file| && file[at..at + |Headers(items)|] == Headers(items)
    ensures AllAcceptable(file, items, locals) ==>
              Directory(file, at, |items|) == Some((Entries(items, locals), at + |Headers(items)|))
    ensures !AllAcceptable(file, items, locals) ==> Directory(file, at, |items|).None?
  {
    hide Acceptable, Directory, Headers, Entries, LiesAt, AllFit;
    if AllAcceptable(file, items, locals) {
      assert items[..|items|] == items && locals[..|locals|] == locals;
      DirectoryReadBack(file, at, items, locals, |items|);
    } else {
      var k := FirstRefused(file, items, locals, 0);
      DirectoryRefused(file, at, items, locals, k, |items|);
    }
  }

  ghost function FirstRefused(file: seq<Byte>, items: seq<Item>, locals: seq<Local>, from: nat): (k: nat)
    requires |locals| == |items| && from <= |items| && !AllAcceptable(file, items, locals)
    requires forall j :: 0 <= j < from ==> Acceptable(file, items[j], locals[j])
    ensures k < |items| && !Acceptable(file, items[k], locals[k])
    ensures forall j :: 0 <= j < k ==> Acceptable(file, items[j], locals[j])
    decreases |items| - from
  {
    if from < |items| && Acceptable(file, items[from], locals[from]) then FirstRefused(file, items, locals, from + 1)
    else from
  }

  lemma OneLastMarker(file: seq<Byte>, p: int, q: int)
    requires IsLastMarker(file, p) && IsLastMarker(file, q)
    ensures p == q
  {
    hide MarkerAt;
  }

  /** Such an archive is opened exactly if all its entries are acceptable, and then it holds exactly these. */
  method OpenLaidOut(file: seq<Byte>, ghost front: seq<Byte>, ghost items: seq<Item>, ghost locals: seq<Local>,
                     ghost e: End)
      returns (archive: ZipArchive?)
    requires IsArchive(file, front, items, locals, e)
    ensures archive != null <==> AllAcceptable(file, items, locals)
    ensures archive != null ==>
              fresh(archive) && archive.Valid() && multiset(archive.pEntries[..]) == multiset(Entries(items, locals))
  {
    hide Headers, Packed, Get2LE, Get4LE, HasLocals, IsLastMarker, Directory, Sorted, Names, Indexes, NameHash, Entries,
         AllAcceptable, AllFit;
    archive := OpenArchive(file);
    ArchiveRecord(file, front, items, locals, e);
    ArchiveDirectory(file, |front|, items, locals);
    ghost var p := |front| + |Headers(items)|;
    if archive != null {
      ghost var q :| RecordOk(file, q) && ListsDirectory(file, q, archive.pEntries[..]);
      OneLastMarker(file, p, q);
    }
    if AllAcceptable(file, items, locals) {
      assert RecordOk(file, p);
    }
  }
}
