/** The container imgdiff writes and imgpatch parses: records with absolute patch offsets, then the patches. */
module ImgFile {
  import opened Common
  import opened LittleEndian
  import opened ImgPatch
  import opened Chunks
  import BsPatch
  import BsDiff

  /** A target chunk with the patch made for it. */
  datatype Item = Item(chunk: Chunk, patch: seq<Byte>)

  function KindCode(k: Kind): (r: int) {
    match k
    case Normal => CHUNK_NORMAL
    case Deflate => CHUNK_DEFLATE
    case Raw => CHUNK_RAW
  }

  function WriteParams(p: Params): (r: seq<Byte>)
    ensures |r| == 20
  {
    Write4(p.level) + Write4(p.deflateMethod) + Write4(p.windowBits) + Write4(p.memLevel) + Write4(p.strategy)
  }

  /** The fields of a chunk whose patch begins at `offset`, after the kind. */
  function Fields(item: Item, offset: nat): (r: seq<Byte>) {
    var c := item.chunk;
    match c.kind
    case Normal => Write8(c.sourceStart) + Write8(c.sourceLen) + Write8(offset)
    case Deflate =>
      Write8(c.sourceStart) + Write8(c.sourceLen) + Write8(offset) +
      Write8(c.sourceUncompressedLen) + Write8(c.len) + WriteParams(c.params)
    case Raw => Write4(|item.patch|) + item.patch
  }

  /** The header record of a chunk. */
  function Record(item: Item, offset: nat): (r: seq<Byte>)
    ensures |r| == RecordSize(item)
  {
    Write4(KindCode(item.chunk.kind)) + Fields(item, offset)
  }

  /** The sizes added up for total_header_size. */
  function RecordSize(item: Item): (n: nat) {
    4 + match item.chunk.kind
        case Normal => 8 * 3
        case Deflate => 8 * 5 + 4 * 5
        case Raw => 4 + |item.patch|
  }

  /** The patch as it is appended after the records; a raw chunk has none. */
  function Appended(item: Item): (bytes: seq<Byte>) {
    if item.chunk.kind.Raw? then [] else item.patch
  }

  function HeaderSize(items: seq<Item>): (n: nat) {
    if items == [] then HEADER_SIZE else HeaderSize(items[..|items| - 1]) + RecordSize(items[|items| - 1])
  }

  function Patches(items: seq<Item>): (bytes: seq<Byte>) {
    if items == [] then [] else Patches(items[..|items| - 1]) + Appended(items[|items| - 1])
  }

  /** The file header and the records, when the first patch begins at `base`. */
  function Records(items: seq<Item>, count: int, base: nat): (r: seq<Byte>)
    ensures |r| == HeaderSize(items)
  {
    if items == [] then MAGIC + Write4(count)
    else
      var front := items[..|items| - 1];
      Records(front, count, base) + Record(items[|items| - 1], base + |Patches(front)|)
  }

  /** The whole file. */
  function File(items: seq<Item>): (bytes: seq<Byte>) {
    Records(items, |items|, HeaderSize(items)) + Patches(items)
  }

  /** What a chunk must have so that imgpatch rebuilds the bytes it stands for. */
  ghost predicate Rebuilds(zlib: Zlib, unzip: seq<Byte> -> seq<Byte>, src: seq<Byte>, tgt: seq<Byte>, item: Item) {
    var c := item.chunk;
    && Describes(zlib, tgt, c)
    && match c.kind
       case Raw => item.patch == RawBytes(tgt, c)
       case Normal =>
         && c.sourceStart + c.sourceLen <= |src|
         && BsDiff.IsPatch(unzip, src[c.sourceStart..c.sourceStart + c.sourceLen], RawBytes(tgt, c), item.patch)
       case Deflate =>
         && c.sourceStart + c.sourceLen <= |src|
         && var i := zlib.inflate(src[c.sourceStart..c.sourceStart + c.sourceLen]);
         && i.Some? && |i.value.data| == c.sourceUncompressedLen
         && BsDiff.IsPatch(unzip, i.value.data, c.data.bytes, item.patch)
         && zlib.deflate(c.params, c.data.bytes) == RawBytes(tgt, c)
         && Small(c.params) && c.len < OFF_T_LIMIT && c.sourceUncompressedLen < OFF_T_LIMIT
  }

  predicate Int(x: int) { -INT_LIMIT <= x < INT_LIMIT }

  predicate Small(p: Params) {
    Int(p.level) && Int(p.deflateMethod) && Int(p.windowBits) && Int(p.memLevel) && Int(p.strategy)
  }

  lemma Parts2<T>(x: seq<T>, a: seq<T>, b: seq<T>)
    requires x == a + b
    ensures x[..|a|] == a && x[|a|..] == b
  {
  }

  lemma ParamsRead(p: Params)
    requires Small(p)
    ensures ReadParams(WriteParams(p)) == p
  {
    hide Write4, Read4;
    var r := WriteParams(p);
    assert r[..4] == Write4(p.level) && r[4..8] == Write4(p.deflateMethod) && r[8..12] == Write4(p.windowBits);
    assert r[12..16] == Write4(p.memLevel) && r[16..20] == Write4(p.strategy);
  }

  /** The item's patch begins at `offset` in `file`. */
  predicate PatchAt(file: seq<Byte>, offset: nat, patch: seq<Byte>) {
    offset + |patch| <= |file| && file[offset..offset + |patch|] == patch
  }

  lemma PatchApplies(unzip: seq<Byte> -> seq<Byte>, text: seq<Byte>, target: seq<Byte>, patch: seq<Byte>,
                     file: seq<Byte>, offset: nat)
    requires BsDiff.IsPatch(unzip, text, target, patch) && PatchAt(file, offset, patch)
    ensures BsPatch.PatchMem(unzip, text, file, offset) == BsPatch.Done(target)
  {
    hide BsPatch.PatchMem;
    var before, after := file[..offset], file[offset + |patch|..];
    assert before + patch + after == file;
  }

  lemma NormalFields(item: Item, offset: nat)
    requires item.chunk.kind.Normal?
    ensures var f, c := Fields(item, offset), item.chunk;
            && |f| == 24 && f[..8] == Write8(c.sourceStart) && f[8..16] == Write8(c.sourceLen)
            && f[16..24] == Write8(offset)
  {
    hide Write8;
  }

  lemma DeflateFields(item: Item, offset: nat)
    requires item.chunk.kind.Deflate?
    ensures var f, c := Fields(item, offset), item.chunk;
            |f| == 60 && f[..8] == Write8(c.sourceStart) && f[8..16] == Write8(c.sourceLen) &&
            f[16..24] == Write8(offset) && f[24..32] == Write8(c.sourceUncompressedLen) &&
            f[40..60] == WriteParams(c.params)
  {
    hide Write8, WriteParams;
    var c := item.chunk;
    var head := Write8(c.sourceStart) + Write8(c.sourceLen) + Write8(offset);
    var f := Fields(item, offset);
    assert f == head + (Write8(c.sourceUncompressedLen) + (Write8(c.len) + WriteParams(c.params)));
  }

  /** The record found at `pos`, taken apart. */
  lemma RecordAt(item: Item, file: seq<Byte>, pos: nat, offset: nat)
    requires pos + RecordSize(item) <= |file| && file[pos..pos + RecordSize(item)] == Record(item, offset)
    ensures file[pos..pos + 4] == Write4(KindCode(item.chunk.kind))
    ensures file[pos + 4..pos + RecordSize(item)] == Fields(item, offset)
  {
    hide Write4, Fields;
    var r := Record(item, offset);
    Parts2(r, Write4(KindCode(item.chunk.kind)), Fields(item, offset));
    assert file[pos..pos + 4] == file[pos..pos + RecordSize(item)][..4];
    assert file[pos + 4..pos + RecordSize(item)] == file[pos..pos + RecordSize(item)][4..];
  }

  lemma ReadNormal(zlib: Zlib, unzip: seq<Byte> -> seq<Byte>, src: seq<Byte>, tgt: seq<Byte>, item: Item,
                   file: seq<Byte>, pos: nat, offset: nat)
    requires item.chunk.kind.Normal? && Rebuilds(zlib, unzip, src, tgt, item)
    requires pos + RecordSize(item) <= |file| && file[pos..pos + RecordSize(item)] == Record(item, offset)
    requires PatchAt(file, offset, item.patch) && |file| < OFF_T_LIMIT && |src| < OFF_T_LIMIT
    ensures ChunkAt(zlib, unzip, src, file, pos) == Emit(RawBytes(tgt, item.chunk), pos + RecordSize(item))
  {
    hide Record, Fields, Write4, Write8, Read4, Read8, BsPatch.PatchMem, BsDiff.IsPatch;
    var c := item.chunk;
    RecordAt(item, file, pos, offset);
    NormalFields(item, offset);
    PatchApplies(unzip, src[c.sourceStart..c.sourceStart + c.sourceLen], RawBytes(tgt, c), item.patch, file, offset);
  }

  lemma ReadRaw(zlib: Zlib, unzip: seq<Byte> -> seq<Byte>, src: seq<Byte>, tgt: seq<Byte>, item: Item,
                file: seq<Byte>, pos: nat, offset: nat)
    requires item.chunk.kind.Raw? && Rebuilds(zlib, unzip, src, tgt, item)
    requires pos + RecordSize(item) <= |file| && file[pos..pos + RecordSize(item)] == Record(item, offset)
    requires |file| < INT_LIMIT
    ensures ChunkAt(zlib, unzip, src, file, pos) == Emit(RawBytes(tgt, item.chunk), pos + RecordSize(item))
  {
    hide Record, Write4, Write8, Read4, Read8, BsPatch.PatchMem, BsDiff.IsPatch;
    RecordAt(item, file, pos, offset);
    var n := pos + RecordSize(item);
    Parts2(Fields(item, offset), Write4(|item.patch|), item.patch);
    assert file[pos + 4..pos + 8] == file[pos + 4..n][..4];
    assert file[pos + 8..n] == file[pos + 4..n][4..];
  }

  lemma ReadDeflate(zlib: Zlib, unzip: seq<Byte> -> seq<Byte>, src: seq<Byte>, tgt: seq<Byte>, item: Item,
                    file: seq<Byte>, pos: nat, offset: nat)
    requires item.chunk.kind.Deflate? && Rebuilds(zlib, unzip, src, tgt, item)
    requires pos + RecordSize(item) <= |file| && file[pos..pos + RecordSize(item)] == Record(item, offset)
    requires PatchAt(file, offset, item.patch) && |file| < OFF_T_LIMIT && |src| < OFF_T_LIMIT
    ensures ChunkAt(zlib, unzip, src, file, pos) == Emit(RawBytes(tgt, item.chunk), pos + RecordSize(item))
  {
    hide Record, Fields, Write4, Write8, Read4, Read8, BsPatch.PatchMem, BsDiff.IsPatch, WriteParams, ReadParams;
    var c := item.chunk;
    RecordAt(item, file, pos, offset);
    DeflateFields(item, offset);
    ParamsRead(c.params);
    PatchApplies(unzip, zlib.inflate(src[c.sourceStart..c.sourceStart + c.sourceLen]).value.data, c.data.bytes,
                 item.patch, file, offset);
  }

  /** imgpatch reads back the record written for a chunk, and rebuilds the bytes the chunk stands for. */
  lemma ReadRecord(zlib: Zlib, unzip: seq<Byte> -> seq<Byte>, src: seq<Byte>, tgt: seq<Byte>, item: Item,
                   file: seq<Byte>, pos: nat, offset: nat)
    requires Rebuilds(zlib, unzip, src, tgt, item)
    requires pos + RecordSize(item) <= |file| && file[pos..pos + RecordSize(item)] == Record(item, offset)
    requires item.chunk.kind.Raw? || PatchAt(file, offset, item.patch)
    requires |file| < INT_LIMIT && |src| < OFF_T_LIMIT
    ensures ChunkAt(zlib, unzip, src, file, pos) == Emit(RawBytes(tgt, item.chunk), pos + RecordSize(item))
  {
    hide Record, Rebuilds, ChunkAt, PatchAt;
    match item.chunk.kind
    case Normal => ReadNormal(zlib, unzip, src, tgt, item, file, pos, offset);
    case Raw => ReadRaw(zlib, unzip, src, tgt, item, file, pos, offset);
    case Deflate => ReadDeflate(zlib, unzip, src, tgt, item, file, pos, offset);
  }

  lemma {:induction false} RecordsGrow(items: seq<Item>, i: nat, count: int, base: nat)
    requires i <= |items|
    ensures Records(items[..i], count, base) <= Records(items, count, base)
    decreases |items| - i
  {
    if i < |items| {
      RecordsGrow(items, i + 1, count, base);
      assert items[..i + 1][..i] == items[..i];
    } else {
      assert items[..i] == items;
    }
  }

  lemma {:induction false} PatchesGrow(items: seq<Item>, i: nat)
    requires i <= |items|
    ensures Patches(items[..i]) <= Patches(items)
    decreases |items| - i
  {
    if i < |items| {
      PatchesGrow(items, i + 1);
      assert items[..i + 1][..i] == items[..i];
    } else {
      assert items[..i] == items;
    }
  }

  lemma PrefixPart<T>(a: seq<T>, b: seq<T>, whole: seq<T>, n: nat)
    requires a + b <= whole && n == |a|
    ensures n + |b| <= |whole| && whole[n..n + |b|] == b
  {
    assert whole[..|a + b|] == a + b;
    assert whole[n..n + |b|] == whole[..|a + b|][n..];
  }

  lemma PrefixTwice<T>(a: seq<T>, b: seq<T>, c: seq<T>)
    requires a <= b <= c
    ensures a <= c
  {
    assert a == b[..|a|] == c[..|b|][..|a|] == c[..|a|];
  }

  lemma RecordsNext(items: seq<Item>, i: nat, count: int, base: nat)
    requires i < |items|
    ensures Records(items[..i + 1], count, base)
            == Records(items[..i], count, base) + Record(items[i], base + |Patches(items[..i])|)
    ensures HeaderSize(items[..i + 1]) == HeaderSize(items[..i]) + RecordSize(items[i])
    ensures Patches(items[..i + 1]) == Patches(items[..i]) + Appended(items[i])
  {
    hide Record, RecordSize, Appended, Records, HeaderSize, Patches;
    var next := items[..i + 1];
    assert |next| == i + 1 && next[i] == items[i] && next[..|next| - 1] == items[..i];
    RecordsSnoc(next, count, base);
  }

  lemma RecordsSnoc(items: seq<Item>, count: int, base: nat)
    requires items != []
    ensures var front, last := items[..|items| - 1], items[|items| - 1];
            && Records(items, count, base) == Records(front, count, base) + Record(last, base + |Patches(front)|)
            && HeaderSize(items) == HeaderSize(front) + RecordSize(last)
            && Patches(items) == Patches(front) + Appended(last)
  {
    hide Record, RecordSize, Appended;
  }

  lemma RecordInFile(items: seq<Item>, i: nat)
    requires i < |items|
    ensures var file, pos := File(items), HeaderSize(items[..i]);
            && pos + RecordSize(items[i]) == HeaderSize(items[..i + 1]) <= |file|
            && file[pos..pos + RecordSize(items[i])]
               == Record(items[i], HeaderSize(items) + |Patches(items[..i])|)
  {
    hide Record, RecordSize, Records, HeaderSize, Patches;
    var n, base := |items|, HeaderSize(items);
    RecordsNext(items, i, n, base);
    RecordsGrow(items, i + 1, n, base);
    PrefixTwice(Records(items[..i + 1], n, base), Records(items, n, base), File(items));
    PrefixPart(Records(items[..i], n, base), Record(items[i], base + |Patches(items[..i])|), File(items),
               HeaderSize(items[..i]));
  }

  lemma PatchInFile(items: seq<Item>, i: nat)
    requires i < |items| && !items[i].chunk.kind.Raw?
    ensures PatchAt(File(items), HeaderSize(items) + |Patches(items[..i])|, items[i].patch)
  {
    hide Record, RecordSize, Records, HeaderSize, Patches;
    var head := Records(items, |items|, HeaderSize(items));
    RecordsNext(items, i, |items|, HeaderSize(items));
    PatchesGrow(items, i + 1);
    PrefixAfter(head, Patches(items[..i + 1]), Patches(items));
    assert head + Patches(items[..i]) + items[i].patch == head + Patches(items[..i + 1]);
    PrefixPart(head + Patches(items[..i]), items[i].patch, File(items), HeaderSize(items) + |Patches(items[..i])|);
  }

  lemma PrefixAfter<T>(a: seq<T>, b: seq<T>, c: seq<T>)
    requires b <= c
    ensures a + b <= a + c
  {
    assert (a + c)[..|a| + |b|] == a + c[..|b|];
  }

  function ChunksOf(items: seq<Item>): (cs: seq<Chunk>)
    ensures |cs| == |items| && forall i :: 0 <= i < |items| ==> cs[i] == items[i].chunk
  {
    seq(|items|, i requires 0 <= i < |items| => items[i].chunk)
  }

  /** The image from chunk `i` on begins with the bytes that chunk stands for. */
  lemma NextChunk(zlib: Zlib, tgt: seq<Byte>, cs: seq<Chunk>, i: nat)
    requires Covers(zlib, tgt, cs) && i < |cs|
    ensures cs[i].start + RawLen(cs[i]) == Span(cs[..i + 1]) <= |tgt| && Span(cs[..i]) == cs[i].start
    ensures tgt[Span(cs[..i])..] == RawBytes(tgt, cs[i]) + tgt[Span(cs[..i + 1])..]
  {
    SpanNext(cs, i);
    assert cs[..|cs|] == cs;
    SpanMonotone(cs, i + 1, |cs|);
  }

  ghost predicate AllRebuild(zlib: Zlib, unzip: seq<Byte> -> seq<Byte>, src: seq<Byte>, tgt: seq<Byte>,
                             items: seq<Item>)
  {
    forall k :: 0 <= k < |items| ==> Rebuilds(zlib, unzip, src, tgt, items[k])
  }

  lemma {:induction false} ReadRecords(zlib: Zlib, unzip: seq<Byte> -> seq<Byte>, src: seq<Byte>, tgt: seq<Byte>,
                                       items: seq<Item>, i: nat)
    requires i <= |items| && |File(items)| < INT_LIMIT && |src| < OFF_T_LIMIT
    requires AllRebuild(zlib, unzip, src, tgt, items) && Covers(zlib, tgt, ChunksOf(items))
    ensures Span(ChunksOf(items)[..i]) <= |tgt|
    ensures ChunksAt(zlib, unzip, src, File(items), HeaderSize(items[..i]), |items| - i)
            == Image(tgt[Span(ChunksOf(items)[..i])..])
    decreases |items| - i
  {
    hide ChunkAt, Record, File, Rebuilds, Covers, HeaderSize;
    var cs := ChunksOf(items);
    if i < |items| {
      ReadRecords(zlib, unzip, src, tgt, items, i + 1);
      RecordInFile(items, i);
      if !items[i].chunk.kind.Raw? {
        PatchInFile(items, i);
      }
      ReadRecord(zlib, unzip, src, tgt, items[i], File(items), HeaderSize(items[..i]),
                 HeaderSize(items) + |Patches(items[..i])|);
      NextChunk(zlib, tgt, cs, i);
    } else {
      CoversAll(zlib, tgt, cs);
      assert cs[..i] == cs && tgt[|tgt|..] == [];
    }
  }

  lemma CoversAll(zlib: Zlib, tgt: seq<Byte>, cs: seq<Chunk>)
    requires Covers(zlib, tgt, cs)
    ensures Span(cs) == |tgt|
  {
  }

  lemma FileHeader(items: seq<Item>)
    ensures var file := File(items);
            HEADER_SIZE <= |file| && file[..8] == MAGIC && file[8..12] == Write4(|items|)
  {
    hide Record, Write4, HeaderSize;
    var file := File(items);
    RecordsGrow(items, 0, |items|, HeaderSize(items));
    assert items[..0] == [];
    assert MAGIC + Write4(|items|) <= file;
    PrefixPart([], MAGIC, file, 0);
    PrefixPart(MAGIC, Write4(|items|), file, 8);
  }

  /** The file imgdiff writes for chunks that cover the target makes imgpatch emit exactly the target. */
  lemma FileRebuilds(zlib: Zlib, unzip: seq<Byte> -> seq<Byte>, src: seq<Byte>, tgt: seq<Byte>, items: seq<Item>)
    requires |File(items)| < INT_LIMIT && |src| < OFF_T_LIMIT && |items| < INT_LIMIT
    requires AllRebuild(zlib, unzip, src, tgt, items) && Covers(zlib, tgt, ChunksOf(items))
    ensures ImageOf(zlib, unzip, src, File(items)) == Image(tgt)
  {
    hide Record, Write4, Read4, File, AllRebuild, Covers, ChunksAt;
    FileHeader(items);
    ReadRecords(zlib, unzip, src, tgt, items, 0);
    assert items[..0] == [] && ChunksOf(items)[..0] == [] && tgt[0..] == tgt;
    assert HeaderSize([]) == HEADER_SIZE && Span([]) == 0;
  }
}
