/** imgdiff of applypatch/imgdiff.c in image mode: from two images to the patch file. */
module ImgDiff {
  import opened Common
  import opened LittleEndian
  import opened ImgPatch
  import opened Chunks
  import opened ImgFile
  import opened ReadImage
  import BsDiff
  import Triples

  /** Written: the patch file.  Refused: a nonzero exit.  Stuck, OutOfImage: as in ReadImage. */
  datatype Result = Written(file: seq<Byte>) | Refused | Stuck | OutOfImage

  const Z_DEFLATED := 8
  const Z_DEFAULT_STRATEGY := 0

  /** Compressing the chunk's data with its parameters gives back the bytes in the image. */
  ghost predicate Recompresses(zlib: Zlib, img: seq<Byte>, c: Chunk)
    requires Describes(zlib, img, c)
  {
    c.kind.Deflate? && zlib.deflate(c.params, c.data.bytes) == RawBytes(img, c) && Small(c.params)
  }

  function Standard(level: int): (params: Params) { Params(level, Z_DEFLATED, -15, 8, Z_DEFAULT_STRATEGY) }

  /** Compressing the data at level 6 or at level 9 gives back the bytes in the image. */
  ghost predicate Reproducible(zlib: Zlib, img: seq<Byte>, c: Chunk)
    requires c.kind.Deflate? && Describes(zlib, img, c)
  {
    || zlib.deflate(Standard(6), c.data.bytes) == RawBytes(img, c)
    || zlib.deflate(Standard(9), c.data.bytes) == RawBytes(img, c)
  }

  /**
   ReconstructDeflateChunk: find encoder parameters that reproduce the compressed bytes; only level 6 and level 9
   are tried.
   */
  method ReconstructDeflateChunk(zlib: Zlib, img: seq<Byte>, chunks: array<Chunk>, i: nat) returns (ok: bool)
    requires i < chunks.Length && chunks[i].kind.Deflate? && Describes(zlib, img, chunks[i])
    modifies chunks
    ensures exists p :: chunks[..] == old(chunks[..])[i := old(chunks[i]).(params := p)]
    ensures Describes(zlib, img, chunks[i]) && (ok ==> Recompresses(zlib, img, chunks[i]))
    ensures ok <==> Reproducible(zlib, img, old(chunks[i]))
  {
    ghost var c0, before := chunks[i], chunks[..];
    var level := 6;
    chunks[i] := chunks[i].(params := chunks[i].params.(level := level));
    while level <= 9
      invariant level == 6 || level == 9 || level == 12
      invariant chunks[..] == before[i := c0.(params := chunks[i].params)]
      invariant chunks[i] == c0.(params := chunks[i].params)
      invariant forall l :: (l == 6 || l == 9) && l < level ==>
                  zlib.deflate(Standard(l), c0.data.bytes) != RawBytes(img, c0)
      decreases 12 - level
    {
      var params := Standard(level);
      chunks[i] := chunks[i].(params := params);
      if zlib.deflate(params, chunks[i].data.bytes) == RawBytes(img, chunks[i]) {
        return true;
      }
      level := level + 3;
      chunks[i] := chunks[i].(params := params.(level := level));
    }
    return false;
  }

  /** AreChunksEqual for two deflate chunks: the compressed bytes are the same. */
  predicate SameDeflate(a: Chunk, imgA: seq<Byte>, b: Chunk, imgB: seq<Byte>)
    requires a.start + RawLen(a) <= |imgA| && b.start + RawLen(b) <= |imgB|
  {
    a.kind == b.kind && RawBytes(imgA, a) == RawBytes(imgB, b)
  }

  /** The deflate chunks among the first `n` can be recompressed. */
  ghost predicate Checked(zlib: Zlib, img: seq<Byte>, cs: seq<Chunk>, n: int) {
    forall j :: 0 <= j < n <= |cs| && cs[j].kind.Deflate? ==>
      Describes(zlib, img, cs[j]) && Recompresses(zlib, img, cs[j])
  }

  /** Two chunk lists that cover their images and have the same kinds. */
  ghost predicate Parallel(zlib: Zlib, src: seq<Byte>, tgt: seq<Byte>, ss: seq<Chunk>, ts: seq<Chunk>) {
    Covers(zlib, src, ss) && Covers(zlib, tgt, ts) && Shape(ss) == Shape(ts) && NoRaw(Shape(ts))
  }

  lemma UpdateCovers(zlib: Zlib, img: seq<Byte>, cs: seq<Chunk>, i: nat, c: Chunk)
    requires Covers(zlib, img, cs) && i < |cs| && Describes(zlib, img, c)
    requires c.start == cs[i].start && RawLen(c) == RawLen(cs[i])
    ensures Covers(zlib, img, cs[i := c]) && Shape(cs[i := c]) == Shape(cs)[i := c.kind]
  {
    TilesUpdate(zlib, img, cs, i, c);
    assert Shape(cs[i := c]) == Shape(cs)[i := c.kind];
  }

  lemma CoversDescribes(zlib: Zlib, img: seq<Byte>, cs: seq<Chunk>, i: nat)
    requires Covers(zlib, img, cs) && i < |cs|
    ensures Describes(zlib, img, cs[i])
  {
  }

  lemma CheckedUpdate(zlib: Zlib, img: seq<Byte>, cs: seq<Chunk>, i: nat, c: Chunk)
    requires Checked(zlib, img, cs, i) && i < |cs|
    requires c.kind.Deflate? ==> Describes(zlib, img, c) && Recompresses(zlib, img, c)
    ensures Checked(zlib, img, cs[i := c], i + 1)
  {
  }

  /** A pair of deflate chunks stays one if the target's can be reproduced and is not the same as the source's. */
  ghost predicate StaysDeflate(zlib: Zlib, src: seq<Byte>, tgt: seq<Byte>, s: Chunk, t: Chunk) {
    && Describes(zlib, src, s) && Describes(zlib, tgt, t) && t.kind.Deflate?
    && Reproducible(zlib, tgt, t) && !SameDeflate(t, tgt, s, src)
  }

  /**
   What becomes of a pair: it stays, with parameters that reproduce the target's chunk, or both become normal chunks.
   Pairs of normal chunks are as they were.
   */
  ghost predicate PairedWith(zlib: Zlib, src: seq<Byte>, tgt: seq<Byte>, s0: Chunk, t0: Chunk, s: Chunk, t: Chunk,
                             p: Params)
  {
    if StaysDeflate(zlib, src, tgt, s0, t0) then s == s0 && t == t0.(params := p)
    else if t0.kind.Deflate? then s == AsNormal(s0) && t == AsNormal(t0.(params := p))
    else s == s0 && t == t0
  }

  ghost predicate Paired(zlib: Zlib, src: seq<Byte>, tgt: seq<Byte>, s0: Chunk, t0: Chunk, s: Chunk, t: Chunk) {
    exists p :: PairedWith(zlib, src, tgt, s0, t0, s, t, p)
  }

  /** One round of the pairing loop. */
  method PairChunk(zlib: Zlib, src: seq<Byte>, tgt: seq<Byte>, ss: array<Chunk>, ts: array<Chunk>, n: nat, i: nat)
    requires ss != ts && i < n <= ss.Length && n <= ts.Length
    requires Parallel(zlib, src, tgt, ss[..n], ts[..n]) && Checked(zlib, tgt, ts[..n], i)
    modifies ss, ts
    ensures Parallel(zlib, src, tgt, ss[..n], ts[..n]) && Checked(zlib, tgt, ts[..n], i + 1)
    ensures ss[..] == old(ss[..])[i := ss[i]] && ts[..] == old(ts[..])[i := ts[i]]
    ensures ts[i].kind.Deflate? <==> StaysDeflate(zlib, src, tgt, old(ss[i]), old(ts[i]))
    ensures Paired(zlib, src, tgt, old(ss[i]), old(ts[i]), ss[i], ts[i])
  {
    hide Covers, Checked, Shape, Describes, Reproducible;
    ghost var ss0, ts0 := ss[..n], ts[..n];
    assert ss0[i] == ss[i] && ts0[i] == ts[i];
    CoversDescribes(zlib, src, ss0, i);
    CoversDescribes(zlib, tgt, ts0, i);
    if !ts[i].kind.Deflate? {
      CheckedUpdate(zlib, tgt, ts0, i, ts[i]);
      assert ts0[i := ts[i]] == ts0;
      assert PairedWith(zlib, src, tgt, ss[i], ts[i], ss[i], ts[i], ts[i].params);
      return;
    }
    assert Shape(ss0)[i] == Shape(ts0)[i];
    var ok := ReconstructDeflateChunk(zlib, tgt, ts, i);
    ghost var t := ts[i];
    ghost var p := t.params;
    assert t == ts0[i].(params := p);
    assert ts[..n] == ts0[i := t];
    SameRaw(ts0[i], t);
    UpdateCovers(zlib, tgt, ts0, i, t);
    DescribedInside(zlib, tgt, ts[i]);
    DescribedInside(zlib, src, ss[i]);
    if ok && !SameDeflate(ts[i], tgt, ss[i], src) {
      CheckedUpdate(zlib, tgt, ts0, i, t);
      assert Shape(ts0)[i := t.kind] == Shape(ts0);
      assert PairedWith(zlib, src, tgt, ss0[i], ts0[i], ss[i], ts[i], p);
    } else {
      ChangeDeflateChunkToNormal(ts, i);
      ChangeDeflateChunkToNormal(ss, i);
      AsNormalDescribes(zlib, tgt, t);
      AsNormalDescribes(zlib, src, ss0[i]);
      UpdateCovers(zlib, tgt, ts0, i, AsNormal(t));
      UpdateCovers(zlib, src, ss0, i, AsNormal(ss0[i]));
      assert ts[..n] == ts0[i := AsNormal(t)] && ss[..n] == ss0[i := AsNormal(ss0[i])];
      CheckedUpdate(zlib, tgt, ts0, i, AsNormal(t));
      assert PairedWith(zlib, src, tgt, ss0[i], ts0[i], ss[i], ts[i], p);
    }
  }

  lemma SameRaw(c: Chunk, d: Chunk)
    requires exists p :: d == c.(params := p)
    ensures d.start == c.start && RawLen(d) == RawLen(c)
  {
  }

  lemma DescribedInside(zlib: Zlib, img: seq<Byte>, c: Chunk)
    requires Describes(zlib, img, c)
    ensures c.start + RawLen(c) <= |img|
  {
  }

  lemma NothingChecked(zlib: Zlib, img: seq<Byte>, cs: seq<Chunk>)
    ensures Checked(zlib, img, cs, 0)
  {
  }

  /** The pairing loop: the lists stay parallel, and what stays deflated can be recompressed. */
  method PairChunks(zlib: Zlib, src: seq<Byte>, tgt: seq<Byte>, ss: array<Chunk>, ts: array<Chunk>, n: nat)
    requires ss != ts && n <= ss.Length && n <= ts.Length && Parallel(zlib, src, tgt, ss[..n], ts[..n])
    modifies ss, ts
    ensures Parallel(zlib, src, tgt, ss[..n], ts[..n]) && Checked(zlib, tgt, ts[..n], n)
    ensures forall k :: 0 <= k < n ==>
              && (ts[k].kind.Deflate? <==> StaysDeflate(zlib, src, tgt, old(ss[k]), old(ts[k])))
              && Paired(zlib, src, tgt, old(ss[k]), old(ts[k]), ss[k], ts[k])
  {
    hide Parallel, Checked, StaysDeflate, Paired;
    NothingChecked(zlib, tgt, ts[..n]);
    var i := 0;
    while i < n
      invariant 0 <= i <= n
      invariant Parallel(zlib, src, tgt, ss[..n], ts[..n]) && Checked(zlib, tgt, ts[..n], i)
      invariant ss[i..] == old(ss[i..]) && ts[i..] == old(ts[i..])
      invariant forall k :: 0 <= k < i ==>
                  && (ts[k].kind.Deflate? <==> StaysDeflate(zlib, src, tgt, old(ss[k]), old(ts[k])))
                  && Paired(zlib, src, tgt, old(ss[k]), old(ts[k]), ss[k], ts[k])
    {
      assert ss[i] == ss[i..][0] == old(ss[i]) && ts[i] == ts[i..][0] == old(ts[i]);
      PairChunk(zlib, src, tgt, ss, ts, n, i);
      i := i + 1;
    }
  }

  /** The runs of normal chunks are merged, and the deflate chunks are as they were. */
  ghost predicate MergedFrom(zlib: Zlib, img: seq<Byte>, cs: seq<Chunk>, ds: seq<Chunk>) {
    Covers(zlib, img, ds) && Shape(ds) == Compressed(Shape(cs)) && Deflates(ds) == Deflates(cs)
  }

  /**
   The merges on both lists.  They cannot go awry: parallel lists stay parallel.
   */
  method MergeBoth(ghost zlib: Zlib, ghost src: seq<Byte>, ghost tgt: seq<Byte>, ss: array<Chunk>, ts: array<Chunk>,
                   n: nat)
      returns (numSrc: nat, numTgt: nat)
    requires ss != ts && n <= ss.Length && n <= ts.Length
    requires Parallel(zlib, src, tgt, ss[..n], ts[..n]) && Checked(zlib, tgt, ts[..n], n)
    modifies ss, ts
    ensures numSrc == numTgt <= n
    ensures Parallel(zlib, src, tgt, ss[..numSrc], ts[..numTgt]) && Checked(zlib, tgt, ts[..numTgt], numTgt)
    ensures MergedFrom(zlib, src, old(ss[..n]), ss[..numSrc]) && MergedFrom(zlib, tgt, old(ts[..n]), ts[..numTgt])
  {
    hide Covers, Checked, Shape, Deflates;
    ghost var ts0 := ts[..n];
    CompressedNoRaw(Shape(ts0));
    numTgt := MergeAdjacentNormalChunks(ts, n, zlib, tgt);
    CheckedMerge(zlib, tgt, ts0, ts[..numTgt]);
    numSrc := MergeAdjacentNormalChunks(ss, n, zlib, src);
    assert |Shape(ss[..numSrc])| == numSrc && |Shape(ts[..numTgt])| == numTgt;
  }

  lemma CheckedMerge(zlib: Zlib, img: seq<Byte>, cs: seq<Chunk>, ds: seq<Chunk>)
    requires Checked(zlib, img, cs, |cs|) && Deflates(ds) == Deflates(cs)
    ensures Checked(zlib, img, ds, |ds|)
  {
    hide Deflates, Describes, Recompresses;
    DeflatesAre(cs);
    DeflatesAre(ds);
    forall j | 0 <= j < |ds| && ds[j].kind.Deflate?
      ensures Describes(zlib, img, ds[j]) && Recompresses(zlib, img, ds[j])
    {
      assert ds[j] in Deflates(ds);
      var i :| 0 <= i < |cs| && cs[i] == ds[j];
    }
  }

  /** The data a chunk's pointer and length select. */
  function Data(img: seq<Byte>, c: Chunk): (result: seq<Byte>)
    requires c.data.InImage? ==> c.data.offset + c.len <= |img|
  {
    match c.data
    case InImage(offset) => img[offset..offset + c.len]
    case Heap(bytes) => bytes
  }

  /**
   A normal chunk of no more than 160 bytes, or no longer than the patch that bsdiff makes for it, becomes raw; the
   others keep that patch, and are told where the source chunk lies.
   */
  ghost predicate Chosen(zip: seq<Byte> -> seq<Byte>, src: seq<Byte>, tgt: seq<Byte>, s: Chunk, t: Chunk, item: Item) {
    && (s.data.InImage? ==> s.data.offset + s.len <= |src|) && (t.data.InImage? ==> t.data.offset + t.len <= |tgt|)
    && if t.kind.Normal? && t.len <= 160 then item == Item(t.(kind := Raw), Data(tgt, t))
       else exists d :: ChosenWith(zip, src, tgt, s, t, item, d)
  }

  ghost predicate ChosenWith(zip: seq<Byte> -> seq<Byte>, src: seq<Byte>, tgt: seq<Byte>, s: Chunk, t: Chunk,
                             item: Item, d: seq<Byte>)
    requires s.data.InImage? ==> s.data.offset + s.len <= |src|
    requires t.data.InImage? ==> t.data.offset + t.len <= |tgt|
  {
    && BsDiff.IsDiffOf(Data(src, s), Data(tgt, t), zip, d)
    && item == if t.kind.Normal? && t.len <= |d| then Item(t.(kind := Raw), Data(tgt, t))
               else if t.kind.Normal? then Item(t.(sourceStart := s.start, sourceLen := s.len), d)
               else Item(t.(sourceStart := s.start, sourceLen := s.deflateLen, sourceUncompressedLen := s.len), d)
  }

  /**
   MakePatch: a bsdiff patch from the source chunk's data to the target chunk's, or the target bytes themselves
   when those are short, or no longer than the patch.
   */
  method MakePatch(src: seq<Byte>, tgt: seq<Byte>, s: Chunk, ts: array<Chunk>, i: nat,
                   zip: seq<Byte> -> seq<Byte>, ghost unzip: seq<Byte> -> seq<Byte>, ghost zlib: Zlib)
      returns (patch: seq<Byte>)
    requires i < ts.Length && s.kind == ts[i].kind && !s.kind.Raw?
    requires Describes(zlib, src, s) && Describes(zlib, tgt, ts[i]) && SelfDelimiting(zlib)
    requires ts[i].kind.Deflate? ==> Recompresses(zlib, tgt, ts[i])
    requires |src| < INT_LIMIT && |tgt| < INT_LIMIT && BsDiff.Bzip2(zip, unzip)
    modifies ts
    ensures ts[..] == old(ts[..])[i := ts[i]]
    ensures ts[i].start == old(ts[i]).start && RawLen(ts[i]) == RawLen(old(ts[i]))
    ensures Rebuilds(zlib, unzip, src, tgt, Item(ts[i], patch))
    ensures Chosen(zip, src, tgt, s, old(ts[i]), Item(ts[i], patch))
  {
    hide Rebuilds, Describes, Recompresses, SelfDelimiting, BsDiff.IsPatch, BsDiff.IsDiffOf, BsDiff.Bzip2;
    var t := ts[i];
    DataFits(zlib, src, s);
    DataFits(zlib, tgt, t);
    if t.kind.Normal? {
      RawRebuilds(zlib, unzip, src, tgt, t);
    }
    if t.kind.Normal? && t.len <= 160 {
      ts[i] := ts[i].(kind := Raw);
      return Data(tgt, t);
    }
    var file, I := BsDiff.BsDiff(Data(src, s), null, Data(tgt, t), zip, unzip);
    if t.kind.Normal? && t.len <= |file| {
      ts[i] := ts[i].(kind := Raw);
      assert ChosenWith(zip, src, tgt, s, t, Item(ts[i], Data(tgt, t)), file);
      return Data(tgt, t);
    }
    if t.kind.Normal? {
      NormalRebuilds(zlib, unzip, src, tgt, s, t, file);
      ts[i] := ts[i].(sourceStart := s.start, sourceLen := s.len);
    } else {
      DeflateRebuilds(zlib, unzip, src, tgt, s, t, file);
      ts[i] := ts[i].(sourceStart := s.start, sourceLen := s.deflateLen, sourceUncompressedLen := s.len);
    }
    assert ChosenWith(zip, src, tgt, s, t, Item(ts[i], file), file);
    return file;
  }

  lemma RawRebuilds(zlib: Zlib, unzip: seq<Byte> -> seq<Byte>, src: seq<Byte>, tgt: seq<Byte>, t: Chunk)
    requires t.kind.Normal? && Describes(zlib, tgt, t)
    ensures t.data.InImage? && t.data.offset + t.len <= |tgt|
    ensures t.start + RawLen(t) <= |tgt| && Data(tgt, t) == RawBytes(tgt, t)
    ensures Rebuilds(zlib, unzip, src, tgt, Item(t.(kind := Raw), Data(tgt, t)))
  {
  }

  lemma NormalRebuilds(zlib: Zlib, unzip: seq<Byte> -> seq<Byte>, src: seq<Byte>, tgt: seq<Byte>, s: Chunk, t: Chunk,
                       patch: seq<Byte>)
    requires s.kind.Normal? && t.kind.Normal? && Describes(zlib, src, s) && Describes(zlib, tgt, t)
    requires BsDiff.IsPatch(unzip, Data(src, s), Data(tgt, t), patch)
    ensures Rebuilds(zlib, unzip, src, tgt, Item(t.(sourceStart := s.start, sourceLen := s.len), patch))
  {
    hide BsDiff.IsPatch;
  }

  lemma DeflateRebuilds(zlib: Zlib, unzip: seq<Byte> -> seq<Byte>, src: seq<Byte>, tgt: seq<Byte>, s: Chunk, t: Chunk,
                        patch: seq<Byte>)
    requires s.kind.Deflate? && t.kind.Deflate? && Describes(zlib, src, s) && Describes(zlib, tgt, t)
    requires Recompresses(zlib, tgt, t) && s.len < INT_LIMIT && t.len < INT_LIMIT
    requires BsDiff.IsPatch(unzip, Data(src, s), Data(tgt, t), patch)
    ensures Rebuilds(zlib, unzip, src, tgt,
                     Item(t.(sourceStart := s.start, sourceLen := s.deflateLen, sourceUncompressedLen := s.len), patch))
  {
    hide BsDiff.IsPatch, Small;
  }

  lemma DataFits(zlib: Zlib, img: seq<Byte>, c: Chunk)
    requires Describes(zlib, img, c) && SelfDelimiting(zlib) && |img| < INT_LIMIT
    ensures c.data.InImage? ==> c.data.offset + c.len <= |img|
    ensures |Data(img, c)| == c.len < INT_LIMIT
  {
    if c.kind.Deflate? {
      assert zlib.inflate(img[c.start..c.start + c.deflateLen]).Some?;
    }
  }

  /** The patches made so far, with their chunks. */
  function ItemsOf(cs: seq<Chunk>, patches: seq<seq<Byte>>): (items: seq<Item>)
    requires |patches| <= |cs|
    ensures |items| == |patches|
  {
    seq(|patches|, i requires 0 <= i < |patches| => Item(cs[i], patches[i]))
  }

  /** The first `i` chunks have their patches; the others are as the pairing left them. */
  ghost predicate PatchedTo(zlib: Zlib, unzip: seq<Byte> -> seq<Byte>, src: seq<Byte>, tgt: seq<Byte>,
                            ss: seq<Chunk>, ts: seq<Chunk>, patches: seq<seq<Byte>>)
  {
    && |patches| <= |ts| == |ss|
    && Covers(zlib, src, ss) && Covers(zlib, tgt, ts)
    && (forall j :: |patches| <= j < |ts| ==> ts[j].kind == ss[j].kind && !ss[j].kind.Raw?)
    && (forall j :: |patches| <= j < |ts| && ts[j].kind.Deflate? ==> Recompresses(zlib, tgt, ts[j]))
    && AllRebuild(zlib, unzip, src, tgt, ItemsOf(ts, patches))
  }

  lemma PatchNext(zlib: Zlib, unzip: seq<Byte> -> seq<Byte>, src: seq<Byte>, tgt: seq<Byte>,
                  ss: seq<Chunk>, ts: seq<Chunk>, patches: seq<seq<Byte>>, t: Chunk, patch: seq<Byte>)
    requires PatchedTo(zlib, unzip, src, tgt, ss, ts, patches) && |patches| < |ts|
    requires t.start == ts[|patches|].start && RawLen(t) == RawLen(ts[|patches|])
    requires Rebuilds(zlib, unzip, src, tgt, Item(t, patch))
    ensures PatchedTo(zlib, unzip, src, tgt, ss, ts[|patches| := t], patches + [patch])
  {
    hide Rebuilds, Covers, Describes, Recompresses, Shape, AllRebuild;
    var i := |patches|;
    RebuildsDescribes(zlib, unzip, src, tgt, Item(t, patch));
    CoversDescribes(zlib, tgt, ts, i);
    UpdateCovers(zlib, tgt, ts, i, t);
    assert ItemsOf(ts[i := t], patches + [patch]) == ItemsOf(ts, patches) + [Item(t, patch)];
    AllRebuildSnoc(zlib, unzip, src, tgt, ItemsOf(ts, patches), Item(t, patch));
  }

  lemma AllRebuildSnoc(zlib: Zlib, unzip: seq<Byte> -> seq<Byte>, src: seq<Byte>, tgt: seq<Byte>, items: seq<Item>,
                       item: Item)
    requires AllRebuild(zlib, unzip, src, tgt, items) && Rebuilds(zlib, unzip, src, tgt, item)
    ensures AllRebuild(zlib, unzip, src, tgt, items + [item])
  {
    hide Rebuilds;
  }

  lemma RebuildsDescribes(zlib: Zlib, unzip: seq<Byte> -> seq<Byte>, src: seq<Byte>, tgt: seq<Byte>, item: Item)
    requires Rebuilds(zlib, unzip, src, tgt, item)
    ensures Describes(zlib, tgt, item.chunk)
  {
  }

  lemma PatchFacts(zlib: Zlib, unzip: seq<Byte> -> seq<Byte>, src: seq<Byte>, tgt: seq<Byte>,
                   ss: seq<Chunk>, ts: seq<Chunk>, patches: seq<seq<Byte>>)
    requires PatchedTo(zlib, unzip, src, tgt, ss, ts, patches) && |patches| < |ts|
    ensures |ss| == |ts|
    ensures var s, t := ss[|patches|], ts[|patches|];
            && s.kind == t.kind && !s.kind.Raw? && Describes(zlib, src, s) && Describes(zlib, tgt, t)
            && (t.kind.Deflate? ==> Recompresses(zlib, tgt, t))
  {
  }

  /** The loop that makes the patches. */
  method MakePatches(src: seq<Byte>, tgt: seq<Byte>, ss: array<Chunk>, ts: array<Chunk>, n: nat,
                     zip: seq<Byte> -> seq<Byte>, ghost unzip: seq<Byte> -> seq<Byte>, ghost zlib: Zlib)
      returns (patches: seq<seq<Byte>>)
    requires ss != ts && n <= ss.Length && n <= ts.Length && SelfDelimiting(zlib)
    requires PatchedTo(zlib, unzip, src, tgt, ss[..n], ts[..n], [])
    requires |src| < INT_LIMIT && |tgt| < INT_LIMIT && BsDiff.Bzip2(zip, unzip)
    modifies ts
    ensures |patches| == n
    ensures PatchedTo(zlib, unzip, src, tgt, ss[..n], ts[..n], patches)
    ensures forall i :: 0 <= i < n ==> Chosen(zip, src, tgt, ss[i], old(ts[i]), Item(ts[i], patches[i]))
  {
    hide PatchedTo, Rebuilds, SelfDelimiting, BsDiff.Bzip2, Chosen;
    patches := [];
    while |patches| < n
      invariant |patches| <= n && ss[..] == old(ss[..]) && ts[|patches|..] == old(ts[|patches|..])
      invariant PatchedTo(zlib, unzip, src, tgt, ss[..n], ts[..n], patches)
      invariant forall i :: 0 <= i < |patches| ==> Chosen(zip, src, tgt, ss[i], old(ts[i]), Item(ts[i], patches[i]))
    {
      var i := |patches|;
      ghost var ts0, all := ts[..n], ts[..];
      assert ts[i] == ts[i..][0] == old(ts[i]);
      PatchFacts(zlib, unzip, src, tgt, ss[..n], ts0, patches);
      var patch := MakePatch(src, tgt, ss[i], ts, i, zip, unzip, zlib);
      PatchNext(zlib, unzip, src, tgt, ss[..n], ts0, patches, ts[i], patch);
      assert ts[..n] == ts0[i := ts[i]];
      assert ts[..] == all[i := ts[i]] && ts[i + 1..] == all[i + 1..] == old(ts[i + 1..]);
      patches := patches + [patch];
    }
  }

  lemma ParallelPatches(zlib: Zlib, unzip: seq<Byte> -> seq<Byte>, src: seq<Byte>, tgt: seq<Byte>,
                        ss: seq<Chunk>, ts: seq<Chunk>)
    requires Parallel(zlib, src, tgt, ss, ts) && Checked(zlib, tgt, ts, |ts|)
    ensures PatchedTo(zlib, unzip, src, tgt, ss, ts, [])
  {
    hide Covers, Describes, Recompresses;
    assert |Shape(ss)| == |Shape(ts)|;
    forall j | 0 <= j < |ts| ensures ts[j].kind == ss[j].kind && !ss[j].kind.Raw? {
      assert Shape(ss)[j] == Shape(ts)[j];
    }
  }

  lemma ItemsAt(cs: seq<Chunk>, patches: seq<seq<Byte>>, i: nat)
    requires i < |patches| <= |cs|
    ensures ItemsOf(cs, patches)[i] == Item(cs[i], patches[i])
  {
  }

  lemma HeaderOfNone()
    ensures HeaderSize([]) == HEADER_SIZE
  {
  }

  /** The loop that adds up the record sizes. */
  method TotalHeaderSize(ts: array<Chunk>, n: nat, patches: seq<seq<Byte>>) returns (total: nat)
    requires n <= ts.Length && |patches| == n
    ensures total == HeaderSize(ItemsOf(ts[..n], patches))
  {
    hide ItemsOf, HeaderSize, Records, Patches;
    ghost var items := ItemsOf(ts[..n], patches);
    total := 12;
    assert items[..0] == [];
    HeaderOfNone();
    var i := 0;
    while i < n
      invariant 0 <= i <= n && total == HeaderSize(items[..i])
    {
      ItemsAt(ts[..n], patches, i);
      RecordsNext(items, i, n, 0);
      total := total + 4;
      match ts[i].kind {
        case Normal => total := total + 8 * 3;
        case Deflate => total := total + 8 * 5 + 4 * 5;
        case Raw => total := total + 4 + |patches[i]|;
      }
      i := i + 1;
    }
    assert items[..n] == items;
  }

  /** One record, and the offset of the next patch. */
  method WriteRecord(c: Chunk, patch: seq<Byte>, offset: nat) returns (record: seq<Byte>, next: nat)
    ensures record == Record(Item(c, patch), offset) && next == offset + |Appended(Item(c, patch))|
  {
    hide Write4, Write8, WriteParams;
    record, next := Write4(KindCode(c.kind)), offset;
    match c.kind {
      case Normal =>
        record := record + (Write8(c.sourceStart) + Write8(c.sourceLen) + Write8(offset));
        next := offset + |patch|;
      case Deflate =>
        record := record + (Write8(c.sourceStart) + Write8(c.sourceLen) + Write8(offset) +
                            Write8(c.sourceUncompressedLen) + Write8(c.len) + WriteParams(c.params));
        next := offset + |patch|;
      case Raw =>
        record := record + (Write4(|patch|) + patch);
    }
  }

  lemma RecordsOfNone(count: int, base: nat)
    ensures Records([], count, base) == MAGIC + Write4(count) && Patches([]) == []
  {
  }

  /** The loop that writes the records, with the offset of each patch. */
  method WriteRecords(ts: array<Chunk>, n: nat, patches: seq<seq<Byte>>, total: nat) returns (f: seq<Byte>)
    requires n <= ts.Length && |patches| == n
    ensures f == Records(ItemsOf(ts[..n], patches), n, total)
  {
    hide ItemsOf, Records, Patches, Record, HeaderSize, Appended, Write4;
    ghost var items := ItemsOf(ts[..n], patches);
    assert items[..0] == [];
    RecordsOfNone(n, total);
    var offset := total;
    f := MAGIC + Write4(n);
    var i := 0;
    while i < n
      invariant 0 <= i <= n && f == Records(items[..i], n, total)
      invariant offset == total + |Patches(items[..i])|
    {
      ItemsAt(ts[..n], patches, i);
      RecordsNext(items, i, n, total);
      var record, next := WriteRecord(ts[i], patches[i], offset);
      f := f + record;
      offset := next;
      i := i + 1;
    }
    assert items[..n] == items;
  }

  lemma AppendPatch(f0: seq<Byte>, done: seq<Byte>, item: Item)
    ensures f0 + (done + Appended(item)) == if item.chunk.kind.Raw? then f0 + done else f0 + done + item.patch
  {
    if item.chunk.kind.Raw? {
      assert done + [] == done;
    } else {
      assert f0 + (done + item.patch) == f0 + done + item.patch;
    }
  }

  /** The loop that appends the patches. */
  method WritePatches(ts: array<Chunk>, n: nat, patches: seq<seq<Byte>>, f0: seq<Byte>) returns (f: seq<Byte>)
    requires n <= ts.Length && |patches| == n
    ensures f == f0 + Patches(ItemsOf(ts[..n], patches))
  {
    hide ItemsOf, HeaderSize, Records, Patches, Appended;
    ghost var items := ItemsOf(ts[..n], patches);
    assert items[..0] == [];
    RecordsOfNone(n, 0);
    f := f0;
    assert f == f0 + [];
    var i := 0;
    while i < n
      invariant 0 <= i <= n && f == f0 + Patches(items[..i])
    {
      ItemsAt(ts[..n], patches, i);
      RecordsNext(items, i, n, 0);
      AppendPatch(f0, Patches(items[..i]), items[i]);
      if !ts[i].kind.Raw? {
        f := f + patches[i];
      }
      i := i + 1;
    }
    assert items[..n] == items;
  }

  lemma {:induction false} RecordsAreLong(items: seq<Item>)
    ensures HeaderSize(items) >= HEADER_SIZE + 4 * |items|
  {
    if items == [] {
    } else {
      RecordsAreLong(items[..|items| - 1]);
    }
  }

  lemma PatchedRebuilds(zlib: Zlib, unzip: seq<Byte> -> seq<Byte>, src: seq<Byte>, tgt: seq<Byte>,
                        ss: seq<Chunk>, ts: seq<Chunk>, patches: seq<seq<Byte>>)
    requires PatchedTo(zlib, unzip, src, tgt, ss, ts, patches) && |patches| == |ts| && |src| < INT_LIMIT
    requires |File(ItemsOf(ts, patches))| < INT_LIMIT
    ensures ImageOf(zlib, unzip, src, File(ItemsOf(ts, patches))) == Image(tgt)
  {
    hide AllRebuild, Covers, ImageOf, Records, HeaderSize, Patches;
    var items := ItemsOf(ts, patches);
    RecordsAreLong(items);
    assert ChunksOf(items) == ts;
    FileRebuilds(zlib, unzip, src, tgt, items);
  }

  /** The comparison of the two chunk structures. */
  method SameStructure(ss: array<Chunk>, numSrc: nat, ts: array<Chunk>, numTgt: nat) returns (same: bool)
    requires numSrc <= ss.Length && numTgt <= ts.Length
    ensures same <==> Shape(ss[..numSrc]) == Shape(ts[..numTgt])
  {
    if numSrc != numTgt {
      assert |Shape(ss[..numSrc])| == numSrc && |Shape(ts[..numTgt])| == numTgt;
      return false;
    }
    var i := 0;
    while i < numSrc
      invariant 0 <= i <= numSrc && forall k :: 0 <= k < i ==> ss[k].kind == ts[k].kind
    {
      if ss[i].kind != ts[i].kind {
        assert Shape(ss[..numSrc])[i] == ss[i].kind && Shape(ts[..numTgt])[i] == ts[i].kind;
        return false;
      }
      i := i + 1;
    }
    return true;
  }

  /** The images have as many gzip members, and if they have none then both are empty or neither is. */
  predicate SameMembers(zlib: Zlib, src: seq<Byte>, tgt: seq<Byte>) {
    var s, t := Members(zlib, src, 0), Members(zlib, tgt, 0);
    |s| == |t| && (s == [] ==> (src == [] <==> tgt == []))
  }

  lemma SameAlternating(zlib: Zlib, src: seq<Byte>, tgt: seq<Byte>)
    ensures SameMembers(zlib, src, tgt) <==>
              Alternating(|Members(zlib, src, 0)|, src != []) == Alternating(|Members(zlib, tgt, 0)|, tgt != [])
  {
    hide Members;
    var a, b := Alternating(|Members(zlib, src, 0)|, src != []), Alternating(|Members(zlib, tgt, 0)|, tgt != []);
    assert SameMembers(zlib, src, tgt) <==> |a| == |b|;
  }

  /**
   How an image is read, once runs of normal chunks are merged: normal and deflate chunks by turns cover it, and the
   deflate chunks are the inflated streams of its gzip members.
   */
  ghost predicate AsRead(zlib: Zlib, img: seq<Byte>, cs: seq<Chunk>) {
    && Covers(zlib, img, cs) && Shape(cs) == Alternating(|Members(zlib, img, 0)|, img != [])
    && BehindHeaders(zlib, img, Deflates(cs), Members(zlib, img, 0))
  }

  /** Both images cut into chunks, runs of normal chunks merged, and the structures compared. */
  method ReadBoth(src: seq<Byte>, tgt: seq<Byte>, zlib: Zlib)
      returns (status: Status, same: bool, ss: array<Chunk>, ts: array<Chunk>, numSrc: nat, numTgt: nat)
    requires SelfDelimiting(zlib)
    ensures fresh(ss) && fresh(ts) && ss != ts && numSrc <= ss.Length && numTgt <= ts.Length
    ensures status.Read? && same ==> numSrc == numTgt && Parallel(zlib, src, tgt, ss[..numTgt], ts[..numTgt])
    ensures status == if Verdict(zlib, src).Read? then Verdict(zlib, tgt) else Verdict(zlib, src)
    ensures status.Read? ==> (same <==> SameMembers(zlib, src, tgt))
    ensures status.Read? && same ==> AsRead(zlib, src, ss[..numSrc]) && AsRead(zlib, tgt, ts[..numTgt])
  {
    hide SelfDelimiting, Covers, NoRaw, Shape, Compressed, Deflates, Verdict, Members, Alternating, SameMembers,
         BehindHeaders;
    same, numSrc, numTgt := false, 0, 0;
    var srcList, tgtList;
    status, srcList := ReadImage.ReadImage(zlib, src);
    ss := new Chunk[|srcList|](i requires 0 <= i < |srcList| => srcList[i]);
    if !status.Read? {
      ts := new Chunk[0];
      return;
    }
    status, tgtList := ReadImage.ReadImage(zlib, tgt);
    ts := new Chunk[|tgtList|](i requires 0 <= i < |tgtList| => tgtList[i]);
    if !status.Read? {
      return;
    }
    assert ss[..|srcList|] == srcList && ts[..|tgtList|] == tgtList;
    CompressedNoRaw(Shape(tgtList));
    SameAlternating(zlib, src, tgt);
    numTgt := MergeAdjacentNormalChunks(ts, |tgtList|, zlib, tgt);
    numSrc := MergeAdjacentNormalChunks(ss, |srcList|, zlib, src);
    same := SameStructure(ss, numSrc, ts, numTgt);
    if same {
      assert |Shape(ss[..numSrc])| == numSrc && |Shape(ts[..numTgt])| == numTgt;
    }
  }

  /** The chunk lists after reading, pairing and merging, and what is written of the last. */
  datatype Stages = Stages(
    ss0: seq<Chunk>, ts0: seq<Chunk>, ss1: seq<Chunk>, ts1: seq<Chunk>, ss2: seq<Chunk>, ts2: seq<Chunk>,
    items: seq<Item>)

  ghost predicate StagesOf(zlib: Zlib, zip: seq<Byte> -> seq<Byte>, src: seq<Byte>, tgt: seq<Byte>, st: Stages) {
    && AsRead(zlib, src, st.ss0) && AsRead(zlib, tgt, st.ts0) && |st.ss0| == |st.ts0| == |st.ss1| == |st.ts1|
    && (forall k :: 0 <= k < |st.ts0| ==> Paired(zlib, src, tgt, st.ss0[k], st.ts0[k], st.ss1[k], st.ts1[k]))
    && MergedFrom(zlib, src, st.ss1, st.ss2) && MergedFrom(zlib, tgt, st.ts1, st.ts2)
    && |st.ss2| == |st.ts2| == |st.items|
    && forall k :: 0 <= k < |st.items| ==> Chosen(zip, src, tgt, st.ss2[k], st.ts2[k], st.items[k])
  }

  /** The file that imgdiff is to write for these images. */
  ghost predicate IsImageDiff(zlib: Zlib, zip: seq<Byte> -> seq<Byte>, src: seq<Byte>, tgt: seq<Byte>,
                              file: seq<Byte>)
  {
    exists st :: StagesOf(zlib, zip, src, tgt, st) && file == File(st.items)
  }

  /**
   imgdiff in image mode.  It writes a patch file exactly if both images can be read and have as many gzip members
   (then their kinds agree after the merges).  Applying that file (of less than 2 GiB, beyond which the 4-byte
   fields wrap) to the source image gives exactly the target image.
   */
  method ImgDiff(src: seq<Byte>, tgt: seq<Byte>, zlib: Zlib, zip: seq<Byte> -> seq<Byte>,
                 ghost unzip: seq<Byte> -> seq<Byte>)
      returns (r: Result)
    requires SelfDelimiting(zlib) && BsDiff.Bzip2(zip, unzip)
    requires |src| < INT_LIMIT && |tgt| < INT_LIMIT
    ensures r.Written? && |r.file| < INT_LIMIT ==> ImageOf(zlib, unzip, src, r.file) == Image(tgt)
    ensures r.Written? <==> Verdict(zlib, src).Read? && Verdict(zlib, tgt).Read? && SameMembers(zlib, src, tgt)
    ensures r.Written? ==> IsImageDiff(zlib, zip, src, tgt, r.file)
    ensures r.Stuck? <==> Verdict(zlib, src).Stuck? || (Verdict(zlib, src).Read? && Verdict(zlib, tgt).Stuck?)
    ensures r.OutOfImage? <==>
              || Verdict(zlib, src).OutOfImage?
              || (Verdict(zlib, src).Read? && Verdict(zlib, tgt).OutOfImage?)
  {
    hide SelfDelimiting, BsDiff.Bzip2, Parallel, Checked, PatchedTo, ItemsOf, ImageOf, HeaderSize, Records, Patches,
         Verdict, SameMembers, AsRead, Paired, MergedFrom, Chosen, Shape, Deflates, Covers;
    var status, same, ss, ts, numSrc, numTgt := ReadBoth(src, tgt, zlib);
    if !status.Read? {
      return FromStatus(status);
    }
    if !same {
      return Result.Refused;
    }
    ghost var n, ss0, ts0 := numTgt, ss[..numTgt], ts[..numTgt];
    PairChunks(zlib, src, tgt, ss, ts, numTgt);
    ghost var ss1, ts1 := ss[..n], ts[..n];
    numSrc, numTgt := MergeBoth(zlib, src, tgt, ss, ts, numTgt);
    ghost var ss2, ts2 := ss[..numTgt], ts[..numTgt];
    ParallelPatches(zlib, unzip, src, tgt, ss[..numTgt], ts[..numTgt]);
    assert |ts[..numTgt]| == numTgt;
    var patches := MakePatches(src, tgt, ss, ts, numTgt, zip, unzip, zlib);
    var total := TotalHeaderSize(ts, numTgt, patches);
    var f := WriteRecords(ts, numTgt, patches, total);
    f := WritePatches(ts, numTgt, patches, f);
    FileIs(ts[..numTgt], patches, f, total);
    ghost var items := ItemsOf(ts[..numTgt], patches);
    forall k | 0 <= k < numTgt ensures Chosen(zip, src, tgt, ss2[k], ts2[k], items[k]) {
      ItemsAt(ts[..numTgt], patches, k);
    }
    assert StagesOf(zlib, zip, src, tgt, Stages(ss0, ts0, ss1, ts1, ss2, ts2, items));
    if |f| < INT_LIMIT {
      PatchedRebuilds(zlib, unzip, src, tgt, ss[..numTgt], ts[..numTgt], patches);
    }
    return Written(f);
  }

  lemma FileIs(cs: seq<Chunk>, patches: seq<seq<Byte>>, f: seq<Byte>, total: nat)
    requires |patches| == |cs| && total == HeaderSize(ItemsOf(cs, patches))
    requires f == Records(ItemsOf(cs, patches), |cs|, total) + Patches(ItemsOf(cs, patches))
    ensures f == File(ItemsOf(cs, patches))
  {
  }

  function FromStatus(status: Status): (result: Result) {
    match status
    case Stuck => Result.Stuck
    case OutOfImage => Result.OutOfImage
    case _ => Result.Refused
  }
}
