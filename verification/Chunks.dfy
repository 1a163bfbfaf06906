/** The chunk lists of applypatch/imgdiff.c: tilings of an image, and the operations that keep them parallel. */
module Chunks {
  import opened Common
  import opened ImgPatch

  datatype Kind = Normal | Deflate | Raw

  /** Where a chunk's data pointer points: into the image, or to inflated data on the heap. */
  datatype Pointer = InImage(offset: nat) | Heap(bytes: seq<Byte>)

  /** An ImageChunk.  `data` and `len` are the data to be patched, `start` and RawLen its place in the image. */
  datatype Chunk = Chunk(
    kind: Kind, start: nat, len: nat, data: Pointer,
    sourceStart: nat, sourceLen: nat,
    deflateOffset: nat, deflateLen: nat, params: Params, sourceUncompressedLen: nat)

  function RawLen(c: Chunk): (n: nat) {
    if c.kind.Deflate? then c.deflateLen else c.len
  }

  /** A chunk describes the part of the image it stands for. */
  predicate Describes(zlib: Zlib, img: seq<Byte>, c: Chunk) {
    && c.start + RawLen(c) <= |img|
    && match c.kind
       case Normal => c.data == InImage(c.start)
       case Raw => c.data == InImage(c.start)
       case Deflate =>
         && c.deflateOffset == c.start && c.data.Heap? && |c.data.bytes| == c.len
         && zlib.inflate(img[c.start..c.start + c.deflateLen]) == Some(Inflated(c.data.bytes, c.deflateLen))
  }

  /** The bytes of the image that a chunk stands for. */
  function RawBytes(img: seq<Byte>, c: Chunk): (bytes: seq<Byte>)
    requires c.start + RawLen(c) <= |img|
  {
    img[c.start..c.start + RawLen(c)]
  }

  function Span(cs: seq<Chunk>): (n: nat) {
    if cs == [] then 0 else Span(cs[..|cs| - 1]) + RawLen(cs[|cs| - 1])
  }

  /** The chunks follow one another from the beginning of the image, without gaps. */
  ghost predicate Tiles(zlib: Zlib, img: seq<Byte>, cs: seq<Chunk>) {
    forall i :: 0 <= i < |cs| ==> cs[i].start == Span(cs[..i]) && Describes(zlib, img, cs[i])
  }

  /** A tiling that covers the whole image. */
  ghost predicate Covers(zlib: Zlib, img: seq<Byte>, cs: seq<Chunk>) {
    Tiles(zlib, img, cs) && Span(cs) == |img|
  }

  function Shape(cs: seq<Chunk>): (kinds: seq<Kind>)
    ensures |kinds| == |cs| && forall i :: 0 <= i < |cs| ==> kinds[i] == cs[i].kind
  {
    seq(|cs|, i requires 0 <= i < |cs| => cs[i].kind)
  }

  /** What merging does to the kinds alone: neighbouring Normals become one. */
  function Compressed(kinds: seq<Kind>): (merged: seq<Kind>) {
    if |kinds| < 2 then kinds
    else
      var n := |kinds| - 1;
      if kinds[n].Normal? && kinds[n - 1].Normal? then Compressed(kinds[..n]) else Compressed(kinds[..n]) + [kinds[n]]
  }

  lemma TilesSnoc(zlib: Zlib, img: seq<Byte>, cs: seq<Chunk>, c: Chunk)
    requires Tiles(zlib, img, cs) && c.start == Span(cs) && Describes(zlib, img, c)
    ensures Tiles(zlib, img, cs + [c]) && Span(cs + [c]) == Span(cs) + RawLen(c)
  {
    var ds := cs + [c];
    assert forall i :: 0 <= i <= |cs| ==> ds[..i] == cs[..i];
    assert cs[..|cs|] == cs;
  }

  lemma SpanNext(cs: seq<Chunk>, i: nat)
    requires i < |cs|
    ensures Span(cs[..i + 1]) == Span(cs[..i]) + RawLen(cs[i])
  {
    assert cs[..i + 1][..i] == cs[..i];
  }

  /** In a tiling each chunk begins where the one before it ends, in the image and in memory. */
  lemma Contiguous(zlib: Zlib, img: seq<Byte>, cs: seq<Chunk>, i: nat)
    requires Tiles(zlib, img, cs) && 0 < i < |cs|
    ensures cs[i].start == cs[i - 1].start + RawLen(cs[i - 1])
  {
    SpanNext(cs, i - 1);
  }

  lemma ShapeFront(cs: seq<Chunk>, n: nat)
    requires n <= |cs|
    ensures Shape(cs[..n]) == Shape(cs)[..n]
  {
  }

  lemma {:induction false} CompressedRun(kinds: seq<Kind>, s: nat, e: nat)
    requires s < e <= |kinds|
    requires s + 1 < e ==> forall k :: s <= k < e ==> kinds[k].Normal?
    requires s > 0 ==> !(kinds[s - 1].Normal? && kinds[s].Normal?)
    ensures Compressed(kinds[..e]) == Compressed(kinds[..s]) + [kinds[s]]
    decreases e
  {
    assert kinds[..e][..e - 1] == kinds[..e - 1];
    if s + 1 >= e {
    } else {
      CompressedRun(kinds, s, e - 1);
    }
  }

  /** After merging, no two neighbours are both Normal. */
  lemma {:induction false} CompressedHasNoRuns(kinds: seq<Kind>)
    ensures forall k :: 0 < k < |Compressed(kinds)| ==>
              !(Compressed(kinds)[k - 1].Normal? && Compressed(kinds)[k].Normal?)
    ensures kinds != [] ==> Compressed(kinds) != [] && Compressed(kinds)[|Compressed(kinds)| - 1] == kinds[|kinds| - 1]
  {
    if |kinds| < 2 {
    } else {
      CompressedHasNoRuns(kinds[..|kinds| - 1]);
    }
  }

  /** Before patches are made there are only normal and deflate chunks. */
  predicate NoRaw(kinds: seq<Kind>) {
    forall i :: 0 <= i < |kinds| ==> !kinds[i].Raw?
  }

  lemma {:induction false} CompressedNoRaw(kinds: seq<Kind>)
    requires NoRaw(kinds)
    ensures NoRaw(Compressed(kinds))
  {
    if |kinds| < 2 {
    } else {
      CompressedNoRaw(kinds[..|kinds| - 1]);
    }
  }

  /** The end of the run of Normal chunks that begins at `s`. */
  ghost predicate RunEnds(cs: seq<Chunk>, s: int, e: int) {
    && 0 <= s < e <= |cs|
    && (s + 1 < e ==> forall k :: s <= k < e ==> cs[k].kind.Normal?)
    && (cs[s].kind.Normal? && e < |cs| ==> !cs[e].kind.Normal?)
  }

  lemma NormalsMeet(zlib: Zlib, img: seq<Byte>, cs: seq<Chunk>, i: nat)
    requires Tiles(zlib, img, cs) && 0 < i < |cs| && cs[i - 1].kind.Normal? && cs[i].kind.Normal?
    ensures cs[i].start == cs[i - 1].start + cs[i - 1].len
    ensures cs[i - 1].data.InImage? && cs[i].data == InImage(cs[i - 1].data.offset + cs[i - 1].len)
  {
    Contiguous(zlib, img, cs, i);
  }

  lemma NormalPoints(zlib: Zlib, img: seq<Byte>, cs: seq<Chunk>, i: nat)
    requires Tiles(zlib, img, cs) && i < |cs| && cs[i].kind.Normal?
    ensures cs[i].data.InImage?
  {
  }

  method FindRunEnd(chunks: array<Chunk>, num: nat, s: nat, ghost cs: seq<Chunk>, ghost zlib: Zlib,
                    ghost img: seq<Byte>)
      returns (e: nat)
    requires s < num == |cs| && num <= chunks.Length && chunks[s..num] == cs[s..] && Tiles(zlib, img, cs)
    ensures RunEnds(cs, s, e)
  {
    hide Tiles, Describes;
    assert forall k :: s <= k < num ==> chunks[k] == chunks[s..num][k - s] == cs[k];
    e := s + 1;
    if chunks[s].kind.Normal? {
      NormalPoints(zlib, img, cs, s);
      while e < num && chunks[e].kind.Normal?
            && chunks[e].start == chunks[e - 1].start + chunks[e - 1].len
            && chunks[e].data == InImage(chunks[e - 1].data.offset + chunks[e - 1].len)
        invariant s < e <= num && (forall k :: s <= k < e ==> cs[k].kind.Normal?) && cs[e - 1].data.InImage?
      {
        e := e + 1;
      }
      if e < num && cs[e].kind.Normal? {
        NormalsMeet(zlib, img, cs, e);
      }
    }
  }

  /** The chunk that stands for the run `[s, e)`, written over the one at `out`. */
  function RunChunk(stale: Chunk, cs: seq<Chunk>, s: nat, e: nat): (chunk: Chunk)
    requires s < e <= |cs| && cs[s].start <= cs[e - 1].start
  {
    if e == s + 1 then cs[s]
    else stale.(kind := Normal, start := cs[s].start, data := cs[s].data,
                len := cs[e - 1].len + (cs[e - 1].start - cs[s].start))
  }

  lemma {:induction false} SpanMonotone(cs: seq<Chunk>, i: nat, j: nat)
    requires i <= j <= |cs|
    ensures Span(cs[..i]) <= Span(cs[..j])
  {
    if i >= j {
    } else {
      SpanNext(cs, j - 1);
      SpanMonotone(cs, i, j - 1);
    }
  }

  lemma RunTiles(zlib: Zlib, img: seq<Byte>, cs: seq<Chunk>, s: nat, e: nat, stale: Chunk, done: seq<Chunk>)
    requires Tiles(zlib, img, cs) && RunEnds(cs, s, e) && Tiles(zlib, img, done) && Span(done) == Span(cs[..s])
    requires Shape(done) == Compressed(Shape(cs[..s]))
    requires s > 0 ==> !(cs[s - 1].kind.Normal? && cs[s].kind.Normal?)
    ensures cs[s].start <= cs[e - 1].start
    ensures var c := RunChunk(stale, cs, s, e);
            && Tiles(zlib, img, done + [c]) && Span(done + [c]) == Span(cs[..e])
            && Shape(done + [c]) == Compressed(Shape(cs[..e]))
            && Deflates(done + [c]) == Deflates(done) + (if cs[s].kind.Deflate? then [cs[s]] else [])
  {
    hide Tiles, Compressed, Shape, Describes;
    RunDescribes(zlib, img, cs, s, e, stale);
    var c := RunChunk(stale, cs, s, e);
    TilesSnoc(zlib, img, done, c);
    ShapeFront(cs, s);
    ShapeFront(cs, e);
    CompressedRun(Shape(cs), s, e);
    assert Shape(done + [c]) == Shape(done) + [c.kind];
    DeflatesSnoc(done, c);
  }

  lemma RunDescribes(zlib: Zlib, img: seq<Byte>, cs: seq<Chunk>, s: nat, e: nat, stale: Chunk)
    requires Tiles(zlib, img, cs) && RunEnds(cs, s, e)
    ensures cs[s].start <= cs[e - 1].start
    ensures var c := RunChunk(stale, cs, s, e);
            && c.kind == cs[s].kind && c.start == Span(cs[..s]) && c.start + RawLen(c) == Span(cs[..e])
            && Describes(zlib, img, c) && (c.kind.Deflate? ==> c == cs[s])
  {
    SpanMonotone(cs, s, e - 1);
    SpanNext(cs, e - 1);
    assert Describes(zlib, img, cs[s]) && Describes(zlib, img, cs[e - 1]);
  }

  /** Two neighbours that are not both Normal. */
  predicate Apart(cs: seq<Chunk>, i: int) {
    0 < i < |cs| ==> !(cs[i - 1].kind.Normal? && cs[i].kind.Normal?)
  }

  /** The deflate chunks, in order. */
  function Deflates(cs: seq<Chunk>): (ds: seq<Chunk>) {
    if cs == [] then []
    else Deflates(cs[..|cs| - 1]) + if cs[|cs| - 1].kind.Deflate? then [cs[|cs| - 1]] else []
  }

  lemma DeflatesSnoc(cs: seq<Chunk>, c: Chunk)
    ensures Deflates(cs + [c]) == Deflates(cs) + if c.kind.Deflate? then [c] else []
  {
    assert (cs + [c])[..|cs|] == cs;
  }

  lemma {:induction false} DeflatesAre(cs: seq<Chunk>)
    ensures forall c :: c in Deflates(cs) <==> c in cs && c.kind.Deflate?
  {
    if cs != [] {
      DeflatesAre(cs[..|cs| - 1]);
      assert cs == cs[..|cs| - 1] + [cs[|cs| - 1]];
    }
  }

  lemma {:induction false} DeflatesOfRun(cs: seq<Chunk>, s: nat, e: nat)
    requires RunEnds(cs, s, e)
    ensures Deflates(cs[..e]) == Deflates(cs[..s]) + if cs[s].kind.Deflate? then [cs[s]] else []
    decreases e
  {
    DeflatesNext(cs, e - 1);
    if s + 1 < e {
      DeflatesUpTo(cs, s, e - 1);
    }
  }

  lemma DeflatesNext(cs: seq<Chunk>, i: nat)
    requires i < |cs|
    ensures Deflates(cs[..i + 1]) == Deflates(cs[..i]) + if cs[i].kind.Deflate? then [cs[i]] else []
  {
    assert cs[..i + 1][..i] == cs[..i];
  }

  lemma {:induction false} DeflatesUpTo(cs: seq<Chunk>, s: nat, e: nat)
    requires s <= e <= |cs| && forall k :: s <= k < e ==> cs[k].kind.Normal?
    ensures Deflates(cs[..e]) == Deflates(cs[..s])
    decreases e
  {
    if s < e {
      DeflatesNext(cs, e - 1);
      DeflatesUpTo(cs, s, e - 1);
    }
  }

  /** How far MergeAdjacentNormalChunks has come: `[0, s)` has been compacted into `done`. */
  ghost predicate MergedTo(zlib: Zlib, img: seq<Byte>, cs: seq<Chunk>, s: int, done: seq<Chunk>) {
    && 0 <= s <= |cs| && |done| <= s
    && Tiles(zlib, img, done) && Span(done) == Span(cs[..s])
    && Shape(done) == Compressed(Shape(cs[..s]))
    && Apart(cs, s) && Deflates(done) == Deflates(cs[..s])
  }

  lemma MergeStep(zlib: Zlib, img: seq<Byte>, cs: seq<Chunk>, s: nat, e: nat, done: seq<Chunk>, stale: Chunk)
    requires Tiles(zlib, img, cs) && MergedTo(zlib, img, cs, s, done) && RunEnds(cs, s, e)
    ensures cs[s].start <= cs[e - 1].start
    ensures MergedTo(zlib, img, cs, e, done + [RunChunk(stale, cs, s, e)])
  {
    hide Deflates;
    RunTiles(zlib, img, cs, s, e, stale, done);
    DeflatesOfRun(cs, s, e);
  }

  /**
   MergeAdjacentNormalChunks: compact a tiling in place, so that it still covers the image and its kinds are
   the old ones with runs of Normal reduced to one.
   */
  method MergeAdjacentNormalChunks(chunks: array<Chunk>, num: nat, ghost zlib: Zlib, ghost img: seq<Byte>)
      returns (out: nat)
    requires num <= chunks.Length && Covers(zlib, img, chunks[..num])
    modifies chunks
    ensures out <= num && Covers(zlib, img, chunks[..out])
    ensures Shape(chunks[..out]) == Compressed(Shape(old(chunks[..num])))
    ensures Deflates(chunks[..out]) == Deflates(old(chunks[..num]))
  {
    hide Tiles, MergedTo, Shape, Compressed, Deflates, RunEnds;
    ghost var cs := chunks[..num];
    out := 0;
    var s := 0;
    MergeBegin(zlib, img, cs);
    assert chunks[..0] == [];
    while s < num
      invariant out <= s <= num && chunks[s..num] == cs[s..]
      invariant MergedTo(zlib, img, cs, s, chunks[..out])
    {
      var e := FindRunEnd(chunks, num, s, cs, zlib, img);
      ghost var rest := chunks[s..num];
      RunBounds(cs, s, e);
      MergeStep(zlib, img, cs, s, e, chunks[..out], chunks[out]);
      assert chunks[s] == cs[s] && chunks[e - 1] == cs[e - 1] by { SameFrom(chunks[..num], cs, s); }
      ghost var done, c := chunks[..out], RunChunk(chunks[out], cs, s, e);
      if e == s + 1 {
        if out != s {
          chunks[out] := chunks[s];
        }
      } else {
        chunks[out] := chunks[out].(kind := Normal, start := chunks[s].start, data := chunks[s].data,
                                    len := chunks[e - 1].len + (chunks[e - 1].start - chunks[s].start));
      }
      assert chunks[out] == c;
      out := out + 1;
      assert chunks[..out] == done + [c];
      assert chunks[e..num] == rest[e - s..] == cs[e..];
      s := e;
    }
    MergeEnd(zlib, img, cs, chunks[..out]);
  }

  lemma SameFrom(a: seq<Chunk>, cs: seq<Chunk>, s: nat)
    requires |a| == |cs| && s <= |cs| && a[s..] == cs[s..]
    ensures forall k :: s <= k < |cs| ==> a[k] == cs[k]
  {
    assert forall k :: s <= k < |cs| ==> a[k] == a[s..][k - s] == cs[s..][k - s] == cs[k];
  }

  lemma RunBounds(cs: seq<Chunk>, s: int, e: int)
    requires RunEnds(cs, s, e)
    ensures 0 <= s < e <= |cs|
  {
  }

  lemma MergeBegin(zlib: Zlib, img: seq<Byte>, cs: seq<Chunk>)
    ensures MergedTo(zlib, img, cs, 0, [])
  {
  }

  lemma MergeEnd(zlib: Zlib, img: seq<Byte>, cs: seq<Chunk>, done: seq<Chunk>)
    requires MergedTo(zlib, img, cs, |cs|, done) && Covers(zlib, img, cs)
    ensures Covers(zlib, img, done) && Shape(done) == Compressed(Shape(cs)) && Deflates(done) == Deflates(cs)
  {
    assert cs[..|cs|] == cs;
  }

  /** ChangeDeflateChunkToNormal: the chunk's compressed bytes become its data. */
  function AsNormal(c: Chunk): (n: Chunk)
    ensures n.start == c.start && RawLen(n) == RawLen(c)
    ensures c.kind.Raw? || n.kind.Normal?
  {
    if !c.kind.Deflate? then c else c.(kind := Normal, data := InImage(c.deflateOffset), len := c.deflateLen)
  }

  method ChangeDeflateChunkToNormal(chunks: array<Chunk>, i: nat)
    requires i < chunks.Length
    modifies chunks
    ensures chunks[..] == old(chunks[..])[i := AsNormal(old(chunks[i]))]
  {
    if chunks[i].kind.Deflate? {
      chunks[i] := chunks[i].(kind := Normal, data := InImage(chunks[i].deflateOffset), len := chunks[i].deflateLen);
    }
  }

  /** Replacing a chunk by one that describes the same bytes leaves the tiling a tiling. */
  lemma TilesUpdate(zlib: Zlib, img: seq<Byte>, cs: seq<Chunk>, i: nat, c: Chunk)
    requires Tiles(zlib, img, cs) && i < |cs| && Describes(zlib, img, c)
    requires c.start == cs[i].start && RawLen(c) == RawLen(cs[i])
    ensures Tiles(zlib, img, cs[i := c]) && Span(cs[i := c]) == Span(cs)
  {
    var ds := cs[i := c];
    forall j | 0 <= j <= |cs| ensures Span(ds[..j]) == Span(cs[..j]) {
      SpanUpdate(cs, i, c, j);
    }
    assert cs[..|cs|] == cs && ds[..|ds|] == ds;
  }

  lemma {:induction false} SpanUpdate(cs: seq<Chunk>, i: nat, c: Chunk, j: nat)
    requires i < |cs| && j <= |cs| && RawLen(c) == RawLen(cs[i])
    ensures Span(cs[i := c][..j]) == Span(cs[..j])
  {
    if j == 0 {
    } else {
      SpanUpdate(cs, i, c, j - 1);
      SpanNext(cs, j - 1);
      SpanNext(cs[i := c], j - 1);
    }
  }

  lemma AsNormalDescribes(zlib: Zlib, img: seq<Byte>, c: Chunk)
    requires Describes(zlib, img, c)
    ensures Describes(zlib, img, AsNormal(c))
  {
  }
}
