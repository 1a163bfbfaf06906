/** imgdiff on an image and itself: no matter how many gzip members it has, one chunk is written for it. */
module Unchanged {
  import opened Common
  import opened ImgPatch
  import opened Chunks
  import opened ImgFile
  import opened ReadImage
  import opened ImgDiff
  import BsDiff

  lemma {:induction false} KindsByTurns(n: nat, nonempty: bool, k: nat)
    requires k < |Alternating(n, nonempty)|
    ensures Alternating(n, nonempty)[k] == if k % 2 == 1 then Deflate else Normal
  {
    if n > 0 && k < 2 * n - 1 {
      KindsByTurns(n - 1, true, k);
    }
  }

  lemma {:induction false} EverySecond(cs: seq<Chunk>)
    requires forall k :: 0 <= k < |cs| ==> (cs[k].kind.Deflate? <==> k % 2 == 1)
    ensures |Deflates(cs)| == |cs| / 2
    ensures forall k :: 0 <= k < |cs| && k % 2 == 1 ==> Deflates(cs)[k / 2] == cs[k]
  {
    if cs != [] {
      EverySecond(cs[..|cs| - 1]);
    }
  }

  /** Where normal and deflate chunks alternate, every second chunk is a deflate chunk. */
  lemma AlternatingAt(cs: seq<Chunk>, n: nat, nonempty: bool)
    requires Shape(cs) == Alternating(n, nonempty)
    ensures |Deflates(cs)| == n
    ensures forall k :: 0 <= k < |cs| ==>
              if k % 2 == 0 then cs[k].kind.Normal?
              else k / 2 < n && cs[k].kind.Deflate? && Deflates(cs)[k / 2] == cs[k]
  {
    hide Deflates, Alternating;
    assert |Shape(cs)| == |cs|;
    forall k | 0 <= k < |cs| ensures cs[k].kind == if k % 2 == 1 then Deflate else Normal {
      KindsByTurns(n, nonempty, k);
      assert Shape(cs)[k] == cs[k].kind;
    }
    EverySecond(cs);
    assert |cs| == |Alternating(n, nonempty)|;
  }

  /** Read twice, an image gives the same deflate chunks at the same places. */
  lemma ReadTwice(zlib: Zlib, img: seq<Byte>, x: seq<Chunk>, y: seq<Chunk>, k: nat)
    requires AsRead(zlib, img, x) && AsRead(zlib, img, y) && k < |x|
    ensures |x| == |y| && x[k].kind == y[k].kind && !x[k].kind.Raw?
    ensures x[k].kind.Deflate? ==> x[k] == y[k]
  {
    hide Covers, Members, Alternating, BehindHeader, Deflates;
    var n := |Members(zlib, img, 0)|;
    AlternatingAt(x, n, img != []);
    AlternatingAt(y, n, img != []);
    assert |Shape(x)| == |x| && |Shape(y)| == |y|;
    if k % 2 == 1 {
      assert BehindHeader(zlib, img, Deflates(x)[k / 2], Members(zlib, img, 0)[k / 2]);
      assert BehindHeader(zlib, img, Deflates(y)[k / 2], Members(zlib, img, 0)[k / 2]);
      SameBehindHeader(zlib, img, x[k], y[k], Members(zlib, img, 0)[k / 2]);
    }
  }

  lemma SameBehindHeader(zlib: Zlib, img: seq<Byte>, c: Chunk, d: Chunk, start: nat)
    requires BehindHeader(zlib, img, c, start) && BehindHeader(zlib, img, d, start)
    ensures c == d
  {
  }

  /** So no pair stays deflated. */
  lemma PairIsNormal(zlib: Zlib, img: seq<Byte>, s0: Chunk, t0: Chunk, s: Chunk, t: Chunk)
    requires Paired(zlib, img, img, s0, t0, s, t) && s0.kind == t0.kind && !t0.kind.Raw?
    requires t0.kind.Deflate? ==> s0 == t0 && Describes(zlib, img, t0)
    ensures s.kind.Normal? && t.kind.Normal?
  {
    hide Describes, Reproducible;
    var p :| PairedWith(zlib, img, img, s0, t0, s, t, p);
  }

  lemma {:induction false} OnlyNormals(kinds: seq<Kind>)
    requires forall k :: 0 <= k < |kinds| ==> kinds[k].Normal?
    ensures Compressed(kinds) == if kinds == [] then [] else [Normal]
  {
    if |kinds| >= 2 {
      OnlyNormals(kinds[..|kinds| - 1]);
    }
  }

  /** A single chunk that covers an image is the whole of it. */
  lemma OneCovers(zlib: Zlib, img: seq<Byte>, cs: seq<Chunk>)
    requires Covers(zlib, img, cs) && Shape(cs) == [Normal]
    ensures |cs| == 1 && cs[0].kind.Normal? && cs[0].start == 0 && cs[0].len == |img| && cs[0].data == InImage(0)
  {
    assert |Shape(cs)| == |cs| && Shape(cs)[0] == cs[0].kind;
    assert cs[..0] == [];
    assert Span(cs) == Span(cs[..0]) + RawLen(cs[0]);
  }

  lemma PairsAreNormal(zlib: Zlib, zip: seq<Byte> -> seq<Byte>, img: seq<Byte>, st: Stages)
    requires StagesOf(zlib, zip, img, img, st)
    ensures forall k :: 0 <= k < |st.ss1| ==> st.ss1[k].kind.Normal? && st.ts1[k].kind.Normal?
    ensures |st.ss1| == |st.ts1|
  {
    hide AsRead, Paired, MergedFrom, Chosen;
    forall k | 0 <= k < |st.ss1| ensures st.ss1[k].kind.Normal? && st.ts1[k].kind.Normal? {
      ReadTwice(zlib, img, st.ss0, st.ts0, k);
      if st.ts0[k].kind.Deflate? {
        ReadDescribes(zlib, img, st.ts0, k);
      }
      PairIsNormal(zlib, img, st.ss0[k], st.ts0[k], st.ss1[k], st.ts1[k]);
    }
  }

  lemma ReadDescribes(zlib: Zlib, img: seq<Byte>, cs: seq<Chunk>, k: nat)
    requires AsRead(zlib, img, cs) && k < |cs|
    ensures Describes(zlib, img, cs[k])
  {
    hide Shape, Members, Alternating, BehindHeaders, Deflates;
    CoversDescribes(zlib, img, cs, k);
  }

  /**
   What is written for an image and itself: nothing for an empty one; else one chunk, raw if the image is short or no
   longer than the patch that bsdiff makes of it and itself, and otherwise with that patch.
   */
  lemma UnchangedImage(zlib: Zlib, zip: seq<Byte> -> seq<Byte>, img: seq<Byte>, file: seq<Byte>)
    requires IsImageDiff(zlib, zip, img, img, file)
    ensures img == [] ==> file == File([])
    ensures img != [] ==> exists item :: WholeImage(zip, img, item) && file == File([item])
  {
    hide File, AsRead, Paired, Chosen;
    var st :| StagesOf(zlib, zip, img, img, st) && file == File(st.items);
    PairsAreNormal(zlib, zip, img, st);
    ReadLength(zlib, img, st.ss0);
    OnlyNormals(Shape(st.ss1));
    OnlyNormals(Shape(st.ts1));
    assert |Shape(st.ss2)| == |st.ss2| && |Shape(st.ss1)| == |st.ss1|;
    if img == [] {
      assert st.items == [];
    } else {
      OneCovers(zlib, img, st.ss2);
      OneCovers(zlib, img, st.ts2);
      ChosenWhole(zip, img, st.ss2[0], st.ts2[0], st.items[0]);
      assert st.items == [st.items[0]];
    }
  }

  lemma ReadLength(zlib: Zlib, img: seq<Byte>, cs: seq<Chunk>)
    requires AsRead(zlib, img, cs)
    ensures img == [] <==> cs == []
  {
    hide Covers, BehindHeaders, Deflates, FateAt;
    assert |Shape(cs)| == |cs|;
  }

  /** One chunk for the whole image. */
  ghost predicate WholeImage(zip: seq<Byte> -> seq<Byte>, img: seq<Byte>, item: Item) {
    && item.chunk.start == 0 && item.chunk.len == |img|
    && if item.chunk.kind.Raw? then
         item.patch == img && (|img| <= 160 || exists d :: BsDiff.IsDiffOf(img, img, zip, d) && |img| <= |d|)
       else
         && item.chunk.kind.Normal? && item.chunk.sourceStart == 0 && item.chunk.sourceLen == |img|
         && BsDiff.IsDiffOf(img, img, zip, item.patch) && 160 < |img| && |item.patch| < |img|
  }

  lemma ChosenWhole(zip: seq<Byte> -> seq<Byte>, img: seq<Byte>, s: Chunk, t: Chunk, item: Item)
    requires Chosen(zip, img, img, s, t, item) && s.kind.Normal? && t.kind.Normal?
    requires s.start == t.start == 0 && s.len == t.len == |img| && s.data == t.data == InImage(0)
    ensures WholeImage(zip, img, item)
  {
    hide BsDiff.IsDiffOf;
    assert Data(img, s) == img == Data(img, t);
    if |img| > 160 {
      var d :| ChosenWith(zip, img, img, s, t, item, d);
    }
  }
}
