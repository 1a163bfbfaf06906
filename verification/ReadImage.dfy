/** ReadImage of applypatch/imgdiff.c: cut an image into normal and deflate chunks. */
module ReadImage {
  import opened Common
  import opened LittleEndian
  import opened ImgPatch
  import opened Chunks

  const GZIP_HEADER_LEN := 10
  const GZIP_FOOTER_LEN := 8
  const GZIP_MAGIC: seq<Byte> := [0x1f, 0x8b, 0x08, 0x00]

  /**
   Read: the chunks.  Refused: NULL is returned.  Stuck: the code loops for ever.  OutOfImage: it runs past the
   end of the image.
   */
  datatype Status = Read | Refused | Stuck | OutOfImage

  /** What is assumed of inflate: the stream it consumes is enough by itself, and the data has less than 2^31 bytes. */
  ghost predicate SelfDelimiting(zlib: Zlib) {
    forall x: seq<Byte> :: zlib.inflate(x).Some? ==>
      var i := zlib.inflate(x).value;
      i.used <= |x| && zlib.inflate(x[..i.used]) == Some(i) && |i.data| < INT_LIMIT
  }

  /** The image with the four zero bytes the code appends to it. */
  function Padded(img: seq<Byte>): (bytes: seq<Byte>) {
    img + [0, 0, 0, 0]
  }

  predicate MagicAt(img: seq<Byte>, pos: nat)
    requires pos <= |img|
  {
    Padded(img)[pos..pos + 4] == GZIP_MAGIC
  }

  const NO_PARAMS := Params(0, 0, 0, 0, 0)

  function NormalChunkAt(start: nat, len: nat): (chunk: Chunk) {
    Chunk(Normal, start, len, InImage(start), 0, 0, 0, 0, NO_PARAMS, 0)
  }

  function DeflateChunkAt(start: nat, i: Inflated): (chunk: Chunk) {
    Chunk(Deflate, start, |i.data|, Heap(i.data), 0, 0, start, i.used, NO_PARAMS, 0)
  }

  /** What becomes of the loop at a gzip header: the end of a complete member, or why the loop does not get past it. */
  datatype Fate = Complete(end: nat) | HalfHeader | BadStream | Overrun | BadFooter

  /** The header is cut off by the end of the image, the stream does not inflate, or the footer is not right. */
  function FateAt(zlib: Zlib, img: seq<Byte>, pos: nat): (fate: Fate)
    requires pos < |img|
    ensures fate.Complete? ==> pos < fate.end <= |img|
  {
    if |img| - pos < 4 then HalfHeader
    else if pos + GZIP_HEADER_LEN > |img| then Overrun
    else
      match zlib.inflate(img[pos + GZIP_HEADER_LEN..])
      case None => BadStream
      case Some(i) =>
        var end := pos + GZIP_HEADER_LEN + i.used + GZIP_FOOTER_LEN;
        if end > |img| then Overrun
        else if Value(img[end - 4..end]) != |i.data| then BadFooter
        else Complete(end)
  }

  function StatusOf(fate: Fate): (status: Status)
    ensures status.Read? <==> fate.Complete?
  {
    match fate
    case Complete(_) => Read
    case HalfHeader => Stuck
    case BadStream => Stuck
    case Overrun => OutOfImage
    case BadFooter => Refused
  }

  /** The first gzip magic from `pos` on. */
  function NextMagic(img: seq<Byte>, pos: nat): (next: Option<nat>)
    requires pos <= |img|
    ensures next.Some? ==> pos <= next.value < |img| && MagicAt(img, next.value)
    ensures forall k :: pos <= k < (if next.Some? then next.value else |img|) ==> !MagicAt(img, k)
    decreases |img| - pos
  {
    if pos == |img| then None
    else if MagicAt(img, pos) then Some(pos)
    else NextMagic(img, pos + 1)
  }

  /** Where the gzip members from `pos` on begin, up to the first that is not complete. */
  function Members(zlib: Zlib, img: seq<Byte>, pos: nat): (starts: seq<nat>)
    requires pos <= |img|
    ensures forall i :: 0 <= i < |starts| ==> pos <= starts[i] < |img| && MagicAt(img, starts[i])
    ensures forall i :: 0 <= i < |starts| - 1 ==> FateAt(zlib, img, starts[i]).Complete?
    decreases |img| - pos
  {
    match NextMagic(img, pos)
    case None => []
    case Some(q) =>
      match FateAt(zlib, img, q)
      case Complete(end) => [q] + Members(zlib, img, end)
      case _ => [q]
  }

  /** How ReadImage ends: the last of the members decides. */
  function Verdict(zlib: Zlib, img: seq<Byte>): (status: Status) {
    var starts := Members(zlib, img, 0);
    if starts == [] then Read else StatusOf(FateAt(zlib, img, starts[|starts| - 1]))
  }

  /** A gzip header in the image is the begin of a member, lies inside a complete one, or behind an incomplete one. */
  lemma {:induction false} NoMagicMissed(zlib: Zlib, img: seq<Byte>, pos: nat, k: nat)
    requires pos <= k < |img| && MagicAt(img, k)
    ensures exists q :: q in Members(zlib, img, pos) && q <= k
                        && (q == k || !FateAt(zlib, img, q).Complete? || k < FateAt(zlib, img, q).end)
    decreases |img| - pos
  {
    var q := NextMagic(img, pos).value;
    assert q == Members(zlib, img, pos)[0];
    var fate := FateAt(zlib, img, q);
    if fate.Complete? && fate.end <= k {
      NoMagicMissed(zlib, img, fate.end, k);
    }
  }

  /** Some member meets this fate. */
  ghost predicate Meets(zlib: Zlib, img: seq<Byte>, fate: Fate) {
    exists q :: q in Members(zlib, img, 0) && FateAt(zlib, img, q) == fate
  }

  /** Only the last member can be incomplete. */
  lemma MeetsExact(zlib: Zlib, img: seq<Byte>, fate: Fate)
    requires !fate.Complete?
    ensures var starts := Members(zlib, img, 0);
            Meets(zlib, img, fate) <==> starts != [] && FateAt(zlib, img, starts[|starts| - 1]) == fate
  {
    hide FateAt;
    var starts := Members(zlib, img, 0);
    forall q | q in starts && FateAt(zlib, img, q) == fate ensures q == starts[|starts| - 1] {
      var i :| 0 <= i < |starts| && starts[i] == q;
    }
    if starts != [] && FateAt(zlib, img, starts[|starts| - 1]) == fate {
      assert starts[|starts| - 1] in starts;
    }
  }

  /** An image is read exactly if all its members are complete; else the one that is not says why. */
  lemma VerdictExact(zlib: Zlib, img: seq<Byte>)
    ensures Verdict(zlib, img).Read? <==> forall q :: q in Members(zlib, img, 0) ==> FateAt(zlib, img, q).Complete?
    ensures Verdict(zlib, img).Stuck? <==> Meets(zlib, img, HalfHeader) || Meets(zlib, img, BadStream)
    ensures Verdict(zlib, img).Refused? <==> Meets(zlib, img, BadFooter)
    ensures Verdict(zlib, img).OutOfImage? <==> Meets(zlib, img, Overrun)
  {
    hide Meets, FateAt, Members;
    MeetsExact(zlib, img, HalfHeader);
    MeetsExact(zlib, img, BadStream);
    MeetsExact(zlib, img, BadFooter);
    MeetsExact(zlib, img, Overrun);
    var starts := Members(zlib, img, 0);
    if Verdict(zlib, img).Read? {
      forall q | q in starts ensures FateAt(zlib, img, q).Complete? {
        var i :| 0 <= i < |starts| && starts[i] == q;
      }
    } else {
      assert starts[|starts| - 1] in starts;
    }
  }

  /** The header cut off by the end is the magic number without its last byte, which the padding supplies. */
  lemma HalfHeaderExact(zlib: Zlib, img: seq<Byte>, q: nat)
    requires q < |img| && MagicAt(img, q)
    ensures FateAt(zlib, img, q).HalfHeader? <==> q == |img| - 3
  {
    var p := Padded(img)[q..q + 4];
    assert forall k :: 0 <= k < 4 ==> p[k] == Padded(img)[q + k];
    assert p[0] == 0x1f && p[1] == 0x8b && p[2] == 0x08;
  }

  /** The shortest image on which the loop does not end. */
  lemma StuckOnHalfHeader(zlib: Zlib)
    ensures Verdict(zlib, GZIP_MAGIC[..3]).Stuck?
  {
    var img := GZIP_MAGIC[..3];
    assert Padded(img)[0..4] == GZIP_MAGIC;
    assert NextMagic(img, 0) == Some(0);
  }

  /** A gzip header with bytes behind it that do not inflate: the loop does not end. */
  lemma StuckOnBadStream(zlib: Zlib, header: seq<Byte>, x: seq<Byte>)
    requires |header| == GZIP_HEADER_LEN && header[..4] == GZIP_MAGIC && zlib.inflate(x).None?
    ensures Verdict(zlib, header + x).Stuck?
  {
    var img := header + x;
    assert Padded(img)[0..4] == header[..4];
    assert NextMagic(img, 0) == Some(0);
    assert img[GZIP_HEADER_LEN..] == x;
  }

  /** The scan for the next gzip header, or the end of the image. */
  method ScanNormal(img: seq<Byte>, pos: nat) returns (len: nat)
    requires pos < |img|
    ensures pos + len <= |img| && (pos + len < |img| ==> MagicAt(img, pos + len))
    ensures forall k :: pos <= k < pos + len ==> !MagicAt(img, k)
  {
    len := 0;
    while len < |img| - pos
      invariant pos + len <= |img| && forall k :: pos <= k < pos + len ==> !MagicAt(img, k)
    {
      if Padded(img)[pos + len..pos + len + 4] == GZIP_MAGIC {
        break;
      }
      len := len + 1;
    }
  }

  lemma NoRawSnoc(cs: seq<Chunk>, c: Chunk)
    requires NoRaw(Shape(cs)) && !c.kind.Raw?
    ensures NoRaw(Shape(cs + [c]))
  {
  }

  /** Three chunks more, for a gzip member at `pos`. */
  predicate Member(chunks0: seq<Chunk>, chunks: seq<Chunk>, pos: nat) {
    && |chunks| == |chunks0| + 3 && chunks[..|chunks0|] == chunks0
    && chunks[|chunks0|] == NormalChunkAt(pos, GZIP_HEADER_LEN)
    && chunks[|chunks0| + 1].kind.Deflate? && chunks[|chunks0| + 1].start == pos + GZIP_HEADER_LEN
    && chunks[|chunks0| + 2].kind.Normal?
  }

  /** The header or the footer of a gzip member. */
  predicate Framing(chunks: seq<Chunk>, i: nat)
    requires i < |chunks|
  {
    (i + 1 < |chunks| && chunks[i + 1].kind.Deflate?) || (i > 0 && chunks[i - 1].kind.Deflate?)
  }

  /** No gzip header begins in the chunk. */
  ghost predicate Plain(img: seq<Byte>, c: Chunk) {
    forall k :: c.start <= k < c.start + c.len && k <= |img| ==> !MagicAt(img, k)
  }

  /** A deflate chunk lies behind a gzip header. */
  predicate BehindMagic(img: seq<Byte>, c: Chunk) {
    GZIP_HEADER_LEN <= c.start <= |img| && MagicAt(img, c.start - GZIP_HEADER_LEN)
  }

  /** Every deflate chunk lies behind a gzip header, and no gzip header begins in the normal chunks between members. */
  ghost predicate Scanned(img: seq<Byte>, chunks: seq<Chunk>) {
    forall i :: 0 <= i < |chunks| ==>
      && (chunks[i].kind.Deflate? ==> BehindMagic(img, chunks[i]))
      && (chunks[i].kind.Normal? ==> Framing(chunks, i) || Plain(img, chunks[i]))
  }

  lemma FramingKept(chunks: seq<Chunk>, cs: seq<Chunk>, i: nat)
    requires i < |chunks| <= |cs| && cs[..|chunks|] == chunks
    ensures cs[i] == chunks[i] && (Framing(chunks, i) ==> Framing(cs, i))
  {
    assert cs[i] == cs[..|chunks|][i];
    if i + 1 < |chunks| { assert cs[i + 1] == cs[..|chunks|][i + 1]; }
    if i > 0 { assert cs[i - 1] == cs[..|chunks|][i - 1]; }
  }

  lemma ScannedNormal(img: seq<Byte>, chunks: seq<Chunk>, pos: nat, len: nat)
    requires Scanned(img, chunks) && pos + len <= |img| && forall k :: pos <= k < pos + len ==> !MagicAt(img, k)
    ensures Scanned(img, chunks + [NormalChunkAt(pos, len)])
  {
    hide MagicAt, BehindMagic, Framing;
    var cs := chunks + [NormalChunkAt(pos, len)];
    forall i | 0 <= i < |chunks| ensures cs[i] == chunks[i] && (Framing(chunks, i) ==> Framing(cs, i)) {
      FramingKept(chunks, cs, i);
    }
  }

  lemma ScannedMember(img: seq<Byte>, chunks: seq<Chunk>, cs: seq<Chunk>, pos: nat)
    requires Scanned(img, chunks) && Member(chunks, cs, pos) && pos + GZIP_HEADER_LEN <= |img| && MagicAt(img, pos)
    ensures Scanned(img, cs)
  {
    hide MagicAt, Plain, Framing;
    forall i | 0 <= i < |chunks| ensures cs[i] == chunks[i] && (Framing(chunks, i) ==> Framing(cs, i)) {
      FramingKept(chunks, cs, i);
    }
    FramesMember(chunks, cs, pos);
  }

  lemma FramesMember(chunks: seq<Chunk>, cs: seq<Chunk>, pos: nat)
    requires Member(chunks, cs, pos)
    ensures Framing(cs, |chunks|) && Framing(cs, |chunks| + 2)
  {
  }

  /** A gzip member: header, deflate stream and footer become three chunks. */
  method ReadMember(zlib: Zlib, img: seq<Byte>, pos0: nat, chunks0: seq<Chunk>)
      returns (status: Status, chunks: seq<Chunk>, pos: nat)
    requires SelfDelimiting(zlib) && pos0 + 4 <= |img|
    requires Tiles(zlib, img, chunks0) && Span(chunks0) == pos0 && NoRaw(Shape(chunks0))
    ensures status == StatusOf(FateAt(zlib, img, pos0)) && (status.Read? ==> FateAt(zlib, img, pos0) == Complete(pos))
    ensures status.Read? ==> Tiles(zlib, img, chunks) && Span(chunks) == pos && pos0 < pos <= |img|
    ensures NoRaw(Shape(chunks))
    ensures status.Read? ==> Member(chunks0, chunks, pos0) && pos0 + GZIP_HEADER_LEN <= |img|
    ensures status.Read? ==> BehindHeader(zlib, img, chunks[|chunks0| + 1], pos0)
  {
    hide Tiles, NoRaw, Shape, Span, Describes, RawLen, Value;
    pos, chunks := pos0, chunks0;
    if pos + GZIP_HEADER_LEN > |img| {
      return OutOfImage, chunks, pos;
    }
    AddNormal(zlib, img, chunks, pos, GZIP_HEADER_LEN);
    chunks := chunks + [NormalChunkAt(pos, GZIP_HEADER_LEN)];
    pos := pos + GZIP_HEADER_LEN;
    var inflated := zlib.inflate(img[pos..]);
    if inflated.None? {
      return Stuck, chunks, pos;
    }
    var i := inflated.value;
    AddDeflate(zlib, img, chunks, pos, i);
    chunks := chunks + [DeflateChunkAt(pos, i)];
    pos := pos + i.used;
    if pos + GZIP_FOOTER_LEN > |img| {
      return OutOfImage, chunks, pos;
    }
    AddNormal(zlib, img, chunks, pos, GZIP_FOOTER_LEN);
    chunks := chunks + [NormalChunkAt(pos, GZIP_FOOTER_LEN)];
    pos := pos + GZIP_FOOTER_LEN;
    if Value(img[pos - 4..pos]) != |i.data| {
      return Refused, chunks, pos;
    }
    return Read, chunks, pos;
  }

  lemma AddNormal(zlib: Zlib, img: seq<Byte>, chunks: seq<Chunk>, pos: nat, len: nat)
    requires Tiles(zlib, img, chunks) && Span(chunks) == pos && NoRaw(Shape(chunks)) && pos + len <= |img|
    ensures var cs := chunks + [NormalChunkAt(pos, len)];
            Tiles(zlib, img, cs) && Span(cs) == pos + len && NoRaw(Shape(cs))
  {
    hide Tiles, NoRaw, Shape, Span;
    TilesSnoc(zlib, img, chunks, NormalChunkAt(pos, len));
    NoRawSnoc(chunks, NormalChunkAt(pos, len));
  }

  lemma AddDeflate(zlib: Zlib, img: seq<Byte>, chunks: seq<Chunk>, pos: nat, i: Inflated)
    requires SelfDelimiting(zlib) && Tiles(zlib, img, chunks) && Span(chunks) == pos && NoRaw(Shape(chunks))
    requires pos <= |img| && zlib.inflate(img[pos..]) == Some(i)
    ensures pos + i.used <= |img|
    ensures var cs := chunks + [DeflateChunkAt(pos, i)];
            Tiles(zlib, img, cs) && Span(cs) == pos + i.used && NoRaw(Shape(cs))
  {
    hide Tiles, NoRaw, Shape, Span;
    assert img[pos..][..i.used] == img[pos..pos + i.used];
    TilesSnoc(zlib, img, chunks, DeflateChunkAt(pos, i));
    NoRawSnoc(chunks, DeflateChunkAt(pos, i));
  }

  /** The kinds of an image with `n` gzip members once its normal chunks are merged. */
  function Alternating(n: nat, nonempty: bool): (kinds: seq<Kind>)
    ensures |kinds| == if n > 0 then 2 * n + 1 else if nonempty then 1 else 0
  {
    if n > 0 then Alternating(n - 1, true) + [Deflate, Normal]
    else if nonempty then [Normal]
    else []
  }

  /** The kinds of the chunks cut off so far, with `n` members; the last is never a deflate chunk. */
  ghost predicate Cut(kinds: seq<Kind>, n: nat) {
    && Compressed(kinds) == Alternating(n, kinds != [])
    && (kinds == [] ==> n == 0) && (kinds != [] ==> kinds[|kinds| - 1].Normal?)
  }

  lemma CutNormal(kinds: seq<Kind>, n: nat)
    requires Cut(kinds, n)
    ensures Cut(kinds + [Normal], n)
  {
    var longer := kinds + [Normal];
    assert longer[..|longer| - 1] == kinds;
  }

  lemma CutMember(kinds: seq<Kind>, n: nat)
    requires Cut(kinds, n)
    ensures Cut(kinds + [Normal] + [Deflate] + [Normal], n + 1)
  {
    CutNormal(kinds, n);
    var a := kinds + [Normal];
    var b := a + [Deflate];
    var c := b + [Normal];
    assert b[..|b| - 1] == a && c[..|c| - 1] == b;
    assert Compressed(c) == Compressed(a) + [Deflate] + [Normal];
  }

  lemma ShapeSnoc(cs: seq<Chunk>, c: Chunk)
    ensures Shape(cs + [c]) == Shape(cs) + [c.kind]
  {
  }

  lemma ShapeOfMember(chunks0: seq<Chunk>, chunks: seq<Chunk>, pos: nat)
    requires Member(chunks0, chunks, pos)
    ensures Shape(chunks) == Shape(chunks0) + [Normal] + [Deflate] + [Normal]
  {
    var kinds := Shape(chunks0) + [Normal] + [Deflate] + [Normal];
    forall i | 0 <= i < |chunks| ensures chunks[i].kind == kinds[i] {
      if i < |chunks0| {
        assert chunks[i] == chunks[..|chunks0|][i];
      }
    }
  }

  /** How far ReadImage has come: the members before `pos` are complete and have been cut off. */
  ghost predicate CutTo(zlib: Zlib, img: seq<Byte>, pos: int, chunks: seq<Chunk>, done: seq<nat>) {
    && 0 <= pos <= |img| && (pos > 0 <==> chunks != [])
    && Members(zlib, img, 0) == done + Members(zlib, img, pos)
    && Cut(Shape(chunks), |done|) && BehindHeaders(zlib, img, Deflates(chunks), done)
  }

  /** The deflate chunk lies behind the header of the member that begins at `start`, and holds what inflates there. */
  predicate BehindHeader(zlib: Zlib, img: seq<Byte>, c: Chunk, start: nat) {
    && start + GZIP_HEADER_LEN <= |img| && zlib.inflate(img[start + GZIP_HEADER_LEN..]).Some?
    && c == DeflateChunkAt(start + GZIP_HEADER_LEN, zlib.inflate(img[start + GZIP_HEADER_LEN..]).value)
  }

  predicate BehindHeaders(zlib: Zlib, img: seq<Byte>, deflates: seq<Chunk>, starts: seq<nat>) {
    |deflates| == |starts| && forall i :: 0 <= i < |starts| ==> BehindHeader(zlib, img, deflates[i], starts[i])
  }

  lemma DeflatesOfMember(chunks0: seq<Chunk>, chunks: seq<Chunk>, pos: nat)
    requires Member(chunks0, chunks, pos)
    ensures Deflates(chunks) == Deflates(chunks0) + [chunks[|chunks0| + 1]]
  {
    var n := |chunks0|;
    assert chunks[..n] == chunks0 && chunks[..n + 3] == chunks;
    DeflatesNext(chunks, n);
    DeflatesNext(chunks, n + 1);
    DeflatesNext(chunks, n + 2);
  }

  lemma CutToNormal(zlib: Zlib, img: seq<Byte>, pos: nat, chunks: seq<Chunk>, done: seq<nat>, len: nat)
    requires CutTo(zlib, img, pos, chunks, done) && 0 < len && pos + len <= |img|
    requires forall k :: pos <= k < pos + len ==> !MagicAt(img, k)
    ensures CutTo(zlib, img, pos + len, chunks + [NormalChunkAt(pos, len)], done)
  {
    hide Cut, MagicAt, FateAt, BehindHeader;
    DeflatesSnoc(chunks, NormalChunkAt(pos, len));
    ShapeSnoc(chunks, NormalChunkAt(pos, len));
    CutNormal(Shape(chunks), |done|);
    SkipPlain(zlib, img, pos, pos + len);
  }

  lemma {:induction false} SkipPlain(zlib: Zlib, img: seq<Byte>, pos: nat, end: nat)
    requires pos <= end <= |img| && forall k :: pos <= k < end ==> !MagicAt(img, k)
    ensures NextMagic(img, pos) == NextMagic(img, end)
    ensures Members(zlib, img, pos) == Members(zlib, img, end)
    decreases end - pos
  {
    hide MagicAt, FateAt;
    if pos >= end {
    } else {
      SkipPlain(zlib, img, pos + 1, end);
    }
  }

  lemma CutToMember(zlib: Zlib, img: seq<Byte>, pos: nat, chunks0: seq<Chunk>, done: seq<nat>, chunks: seq<Chunk>)
    requires CutTo(zlib, img, pos, chunks0, done) && Member(chunks0, chunks, pos)
    requires pos < |img| && MagicAt(img, pos) && FateAt(zlib, img, pos).Complete?
    requires BehindHeader(zlib, img, chunks[|chunks0| + 1], pos)
    ensures CutTo(zlib, img, FateAt(zlib, img, pos).end, chunks, done + [pos])
  {
    hide Cut, MagicAt, FateAt, Deflates, BehindHeader;
    DeflatesOfMember(chunks0, chunks, pos);
    ShapeOfMember(chunks0, chunks, pos);
    CutMember(Shape(chunks0), |done|);
    assert NextMagic(img, pos) == Some(pos);
  }

  /** The loop ends at `pos`: that member is the last, and says how. */
  lemma LastMember(zlib: Zlib, img: seq<Byte>, pos: nat, chunks: seq<Chunk>, done: seq<nat>)
    requires CutTo(zlib, img, pos, chunks, done) && pos < |img| && MagicAt(img, pos)
    requires !FateAt(zlib, img, pos).Complete?
    ensures Verdict(zlib, img) == StatusOf(FateAt(zlib, img, pos))
  {
    hide Cut, MagicAt, FateAt, StatusOf;
    assert NextMagic(img, pos) == Some(pos);
    assert Members(zlib, img, pos) == [pos];
  }

  lemma NoMemberLeft(zlib: Zlib, img: seq<Byte>, chunks: seq<Chunk>, done: seq<nat>)
    requires CutTo(zlib, img, |img|, chunks, done)
    requires forall i :: 0 <= i < |done| ==> done[i] < |img| && FateAt(zlib, img, done[i]).Complete?
    ensures Verdict(zlib, img).Read?
    ensures Compressed(Shape(chunks)) == Alternating(|Members(zlib, img, 0)|, img != [])
    ensures BehindHeaders(zlib, img, Deflates(chunks), Members(zlib, img, 0))
  {
    hide MagicAt, FateAt, Alternating, Deflates;
    assert Members(zlib, img, |img|) == [];
    assert Members(zlib, img, 0) == done;
  }

  /**
   ReadImage.  The image is read exactly if every gzip header the scan finds begins a complete member, and then the
   chunks cover it, three for each member.  The code does not terminate exactly if it comes to a stream that does
   not inflate, or to a header that is cut off by the end of the image, where the scan does not advance.
   */
  method ReadImage(zlib: Zlib, img: seq<Byte>) returns (status: Status, chunks: seq<Chunk>)
    requires SelfDelimiting(zlib)
    ensures status == Verdict(zlib, img)
    ensures status.Read? ==> Covers(zlib, img, chunks) && NoRaw(Shape(chunks)) && Scanned(img, chunks)
    ensures status.Read? ==> Compressed(Shape(chunks)) == Alternating(|Members(zlib, img, 0)|, img != [])
    ensures status.Read? ==> BehindHeaders(zlib, img, Deflates(chunks), Members(zlib, img, 0))
  {
    chunks := [];
    hide Tiles, SelfDelimiting, NoRaw, Shape, Scanned, CutTo, FateAt, StatusOf, Verdict, Alternating, Members,
         Compressed, Deflates, BehindHeaders, BehindHeader;
    NothingTiles(zlib, img);
    var pos := 0;
    ghost var done: seq<nat> := [];
    NothingCut(zlib, img);
    while pos < |img|
      invariant pos <= |img| && Tiles(zlib, img, chunks) && Span(chunks) == pos && NoRaw(Shape(chunks))
      invariant Scanned(img, chunks)
      invariant CutTo(zlib, img, pos, chunks, done)
      invariant forall i :: 0 <= i < |done| ==> done[i] < |img| && FateAt(zlib, img, done[i]).Complete?
    {
      if |img| - pos >= 4 && MagicAt(img, pos) {
        ghost var pos0, chunks0 := pos, chunks;
        var s;
        s, chunks, pos := ReadMember(zlib, img, pos, chunks);
        if !s.Read? {
          LastMember(zlib, img, pos0, chunks0, done);
          return s, chunks;
        }
        ScannedMember(img, chunks0, chunks, pos0);
        CutToMember(zlib, img, pos0, chunks0, done, chunks);
        done := done + [pos0];
      } else {
        var len := ScanNormal(img, pos);
        if len == 0 {
          HalfHeaderHere(zlib, img, pos);
          LastMember(zlib, img, pos, chunks, done);
          return Stuck, chunks;
        }
        TilesSnoc(zlib, img, chunks, NormalChunkAt(pos, len));
        NoRawSnoc(chunks, NormalChunkAt(pos, len));
        ScannedNormal(img, chunks, pos, len);
        CutToNormal(zlib, img, pos, chunks, done, len);
        chunks := chunks + [NormalChunkAt(pos, len)];
        pos := pos + len;
      }
    }
    NoMemberLeft(zlib, img, chunks, done);
    return Read, chunks;
  }

  lemma NothingTiles(zlib: Zlib, img: seq<Byte>)
    ensures Tiles(zlib, img, []) && NoRaw(Shape([])) && Scanned(img, [])
  {
  }

  lemma NothingCut(zlib: Zlib, img: seq<Byte>)
    ensures CutTo(zlib, img, 0, [], [])
  {
    assert Members(zlib, img, 0) == [] + Members(zlib, img, 0);
  }

  lemma HalfHeaderHere(zlib: Zlib, img: seq<Byte>, pos: nat)
    requires pos < |img| && |img| - pos < 4
    ensures StatusOf(FateAt(zlib, img, pos)).Stuck? && !FateAt(zlib, img, pos).Complete?
  {
  }
}
