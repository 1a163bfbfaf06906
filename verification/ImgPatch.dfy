/**
 ApplyImagePatch of applypatch/imgpatch.c: the parser of the imgdiff container and the replay of its chunks.

 zlib is a parameter: inflating a raw deflate stream gives the data and the length of the stream, or nothing;
 deflating is a function of the encoder parameters and the data.
 */
module ImgPatch {
  import opened Common
  import opened LittleEndian
  import BsPatch

  datatype Params = Params(level: int, deflateMethod: int, windowBits: int, memLevel: int, strategy: int)

  datatype Inflated = Inflated(data: seq<Byte>, used: nat)

  datatype Zlib = Zlib(inflate: seq<Byte> -> Option<Inflated>, deflate: (Params, seq<Byte>) -> seq<Byte>)

  const MAGIC: seq<Byte> := [0x49, 0x4d, 0x47, 0x44, 0x49, 0x46, 0x46, 0x32]  // "IMGDIFF2"
  const CHUNK_NORMAL := 0
  const CHUNK_DEFLATE := 2
  const CHUNK_RAW := 3
  const HEADER_SIZE := 12

  /**
   Image: the bytes handed to the sink.  Fail: a return of -1.  Undefined: undefined behaviour of the C code, or a
   bsdiff patch in it that is Short.
   */
  datatype Outcome = Image(data: seq<Byte>) | Fail | Undefined

  /** One chunk: the bytes it emits and the position of the next record. */
  datatype Step = Emit(data: seq<Byte>, next: nat) | Stop(why: Outcome)

  /** A section of the old data, if it lies inside. */
  function Section(text: seq<Byte>, start: int, len: int): (section: Option<seq<Byte>>) {
    if 0 <= start && 0 <= len && start + len <= |text| then Some(text[start..start + len]) else None
  }

  function NormalChunk(unzip: seq<Byte> -> seq<Byte>, text: seq<Byte>, patch: seq<Byte>, pos: nat): (step: Step)
    requires pos + 24 <= |patch|
  {
    var r := patch[pos..pos + 24];
    var offset := Read8(r[16..24]);
    match Section(text, Read8(r[..8]), Read8(r[8..16]))
    case None => Stop(Undefined)
    case Some(source) =>
      if offset < 0 then Stop(Undefined)
      else
        match BsPatch.PatchMem(unzip, source, patch, offset)
        case Done(data) => Emit(data, pos + 24)
        case Fail => Emit([], pos + 24)  // the result of ApplyBSDiffPatch is not looked at
        case _ => Stop(Undefined)
  }

  function RawChunk(patch: seq<Byte>, pos: nat): (step: Step)
    requires pos + 4 <= |patch|
  {
    var len := Read4(patch[pos..pos + 4]);
    if pos + 4 + len > |patch| then Stop(Fail)
    else if len < 0 then Stop(Undefined)
    else Emit(patch[pos + 4..pos + 4 + len], pos + 4 + len)
  }

  function ReadParams(r: seq<Byte>): (params: Params)
    requires |r| == 20
  {
    Params(Read4(r[..4]), Read4(r[4..8]), Read4(r[8..12]), Read4(r[12..16]), Read4(r[16..20]))
  }

  function DeflateChunk(zlib: Zlib, unzip: seq<Byte> -> seq<Byte>, text: seq<Byte>, patch: seq<Byte>, pos: nat)
      : (step: Step)
    requires pos + 60 <= |patch|
  {
    var r := patch[pos..pos + 60];
    var offset, expanded := Read8(r[16..24]), Read8(r[24..32]);
    match Section(text, Read8(r[..8]), Read8(r[8..16]))
    case None => Stop(Undefined)
    case Some(source) =>
      if offset < 0 then Stop(Undefined)
      else
        match zlib.inflate(source)
        case None => Stop(Fail)
        case Some(i) =>
          if |i.data| != expanded then Stop(Fail)
          else
            match BsPatch.PatchMem(unzip, i.data, patch, offset)
            case Done(data) => Emit(zlib.deflate(ReadParams(r[40..60]), data), pos + 60)
            case Fail => Stop(Fail)
            case _ => Stop(Undefined)
  }

  /** The chunk whose record begins at `pos`. */
  function ChunkAt(zlib: Zlib, unzip: seq<Byte> -> seq<Byte>, text: seq<Byte>, patch: seq<Byte>, pos: nat)
      : (step: Step)
    ensures step.Stop? ==> !step.why.Image?
    ensures step.Emit? ==> pos + 4 <= |patch|
  {
    if pos + 4 > |patch| then Stop(Fail)
    else
      var kind := Read4(patch[pos..pos + 4]);
      if kind == CHUNK_NORMAL then
        if pos + 28 > |patch| then Stop(Fail) else NormalChunk(unzip, text, patch, pos + 4)
      else if kind == CHUNK_RAW then
        if pos + 8 > |patch| then Stop(Fail) else RawChunk(patch, pos + 4)
      else if kind == CHUNK_DEFLATE then
        if pos + 64 > |patch| then Stop(Fail) else DeflateChunk(zlib, unzip, text, patch, pos + 4)
      else Stop(Fail)
  }

  function Prefixed(data: seq<Byte>, r: Outcome): (outcome: Outcome) {
    if r.Image? then Image(data + r.data) else r
  }

  /** The `n` chunks whose records begin at `pos`. */
  function ChunksAt(zlib: Zlib, unzip: seq<Byte> -> seq<Byte>, text: seq<Byte>, patch: seq<Byte>, pos: nat, n: nat)
      : (outcome: Outcome)
    decreases n
  {
    if n == 0 then Image([])
    else
      match ChunkAt(zlib, unzip, text, patch, pos)
      case Stop(why) => why
      case Emit(data, next) => Prefixed(data, ChunksAt(zlib, unzip, text, patch, next, n - 1))
  }

  /**
   What one chunk hands to the sink.  `checked`: whether an error of the sink stops the work; for a normal chunk the
   result is not looked at, only the digest then leaves the chunk out.
   */
  datatype Piece = Piece(data: seq<Byte>, checked: bool)

  function Joined(pieces: seq<Piece>): (bytes: seq<Byte>) {
    if pieces == [] then [] else Joined(pieces[..|pieces| - 1]) + pieces[|pieces| - 1].data
  }

  function IsNormal(patch: seq<Byte>, pos: nat): (normal: bool)
    requires pos + 4 <= |patch|
  {
    Read4(patch[pos..pos + 4]) == CHUNK_NORMAL
  }

  /** The pieces of the `n` chunks whose records begin at `pos`, up to one that cannot be decoded. */
  function PiecesAt(zlib: Zlib, unzip: seq<Byte> -> seq<Byte>, text: seq<Byte>, patch: seq<Byte>, pos: nat, n: nat)
      : (pieces: seq<Piece>)
    decreases n
  {
    if n == 0 then []
    else
      match ChunkAt(zlib, unzip, text, patch, pos)
      case Stop(_) => []
      case Emit(data, next) =>
        [Piece(data, !IsNormal(patch, pos))] + PiecesAt(zlib, unzip, text, patch, next, n - 1)
  }

  function PiecesOf(zlib: Zlib, unzip: seq<Byte> -> seq<Byte>, text: seq<Byte>, patch: seq<Byte>): (pieces: seq<Piece>)
  {
    if |patch| < HEADER_SIZE || patch[..8] != MAGIC then []
    else
      var n := Read4(patch[8..12]);
      PiecesAt(zlib, unzip, text, patch, HEADER_SIZE, if n < 0 then 0 else n)
  }

  /** What ApplyImagePatch does. */
  function ImageOf(zlib: Zlib, unzip: seq<Byte> -> seq<Byte>, text: seq<Byte>, patch: seq<Byte>): (outcome: Outcome) {
    if |patch| < HEADER_SIZE then Fail
    else if patch[..8] != MAGIC then Fail
    else
      var n := Read4(patch[8..12]);
      ChunksAt(zlib, unzip, text, patch, HEADER_SIZE, if n < 0 then 0 else n)
  }

  lemma PrefixedNothing(r: Outcome)
    ensures Prefixed([], r) == r
  {
    if r.Image? {
      assert [] + r.data == r.data;
    }
  }

  lemma PrefixedTwice(a: seq<Byte>, b: seq<Byte>, r: Outcome)
    ensures Prefixed(a, Prefixed(b, r)) == Prefixed(a + b, r)
  {
    if r.Image? {
      assert a + (b + r.data) == a + b + r.data;
    }
  }

  /** The do loop around deflate: the compressed data goes to the sink in pieces of at most `size` bytes. */
  method SinkPieces(compressed: seq<Byte>, size: nat) returns (sunk: seq<Byte>)
    requires size > 0
    ensures sunk == compressed
  {
    sunk := [];
    var done := 0;
    while true
      invariant done <= |compressed| && sunk == compressed[..done]
      decreases |compressed| - done + (if done < |compressed| then 1 else 0)
    {
      var have := if |compressed| - done < size then |compressed| - done else size;
      sunk := sunk + compressed[done..done + have];
      assert compressed[..done] + compressed[done..done + have] == compressed[..done + have];
      done := done + have;
      if done == |compressed| {
        break;
      }
    }
  }

  /** The chunk at `pos`, decoded with the checks of the code and written to the sink. */
  method ApplyChunk(zlib: Zlib, unzip: seq<Byte> -> seq<Byte>, text: seq<Byte>, patch: seq<Byte>, pos0: nat,
                    sink: seq<Piece>)
      returns (stopped: Option<Outcome>, sink': seq<Piece>, pos: nat)
    ensures match ChunkAt(zlib, unzip, text, patch, pos0)
            case Stop(why) => stopped == Some(why) && sink' == sink
            case Emit(data, next) =>
              stopped == None && sink' == sink + [Piece(data, !IsNormal(patch, pos0))] && pos == next
  {
    pos := pos0;
    sink' := sink;
    if pos + 4 > |patch| {
      return Some(Fail), sink', pos;
    }
    var kind := Read4(patch[pos..pos + 4]);
    pos := pos + 4;
    if kind == CHUNK_NORMAL {
      if pos + 24 > |patch| {
        return Some(Fail), sink', pos;
      }
      var r := patch[pos..pos + 24];
      var source, offset := Section(text, Read8(r[..8]), Read8(r[8..16])), Read8(r[16..24]);
      pos := pos + 24;
      if source.None? || offset < 0 {
        return Some(Undefined), sink', pos;
      }
      var result := BsPatch.ApplyBSDiffPatchMem(unzip, source.value, patch, offset);
      if result.Undefined? || result.Short? {
        return Some(Undefined), sink', pos;
      }
      sink' := sink + [Piece(if result.Done? then result.data else [], false)];
    } else if kind == CHUNK_RAW {
      if pos + 4 > |patch| {
        return Some(Fail), sink', pos;
      }
      var len := Read4(patch[pos..pos + 4]);
      pos := pos + 4;
      if pos + len > |patch| {
        return Some(Fail), sink', pos;
      }
      if len < 0 {
        return Some(Undefined), sink', pos;
      }
      sink' := sink + [Piece(patch[pos..pos + len], true)];
      pos := pos + len;
    } else if kind == CHUNK_DEFLATE {
      if pos + 60 > |patch| {
        return Some(Fail), sink', pos;
      }
      var stop, data := ApplyDeflate(zlib, unzip, text, patch, pos);
      pos := pos + 60;
      if stop.Some? {
        return stop, sink', pos;
      }
      sink' := sink + [Piece(data, true)];
    } else {
      return Some(Fail), sink', pos;
    }
    return None, sink', pos;
  }

  /** A deflate chunk: expand the source, patch it, and compress the result again. */
  method ApplyDeflate(zlib: Zlib, unzip: seq<Byte> -> seq<Byte>, text: seq<Byte>, patch: seq<Byte>, pos: nat)
      returns (stopped: Option<Outcome>, data: seq<Byte>)
    requires pos + 60 <= |patch|
    ensures match DeflateChunk(zlib, unzip, text, patch, pos)
            case Stop(why) => stopped == Some(why)
            case Emit(emitted, next) => stopped == None && data == emitted && next == pos + 60
  {
    data := [];
    var r := patch[pos..pos + 60];
    var source := Section(text, Read8(r[..8]), Read8(r[8..16]));
    var offset, expanded := Read8(r[16..24]), Read8(r[24..32]);
    if source.None? || offset < 0 {
      return Some(Undefined), data;
    }
    var inflated := zlib.inflate(source.value);
    if inflated.None? || |inflated.value.data| != expanded {
      return Some(Fail), data;
    }
    var result := BsPatch.ApplyBSDiffPatchMem(unzip, inflated.value.data, patch, offset);
    if result.Undefined? || result.Short? {
      return Some(Undefined), data;
    }
    if result.Fail? {
      return Some(Fail), data;
    }
    var size := if expanded < 32768 then 32768 else expanded;
    data := SinkPieces(zlib.deflate(ReadParams(r[40..60]), result.data), size);
    return None, data;
  }

  lemma JoinedSnoc(pieces: seq<Piece>, piece: Piece)
    ensures Joined(pieces + [piece]) == Joined(pieces) + piece.data
  {
    assert (pieces + [piece])[..|pieces|] == pieces;
  }

  /** What has gone to the sink, and what the `m` chunks from `pos` on still make of it. */
  ghost predicate Done(zlib: Zlib, unzip: seq<Byte> -> seq<Byte>, text: seq<Byte>, patch: seq<Byte>, sink: seq<Piece>,
                       pos: nat, m: nat)
  {
    && ImageOf(zlib, unzip, text, patch) == Prefixed(Joined(sink), ChunksAt(zlib, unzip, text, patch, pos, m))
    && PiecesOf(zlib, unzip, text, patch) == sink + PiecesAt(zlib, unzip, text, patch, pos, m)
  }

  lemma DoneBegin(zlib: Zlib, unzip: seq<Byte> -> seq<Byte>, text: seq<Byte>, patch: seq<Byte>)
    requires |patch| >= HEADER_SIZE && patch[..8] == MAGIC
    ensures var n := Read4(patch[8..12]); Done(zlib, unzip, text, patch, [], HEADER_SIZE, if n < 0 then 0 else n)
  {
    var n := Read4(patch[8..12]);
    PrefixedNothing(ChunksAt(zlib, unzip, text, patch, HEADER_SIZE, if n < 0 then 0 else n));
  }

  lemma DoneNext(zlib: Zlib, unzip: seq<Byte> -> seq<Byte>, text: seq<Byte>, patch: seq<Byte>, sink: seq<Piece>,
                 pos: nat, m: nat)
    requires Done(zlib, unzip, text, patch, sink, pos, m) && m > 0
    ensures match ChunkAt(zlib, unzip, text, patch, pos)
            case Stop(why) =>
              ImageOf(zlib, unzip, text, patch) == why && PiecesOf(zlib, unzip, text, patch) == sink
            case Emit(data, next) =>
              Done(zlib, unzip, text, patch, sink + [Piece(data, !IsNormal(patch, pos))], next, m - 1)
  {
    hide ChunkAt, ImageOf, PiecesOf, Joined, IsNormal;
    match ChunkAt(zlib, unzip, text, patch, pos) {
      case Stop(why) =>
      case Emit(data, next) =>
        var piece := Piece(data, !IsNormal(patch, pos));
        JoinedSnoc(sink, piece);
        PrefixedTwice(Joined(sink), data, ChunksAt(zlib, unzip, text, patch, next, m - 1));
        assert sink + ([piece] + PiecesAt(zlib, unzip, text, patch, next, m - 1)) ==
               sink + [piece] + PiecesAt(zlib, unzip, text, patch, next, m - 1);
    }
  }

  lemma DoneEnd(zlib: Zlib, unzip: seq<Byte> -> seq<Byte>, text: seq<Byte>, patch: seq<Byte>, sink: seq<Piece>,
                pos: nat)
    requires Done(zlib, unzip, text, patch, sink, pos, 0)
    ensures ImageOf(zlib, unzip, text, patch) == Image(Joined(sink)) && PiecesOf(zlib, unzip, text, patch) == sink
  {
    assert Joined(sink) + [] == Joined(sink);
  }

  /** ApplyImagePatch: the outcome, and what goes to the sink piece by piece. */
  method ApplyImagePatch(zlib: Zlib, unzip: seq<Byte> -> seq<Byte>, text: seq<Byte>, patch: seq<Byte>)
      returns (r: Outcome, sink: seq<Piece>)
    ensures r == ImageOf(zlib, unzip, text, patch) && sink == PiecesOf(zlib, unzip, text, patch)
    ensures r.Image? ==> Joined(sink) == r.data
  {
    hide ChunkAt, ImageOf, PiecesOf, Done, Joined;
    sink := [];
    if |patch| < HEADER_SIZE {
      NoHeader(zlib, unzip, text, patch);
      return Fail, sink;
    }
    if patch[..8] != MAGIC {
      NoHeader(zlib, unzip, text, patch);
      return Fail, sink;
    }
    DoneBegin(zlib, unzip, text, patch);
    var n := Read4(patch[8..12]);
    var pos: nat := HEADER_SIZE;
    var i := 0;
    while i < n
      invariant 0 <= i && (i <= n || n < 0 == i)
      invariant Done(zlib, unzip, text, patch, sink, pos, if n < i then 0 else n - i)
    {
      DoneNext(zlib, unzip, text, patch, sink, pos, n - i);
      var stopped;
      stopped, sink, pos := ApplyChunk(zlib, unzip, text, patch, pos, sink);
      if stopped.Some? {
        return stopped.value, sink;
      }
      i := i + 1;
    }
    DoneEnd(zlib, unzip, text, patch, sink, pos);
    return Image(Joined(sink)), sink;
  }

  lemma NoHeader(zlib: Zlib, unzip: seq<Byte> -> seq<Byte>, text: seq<Byte>, patch: seq<Byte>)
    requires |patch| < HEADER_SIZE || patch[..8] != MAGIC
    ensures ImageOf(zlib, unzip, text, patch) == Fail && PiecesOf(zlib, unzip, text, patch) == []
  {
  }
}
