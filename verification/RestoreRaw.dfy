/** cmd_mtd_restore_raw_partition of mtdutils/mtdutils.c: flashing a file with its header last. */
module RestoreRaw {
  import opened Common
  import opened Flash
  import opened Mtd
  import opened Posix

  const HEADER_SIZE := 2048

  /** No byte of the first `h` is anything but zero. */
  predicate Blank(data: seq<Byte>, h: int) {
    forall i :: 0 <= i < h && i < |data| ==> data[i] == 0
  }

  /**
   A state of the first pass: either nothing but the first good block has changed, or that block begins with zeros
   where the header belongs.
   */
  predicate Early(first: Blocks, t: Blocks, g: int, h: int) {
    && |t| == |first|
    && (OnlyDiffers(g, first, t) || (0 <= g < |t| && Blank(t[g], h)))
  }

  /** A state of the second pass: everything behind the blocks of the header is there. */
  predicate Late(t: Blocks, bad: set<int>, end: int, tail: seq<Byte>, rewritten: int) {
    && 0 <= rewritten <= |Stream(t, bad, 0, end)|
    && Stream(t, bad, 0, end)[rewritten..] == tail
  }

  /** The first block written holds the first bytes written. */
  lemma FirstBlock(blocks: Blocks, bad: set<int>, size: nat, pos: int, written: seq<Byte>, h: int)
    requires 0 < pos <= |blocks| && Uniform(blocks, size) && FirstGood(bad, 0, |blocks|) < pos
    requires Stream(blocks, bad, 0, pos) <= written && Blank(written, h)
    ensures Blank(blocks[FirstGood(bad, 0, |blocks|)], h)
  {
    var g := FirstGood(bad, 0, |blocks|);
    StreamNext(blocks, bad, 0, 0, g);
    StreamJoin(blocks, bad, 0, g + 1, pos);
    assert blocks[g] <= written;
  }

  lemma EarlyStates(trace: seq<Blocks>, since: int, pos: int, bad: set<int>, size: nat, written: seq<Byte>, h: int)
    requires 0 < since <= |trace| && 0 <= pos <= |trace[|trace| - 1]| == |trace[since - 1]|
    requires Uniform(trace[|trace| - 1], size)
    requires Ordered(trace, since, pos, FirstGood(bad, 0, |trace[|trace| - 1]|))
    requires Stream(trace[|trace| - 1], bad, 0, pos) <= written && Blank(written, h)
    ensures forall i :: since <= i < |trace| ==>
              Early(trace[since - 1], trace[i], FirstGood(bad, 0, |trace[|trace| - 1]|), h)
  {
    hide Blank, Stream, Uniform;
    var first, last := trace[since - 1], trace[|trace| - 1];
    var g := FirstGood(bad, 0, |last|);
    if pos > 0 {
      FirstBlock(last, bad, size, pos, written, h);
    }
    forall i | since <= i < |trace| ensures Early(first, trace[i], g, h) {
      assert InOrder(first, trace[i], last, pos, g);
      if pos == 0 {
        assert trace[i] == trace[i][0..] == first[0..] == first;
      }
    }
  }

  /** The states of a writer that wrote no more than `rewritten` bytes leave what lies behind them. */
  lemma LateState(first: Blocks, t: Blocks, bad: set<int>, size: nat, pos: int, end: int, rewritten: int)
    requires |t| == |first| && 0 <= pos <= |t| && 0 <= end <= |t| && t[pos..] == first[pos..]
    requires Uniform(t, size) && Uniform(first, size)
    requires Room(bad, pos, size) <= rewritten <= |Stream(first, bad, 0, end)|
    ensures Late(t, bad, end, Stream(first, bad, 0, end)[rewritten..], rewritten)
  {
    StreamRoom(t, bad, size, end);
    StreamRoom(first, bad, size, end);
    if pos <= end {
      assert t[pos..end] == t[pos..][..end - pos] == first[pos..end];
      StreamSame(t, first, bad, pos, end);
      StreamJoin(t, bad, 0, pos, end);
      StreamJoin(first, bad, 0, pos, end);
      StreamRoom(t, bad, size, pos);
      StreamRoom(first, bad, size, pos);
      SameTails(Stream(t, bad, 0, pos), Stream(first, bad, 0, pos), Stream(t, bad, pos, end), rewritten);
    } else {
      RoomGrows(bad, end, pos, size);
    }
  }

  lemma SameTails(a: seq<Byte>, b: seq<Byte>, tail: seq<Byte>, n: int)
    requires |a| == |b| <= n <= |a| + |tail|
    ensures (a + tail)[n..] == (b + tail)[n..]
  {
  }

  lemma LateStates(trace: seq<Blocks>, since: int, pos: int, bad: set<int>, size: nat, end: int, rewritten: int, g: int)
    requires Ordered(trace, since, pos, g) && 0 <= pos <= |trace[since - 1]| && 0 <= end <= |trace[since - 1]|
    requires forall i :: 0 <= i < |trace| ==> Uniform(trace[i], size)
    requires Room(bad, pos, size) <= rewritten <= |Stream(trace[since - 1], bad, 0, end)|
    ensures forall i :: since <= i < |trace| ==>
              Late(trace[i], bad, end, Stream(trace[since - 1], bad, 0, end)[rewritten..], rewritten)
  {
    hide Stream, Uniform, Room, Late;
    var first, last := trace[since - 1], trace[|trace| - 1];
    forall i | since <= i < |trace|
      ensures Late(trace[i], bad, end, Stream(first, bad, 0, end)[rewritten..], rewritten)
    {
      assert InOrder(first, trace[i], last, pos, g);
      LateState(first, trace[i], bad, size, pos, end, rewritten);
    }
  }

  /** Every state of the writer is early, as long as it was given zeros for the header. */
  lemma WriterEarly(w: Writer, h: int)
    requires w.flash.Valid() && w.InOrder() && Blank(w.written, h) && w.flash.worn <= w.flash.bad
    requires 0 < w.since <= |w.flash.trace| && |w.flash.trace[w.since - 1]| == |w.flash.blocks|
    ensures AllEarly(w.flash, w.flash.trace[w.since - 1], w.since, h)
  {
    hide Ordered, Blank, Early, Stream;
    assert Avoid(w.flash) == w.flash.bad;
    EarlyStates(w.flash.trace, w.since, w.pos, w.flash.bad, w.flash.blockSize, w.written, h);
  }

  ghost predicate AllEarly(flash: Device, first: Blocks, since: int, h: int)
    reads flash
  {
    0 <= since && |first| == |flash.blocks| &&
    forall i :: since <= i < |flash.trace| ==>
      Early(first, flash.trace[i], FirstGood(flash.bad, 0, |flash.blocks|), h)
  }

  /** The first pass: zeros in place of the header, then the rest of the file. */
  method FirstPass(flash: Device, file: seq<Byte>, h: nat, reliable: bool) returns (ok: bool, ghost end: int)
    requires flash.Valid() && flash.worn <= flash.bad && 0 < h <= |file|
    modifies flash
    ensures flash.Valid() && |flash.blocks| == |old(flash.blocks)| && old(flash.trace) <= flash.trace
    ensures AllEarly(flash, old(flash.blocks), |old(flash.trace)|, h)
    ensures ok ==> 0 <= end <= |flash.blocks|
    ensures ok ==> Stream(flash.blocks, flash.bad, 0, end) == Padded(Filled(0, h) + file[h..], flash.blockSize)
    ensures ok ==> |file| <= Room(flash.bad, |flash.blocks|, flash.blockSize)
    ensures reliable && |file| <= Room(flash.bad, |flash.blocks|, flash.blockSize) ==> ok
  {
    hide Stream, Room, Padded, Uniform, AllEarly, Blank, Ordered, Early, Holds, Recorded, Filled, FirstGood,
         SparesBad;
    var out := new Writer(flash);
    assert flash.trace[out.since - 1] == old(flash.blocks);
    assert Avoid(flash) == flash.bad;
    end := 0;
    var zeros := Filled(0, h);
    var wrote := out.WriteData(zeros);
    BlankFront(out.written, zeros, h);
    WriterEarly(out, h);
    if wrote != h {
      return false, end;
    }
    var at := h;
    var len := 0;
    ghost var given := zeros;
    assert given == zeros + file[h..h];
    while true
      invariant h <= at <= |file| && out.Valid() && out.InOrder()
      invariant out.written == given == zeros + file[h..at]
      invariant fresh(out) && fresh(out.buffer) && out.flash == flash && out.since == |old(flash.trace)|
      invariant |flash.blocks| == |old(flash.blocks)| && old(flash.trace) <= flash.trace
      invariant flash.trace[out.since - 1] == old(flash.blocks)
      invariant AllEarly(flash, old(flash.blocks), |old(flash.trace)|, h)
      decreases |file| - at
    {
      len := ReadFile(file, at, HEADER_SIZE, reliable, false);
      if len <= 0 {
        break;
      }
      wrote := out.WriteData(file[at..at + len]);
      FileFurther(zeros, file, h, at, len);
      given := given + file[at..at + len];
      BlankFront(out.written, given, h);
      WriterEarly(out, h);
      if wrote != len {
        return false, end;
      }
      at := at + len;
    }
    if len < 0 {
      return false, end;
    }
    var r := out.Close();
    BlankFront(out.written, given + Filled(0, flash.blockSize), h);
    WriterEarly(out, h);
    assert file[h..at] == file[h..];
    return r == 0, out.pos;
  }

  lemma FileFurther(zeros: seq<Byte>, file: seq<Byte>, h: nat, at: nat, len: nat)
    requires h <= at && at + len <= |file|
    ensures zeros + file[h..at] + file[at..at + len] == zeros + file[h..at + len]
  {
  }

  lemma FileFront(file: seq<Byte>, at: nat, len: nat)
    requires at + len <= |file|
    ensures file[..at] + file[at..at + len] == file[..at + len]
  {
  }

  lemma BlankFront(written: seq<Byte>, given: seq<Byte>, h: nat)
    requires Filled(0, h) <= given && written <= given
    ensures Blank(written, h)
  {
  }

  lemma {:induction false} RoundedTwice(n: int, size: nat)
    requires size > 0
    ensures Rounded(Rounded(n, size), size) == Rounded(n, size)
    decreases n
  {
    if n <= 0 {
    } else {
      RoundedTwice(n - size, size);
    }
  }

  lemma {:induction false} RoundedGrows(m: int, n: int, size: nat)
    requires size > 0 && m <= n
    ensures Rounded(m, size) <= Rounded(n, size)
    decreases n
  {
    if m <= 0 {
    } else {
      RoundedGrows(m - size, n - size, size);
    }
  }

  ghost predicate AllLate(flash: Device, end: int, since: int, tail: seq<Byte>, rewritten: int)
    reads flash
  {
    0 <= since && forall i :: since <= i < |flash.trace| ==> Late(flash.trace[i], flash.bad, end, tail, rewritten)
  }

  lemma WriterLate(w: Writer, end: int, rewritten: int)
    requires w.flash.Valid() && w.InOrder() && |w.written| <= rewritten && w.flash.worn <= w.flash.bad
    requires 0 < w.since <= |w.flash.trace| && |w.flash.trace[w.since - 1]| == |w.flash.blocks|
    requires 0 <= end <= |w.flash.blocks| && rewritten <= |Stream(w.flash.trace[w.since - 1], w.flash.bad, 0, end)|
    ensures AllLate(w.flash, end, w.since, Stream(w.flash.trace[w.since - 1], w.flash.bad, 0, end)[rewritten..],
                    rewritten)
  {
    hide Ordered, Late, Stream, Room, Uniform;
    assert Avoid(w.flash) == w.flash.bad;
    StreamRoom(w.flash.blocks, w.flash.bad, w.flash.blockSize, w.pos);
    LateStates(w.flash.trace, w.since, w.pos, w.flash.bad, w.flash.blockSize, end, rewritten,
               FirstGood(w.flash.bad, 0, |w.flash.blocks|));
  }

  /** What is left of the last block of the header. */
  method Left(h: nat, size: nat) returns (left: nat)
    requires size > 0 && h > 0
    ensures left == Rounded(h, size) - h
  {
    var l := size - h;
    while l < 0
      invariant Rounded(h, size) == h + l + Rounded(-l, size)
      decreases -l
    {
      l := l + size;
    }
    return l;
  }

  /** The second pass: the header, and the rest of the block it ends in. */
  method SecondPass(flash: Device, file: seq<Byte>, h: nat, reliable: bool, ghost end: int) returns (ok: bool)
    requires flash.Valid() && flash.worn <= flash.bad && 0 < h <= |file| && 0 <= end <= |flash.blocks|
    requires Rounded(h, flash.blockSize) <= |Stream(flash.blocks, flash.bad, 0, end)|
    modifies flash
    ensures flash.Valid() && |flash.blocks| == |old(flash.blocks)| && old(flash.trace) <= flash.trace
    ensures AllLate(flash, end, |old(flash.trace)|,
                    Stream(old(flash.blocks), flash.bad, 0, end)[Rounded(h, flash.blockSize)..],
                    Rounded(h, flash.blockSize))
    ensures ok ==>
              && Rounded(h, flash.blockSize) <= |file|
              && Stream(flash.blocks, flash.bad, 0, end) ==
                   file[..Rounded(h, flash.blockSize)] +
                   Stream(old(flash.blocks), flash.bad, 0, end)[Rounded(h, flash.blockSize)..]
    ensures reliable && Rounded(h, flash.blockSize) <= |file| ==> ok
    ensures reliable && |file| < Rounded(h, flash.blockSize) ==>
              Stream(flash.blocks, flash.bad, 0, end) ==
                CutShort(file, Stream(old(flash.blocks), flash.bad, 0, end), h, flash.blockSize)
  {
    hide Stream, Room, Uniform, AllLate, Ordered, Late, Rounded, Padded, Filled, CutShort, Holds, Recorded, SparesBad,
         Writer.Valid, Writer.InOrder;
    ghost var rewritten := Rounded(h, flash.blockSize);
    ghost var first := flash.blocks;
    var out := new Writer(flash);
    assert flash.trace[out.since - 1] == first;
    EnoughRoom(flash, first, h, end);
    var wrote := out.WriteData(file[..h]);
    WriterLate(out, end, rewritten);
    if wrote != h {
      return false;
    }
    var info: bool := *;
    if !info && !reliable {
      return false;
    }
    var left := Left(h, flash.blockSize);
    var at := h;
    while left > 0
      invariant h <= at <= |file| && 0 <= left && at + left == rewritten
      invariant flash.Valid() && out.Valid() && out.InOrder() && out.written == file[..at]
      invariant fresh(out) && fresh(out.buffer) && out.flash == flash && out.since == |old(flash.trace)|
      invariant |flash.blocks| == |old(flash.blocks)| && old(flash.trace) <= flash.trace
      invariant flash.trace[out.since - 1] == first
      invariant AllLate(flash, end, |old(flash.trace)|, Stream(first, flash.bad, 0, end)[rewritten..], rewritten)
    {
      var len := ReadFile(file, at, if left > HEADER_SIZE then HEADER_SIZE else left, reliable, false);
      if len <= 0 {
        if len == 0 {
          assert file[..at] == file;
          EndsTooSoon(out, first, file, h, end);
        }
        return false;
      }
      FileFront(file, at, len);
      wrote := out.WriteData(file[at..at + len]);
      WriterLate(out, end, rewritten);
      if wrote != len {
        return false;
      }
      left, at := left - len, at + len;
    }
    var r := out.Close();
    Rewritten(out, first, file, h, end, r);
    return r == 0;
  }

  /** What the first pass wrote has room for the blocks of the header. */
  lemma EnoughRoom(flash: Device, first: Blocks, h: nat, end: int)
    requires flash.Valid() && flash.worn <= flash.bad && first == flash.blocks && 0 <= end <= |first|
    requires Rounded(h, flash.blockSize) <= |Stream(first, flash.bad, 0, end)|
    ensures Avoid(flash) == flash.bad && Rounded(h, flash.blockSize) <= Room(Avoid(flash), |first|, flash.blockSize)
  {
    hide Stream, Room, Uniform, Rounded;
    assert Avoid(flash) == flash.bad;
    StreamRoom(first, flash.bad, flash.blockSize, end);
    RoomGrows(flash.bad, end, |first|, flash.blockSize);
  }

  /**
   What is there when the file ends before the last block of the header is full: the header's blocks but the last, and
   behind them what the first pass left.
   */
  function CutShort(file: seq<Byte>, first: seq<Byte>, h: nat, size: nat): (bytes: seq<Byte>)
    requires size > 0 && 0 < h <= |file| < Rounded(h, size) <= |first|
  {
    var k := Rounded(h, size) - size;
    file[..k] + first[k..]
  }

  lemma EndsTooSoon(w: Writer, first: Blocks, file: seq<Byte>, h: int, end: int)
    requires w.Valid() && w.InOrder() && w.flash.worn <= w.flash.bad && w.written == file
    requires 0 < w.since <= |w.flash.trace| && w.flash.trace[w.since - 1] == first && |first| == |w.flash.blocks|
    requires 0 <= end <= |first| && 0 < h <= |file| < Rounded(h, w.flash.blockSize)
    requires Rounded(h, w.flash.blockSize) <= |Stream(first, w.flash.bad, 0, end)|
    ensures Stream(w.flash.blocks, w.flash.bad, 0, end) ==
              CutShort(file, Stream(first, w.flash.bad, 0, end), h, w.flash.blockSize)
  {
    hide Ordered, Stream, Room, Uniform, Rounded, Holds, Recorded;
    var size, bad := w.flash.blockSize, w.flash.bad;
    assert Avoid(w.flash) == bad;
    var front := Stream(w.flash.blocks, bad, 0, w.pos);
    HoldsRoom(w.flash.blocks, bad, w.pos, w.buffer[..w.stored], file, size);
    HoldsRange(w.flash.blocks, bad, w.pos, w.buffer[..w.stored], file);
    StreamRoom(w.flash.blocks, bad, size, w.pos);
    RoundedRoom(bad, w.pos, size, w.stored);
    RoundedGrows(h, |file|, size);
    RoundedGrows(|file|, Rounded(h, size), size);
    RoundedTwice(h, size);
    assert front == file[..|front|] && |front| == Rounded(h, size) - size;
    OrderedTail(w.flash.trace, w.since, w.pos, FirstGood(bad, 0, |first|));
    FrontAndTail(first, w.flash.blocks, bad, size, w.pos, end, front);
  }

  /** At the end of the second pass. */
  lemma Rewritten(w: Writer, first: Blocks, file: seq<Byte>, h: nat, end: int, r: int)
    requires w.flash.Valid() && w.InOrder() && w.flash.worn <= w.flash.bad
    requires 0 < w.since <= |w.flash.trace| && w.flash.trace[w.since - 1] == first && |first| == |w.flash.blocks|
    requires 0 < h && 0 <= end <= |first|
    requires Rounded(h, w.flash.blockSize) <= |file|
    requires Rounded(h, w.flash.blockSize) <= |Stream(first, w.flash.bad, 0, end)|
    requires r == if Rounded(h, w.flash.blockSize) <= Room(Avoid(w.flash), |first|, w.flash.blockSize) then 0 else -1
    requires r == 0 ==> 0 <= w.pos <= |first| && Stream(w.flash.blocks, Avoid(w.flash), 0, w.pos) ==
                          Padded(file[..Rounded(h, w.flash.blockSize)], w.flash.blockSize)
    ensures r == 0
    ensures var n := Rounded(h, w.flash.blockSize);
            && AllLate(w.flash, end, w.since, Stream(first, w.flash.bad, 0, end)[n..], n)
            && Stream(w.flash.blocks, w.flash.bad, 0, end) == file[..n] + Stream(first, w.flash.bad, 0, end)[n..]
  {
    hide Ordered, Late, Stream, Room, Uniform, Rounded;
    var size, bad := w.flash.blockSize, w.flash.bad;
    var n := Rounded(h, size);
    assert Avoid(w.flash) == bad;
    StreamRoom(first, bad, size, end);
    RoomGrows(bad, end, |first|, size);
    RoundedTwice(h, size);
    assert Padded(file[..n], size) == file[..n];
    StreamRoom(w.flash.blocks, bad, size, w.pos);
    LateStates(w.flash.trace, w.since, w.pos, bad, size, end, n, FirstGood(bad, 0, |first|));
    OrderedTail(w.flash.trace, w.since, w.pos, FirstGood(bad, 0, |first|));
    FrontAndTail(first, w.flash.blocks, bad, size, w.pos, end, file[..n]);
  }

  lemma OrderedTail(trace: seq<Blocks>, since: int, pos: int, g: int)
    requires Ordered(trace, since, pos, g)
    ensures 0 <= pos <= |trace[since - 1]| == |trace[|trace| - 1]|
    ensures trace[|trace| - 1][pos..] == trace[since - 1][pos..]
  {
    if since < |trace| {
      assert InOrder(trace[since - 1], trace[|trace| - 1], trace[|trace| - 1], pos, g);
    }
  }

  lemma FrontAndTail(first: Blocks, t: Blocks, bad: set<int>, size: nat, pos: int, end: int, front: seq<Byte>)
    requires |t| == |first| && 0 <= pos <= |t| && 0 <= end <= |t| && Uniform(t, size) && Uniform(first, size)
    requires Stream(t, bad, 0, pos) == front && |front| <= |Stream(first, bad, 0, end)|
    requires pos <= end ==> t[pos..] == first[pos..]
    ensures Stream(t, bad, 0, end) == front + Stream(first, bad, 0, end)[|front|..]
  {
    StreamRoom(t, bad, size, end);
    StreamRoom(first, bad, size, end);
    StreamRoom(t, bad, size, pos);
    if pos <= end {
      StreamJoin(t, bad, 0, pos, end);
      StreamJoin(first, bad, 0, pos, end);
      StreamRoom(first, bad, size, pos);
      assert t[pos..end] == t[pos..][..end - pos] == first[pos..end];
      StreamSame(t, first, bad, pos, end);
    } else {
      RoomGrows(bad, end, pos, size);
      StreamJoin(t, bad, 0, end, pos);
    }
  }

  /** Everything behind the blocks of the header is in place. */
  ghost predicate TailThere(t: Blocks, bad: set<int>, size: nat, file: seq<Byte>, h: int)
    requires size > 0
  {
    Rounded(h, size) <= |Padded(file, size)| &&
    exists end :: Late(t, bad, end, Padded(file, size)[Rounded(h, size)..], Rounded(h, size))
  }

  ghost predicate HeaderLast(flash: Device, first: Blocks, since: int, file: seq<Byte>, h: int)
    requires flash.blockSize > 0
    reads flash
  {
    && 0 <= since && |first| == |flash.blocks|
    && forall i :: since <= i < |flash.trace| ==>
        || Early(first, flash.trace[i], FirstGood(flash.bad, 0, |flash.blocks|), h)
        || TailThere(flash.trace[i], flash.bad, flash.blockSize, file, h)
  }

  /** The file is not empty, fits the good blocks, and fills the blocks of the header that was read. */
  ghost predicate Flashable(flash: Device, file: seq<Byte>, h: nat)
    requires flash.blockSize > 0
    reads flash
  {
    && file != [] && Rounded(h, flash.blockSize) <= |file|
    && |file| <= Room(flash.bad, |flash.blocks|, flash.blockSize)
  }

  /**
   Flashing a file.  On success the good blocks hold the file, padded with zeros; and, whether it succeeds or not, the
   header is not there while what follows it is incomplete.  `h` is the size of the header as it was read, which is
   known beforehand if that read is `full`.  If nothing fails in reading the file and asking for the block size (it is
   `reliable`), a file that fits is flashed exactly if it fills the blocks of the header; one that does not is refused
   when both passes have written.
   */
  method RestoreRaw(flash: Device, file: seq<Byte>, reliable: bool, full: bool)
      returns (r: int, ghost h: nat, ghost end: int)
    requires flash.Valid() && flash.worn <= flash.bad
    modifies flash
    ensures flash.Valid() && |flash.blocks| == |old(flash.blocks)| && old(flash.trace) <= flash.trace
    ensures r == 0 || r == -1
    ensures r == 0 ==> Flashable(flash, file, h)
    ensures reliable ==> (r == 0 <==> Flashable(flash, file, h))
    ensures reliable && full ==> h == Min(HEADER_SIZE, |file|)
    ensures r == 0 ==> Stream(flash.blocks, flash.bad, 0, end) == Padded(file, flash.blockSize)
    ensures h <= HEADER_SIZE && h <= |file| && (h == 0 ==> r == -1 && flash.trace == old(flash.trace))
    ensures reliable && file != [] ==> h > 0
    ensures HeaderLast(flash, old(flash.blocks), |old(flash.trace)|, file, h)
    ensures |file| < flash.blockSize ==> r == -1
    ensures reliable && 0 < |file| < Rounded(h, flash.blockSize)
            && |file| <= Room(flash.bad, |flash.blocks|, flash.blockSize) ==>
              && Rounded(h, flash.blockSize) <= |Padded(Filled(0, h) + file[h..], flash.blockSize)|
              && Stream(flash.blocks, flash.bad, 0, end) ==
                   CutShort(file, Padded(Filled(0, h) + file[h..], flash.blockSize), h, flash.blockSize)
  {
    hide Stream, Room, Uniform, AllLate, AllEarly, Late, Early, Rounded, Padded, Filled, TailThere, CutShort;
    end := 0;
    var headerLen := ReadFile(file, 0, HEADER_SIZE, reliable, full);
    h := if headerLen < 0 then 0 else headerLen;
    if headerLen <= 0 {
      return -1, h, end;
    }
    ghost var first, since := flash.blocks, |flash.trace|;
    var ok;
    ok, end := FirstPass(flash, file, headerLen, reliable);
    EarlyIsHeaderLast(flash, first, since, file, headerLen);
    if !ok {
      return -1, h, end;
    }
    FirstPassTail(file, headerLen, flash.blockSize);
    ghost var mid, trace, second := |flash.trace|, flash.trace, flash.blocks;
    ok := SecondPass(flash, file, headerLen, reliable, end);
    assert flash.trace[..mid] == trace;
    LateIsHeaderLast(flash, first, since, mid, file, headerLen, end);
    RoundedAtLeast(headerLen, flash.blockSize);
    if !ok {
      return -1, h, end;
    }
    PaddedSplit(file, Rounded(headerLen, flash.blockSize), flash.blockSize);
    return 0, h, end;
  }

  lemma RoundedAtLeast(n: int, size: nat)
    requires size > 0 && n > 0
    ensures Rounded(n, size) >= size
  {
  }

  /** A file shorter than a block that fits is refused when it is all there but its header. */
  lemma ShortFileIsCutShort(file: seq<Byte>, h: nat, size: nat)
    requires 0 < h <= |file| < size
    ensures |file| < Rounded(h, size) <= |Padded(Filled(0, h) + file[h..], size)|
    ensures CutShort(file, Padded(Filled(0, h) + file[h..], size), h, size) == Padded(Filled(0, h) + file[h..], size)
  {
    assert Rounded(h, size) == size + Rounded(h - size, size) == size;
    assert Rounded(|file|, size) == size + Rounded(|file| - size, size) == size;
    assert |Filled(0, h) + file[h..]| == |file|;
  }

  lemma EarlyIsHeaderLast(flash: Device, first: Blocks, since: int, file: seq<Byte>, h: int)
    requires flash.blockSize > 0 && AllEarly(flash, first, since, h)
    ensures HeaderLast(flash, first, since, file, h)
  {
    hide Early, TailThere;
  }

  lemma LateIsHeaderLast(flash: Device, first: Blocks, since: int, mid: int, file: seq<Byte>, h: int, end: int)
    requires flash.blockSize > 0 && 0 <= since <= mid <= |flash.trace| && |first| == |flash.blocks|
    requires Rounded(h, flash.blockSize) <= |Padded(file, flash.blockSize)|
    requires forall i :: since <= i < mid ==>
               Early(first, flash.trace[..mid][i], FirstGood(flash.bad, 0, |flash.blocks|), h) ||
               TailThere(flash.trace[..mid][i], flash.bad, flash.blockSize, file, h)
    requires AllLate(flash, end, mid, Padded(file, flash.blockSize)[Rounded(h, flash.blockSize)..],
                     Rounded(h, flash.blockSize))
    ensures HeaderLast(flash, first, since, file, h)
  {
    hide Early, Late, Rounded, Padded;
    forall i | since <= i < |flash.trace|
      ensures Early(first, flash.trace[i], FirstGood(flash.bad, 0, |flash.blocks|), h) ||
              TailThere(flash.trace[i], flash.bad, flash.blockSize, file, h)
    {
      if i < mid {
        assert flash.trace[..mid][i] == flash.trace[i];
      }
    }
  }

  /** After the first pass only the header is missing. */
  lemma FirstPassTail(file: seq<Byte>, h: nat, size: nat)
    requires size > 0 && h <= |file|
    ensures var p := Padded(Filled(0, h) + file[h..], size);
            && Rounded(h, size) <= |p| == |Padded(file, size)|
            && p[Rounded(h, size)..] == Padded(file, size)[Rounded(h, size)..]
  {
    hide Rounded;
    RoundedGrows(h, |file|, size);
    assert |Filled(0, h) + file[h..]| == |file|;
    var pad := Filled(0, Rounded(|file|, size) - |file|);
    assert file == file[..h] + file[h..];
    assert file + pad == file[..h] + (file[h..] + pad);
    assert Filled(0, h) + file[h..] + pad == Filled(0, h) + (file[h..] + pad);
    SameTails(Filled(0, h), file[..h], file[h..] + pad, Rounded(h, size));
  }

  lemma PaddedSplit(file: seq<Byte>, n: nat, size: nat)
    requires size > 0 && n <= |file|
    ensures file[..n] + Padded(file, size)[n..] == Padded(file, size)
  {
  }

  /**
   A header that is not all zeros, at least in the part that is in the first good block, is seen there only before the
   first pass has rewritten that block, with all the other blocks as they were, or when all that follows is complete.
   */
  lemma HeaderMeansTail(flash: Device, first: Blocks, since: int, file: seq<Byte>, h: int, i: int)
    requires flash.blockSize > 0 && HeaderLast(flash, first, since, file, h) && since <= i < |flash.trace|
    requires 0 < h <= |file| && !Blank(file, Min(h, flash.blockSize))
    requires var g := FirstGood(flash.bad, 0, |flash.blocks|);
             g < |flash.trace[i]| && file[..Min(h, flash.blockSize)] <= flash.trace[i][g]
    ensures OnlyDiffers(FirstGood(flash.bad, 0, |flash.blocks|), first, flash.trace[i]) ||
            TailThere(flash.trace[i], flash.bad, flash.blockSize, file, h)
  {
    hide TailThere, OnlyDiffers;
    var m := Min(h, flash.blockSize);
    var k :| 0 <= k < m && file[k] != 0;
    assert file[..m][k] == file[k];
  }
}
