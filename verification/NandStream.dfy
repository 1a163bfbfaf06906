/** What is written to a NAND partition is what is read from it. */
module NandStream {
  import opened Common
  import opened Flash
  import opened Mtd

  function Concat(parts: seq<seq<Byte>>): (bytes: seq<Byte>) {
    if parts == [] then [] else Concat(parts[..|parts| - 1]) + parts[|parts| - 1]
  }

  function Sum(sizes: seq<nat>): (n: nat) {
    if sizes == [] then 0 else Sum(sizes[..|sizes| - 1]) + sizes[|sizes| - 1]
  }

  lemma {:induction false} SumGrows(sizes: seq<nat>, n: nat)
    requires n <= |sizes|
    ensures Sum(sizes[..n]) <= Sum(sizes)
  {
    if n < |sizes| {
      assert sizes[..|sizes| - 1][..n] == sizes[..n];
      SumGrows(sizes[..|sizes| - 1], n);
    } else {
      assert sizes[..n] == sizes;
    }
  }

  lemma {:induction false} ConcatGrows(parts: seq<seq<Byte>>, n: nat)
    requires n <= |parts|
    ensures |Concat(parts[..n])| <= |Concat(parts)|
  {
    if n < |parts| {
      assert parts[..|parts| - 1][..n] == parts[..n];
      ConcatGrows(parts[..|parts| - 1], n);
    } else {
      assert parts[..n] == parts;
    }
  }

  /** A partition written with any writes, and closed; false exactly if the writable blocks do not suffice. */
  method WriteAll(flash: Device, writes: seq<seq<Byte>>) returns (ok: bool, ghost end: int)
    requires flash.Valid()
    modifies flash
    ensures flash.Valid() && |flash.blocks| == |old(flash.blocks)|
    ensures ok <==> |Concat(writes)| <= Room(Avoid(flash), |flash.blocks|, flash.blockSize)
    ensures ok ==> 0 <= end <= |flash.blocks|
    ensures ok ==> Stream(flash.blocks, Avoid(flash), 0, end) == Padded(Concat(writes), flash.blockSize)
  {
    hide Stream, Room, Avoid, Padded, Uniform;
    var w := new Writer(flash);
    var i := 0;
    end := 0;
    while i < |writes|
      invariant 0 <= i <= |writes| && w.Valid() && w.InOrder() && fresh(w) && fresh(w.buffer) && w.flash == flash
      invariant |flash.blocks| == |old(flash.blocks)| && w.written == Concat(writes[..i])
    {
      assert writes[..i + 1][..i] == writes[..i];
      var r := w.WriteData(writes[i]);
      i := i + 1;
      if r == -1 {
        ConcatGrows(writes, i);
        return false, end;
      }
    }
    assert writes[..i] == writes;
    var r := w.Close();
    return r == 0, w.pos;
  }

  /** Any sequence of reads; if ECCGETSTATS works, None exactly if the blocks that are not flagged hold less. */
  method ReadAll(flash: Device, sizes: seq<nat>) returns (data: Option<seq<Byte>>)
    requires flash.Valid()
    ensures data.Some? ==> Sum(sizes) <= Room(flash.Flagged(), |flash.blocks|, flash.blockSize)
    ensures Sum(sizes) <= Room(flash.Flagged(), |flash.blocks|, flash.blockSize) && flash.countsErrors ==> data.Some?
    ensures data.Some? ==> |data.value| == Sum(sizes)
    ensures data.Some? ==> data.value <= Stream(flash.blocks, flash.Flagged(), 0, |flash.blocks|)
  {
    hide Stream, Room, Uniform, Holds;
    var r := new Reader(flash);
    var all: seq<Byte> := [];
    var i := 0;
    while i < |sizes|
      invariant 0 <= i <= |sizes| && r.Valid() && fresh(r) && fresh(r.buffer) && r.flash == flash
      invariant all == r.taken && |all| == Sum(sizes[..i])
    {
      assert sizes[..i + 1][..i] == sizes[..i];
      var some := r.ReadData(sizes[i]);
      i := i + 1;
      if some.None? {
        SumGrows(sizes, i);
        return None;
      }
      all := all + some.value;
    }
    assert sizes[..i] == sizes;
    r.TakenFits();
    TakenIsPrefix(flash.blocks, flash.Flagged(), r.pos, all, r.buffer[r.consumed..]);
    return Some(all);
  }

  lemma TakenIsPrefix(blocks: Blocks, bad: set<int>, pos: int, taken: seq<Byte>, rest: seq<Byte>)
    requires Holds(blocks, bad, pos, [], taken + rest)
    ensures taken <= Stream(blocks, bad, 0, |blocks|)
  {
    hide Stream;
    StreamJoin(blocks, bad, 0, pos, |blocks|);
    assert taken <= taken + rest;
  }

  /**
   The round trip: if all the blocks that do not take data are reported bad, what is read back, in pieces of any size,
   is the concatenation of the writes, padded with zeros to a whole number of blocks.  On a device that does not support
   MEMGETBADBLOCK the writes succeed, but nothing can be read back.
   */
  method RoundTrip(flash: Device, writes: seq<seq<Byte>>, sizes: seq<nat>)
      returns (written: bool, data: Option<seq<Byte>>)
    requires flash.Valid() && flash.worn <= flash.bad
    requires Sum(sizes) <= |Padded(Concat(writes), flash.blockSize)|
    modifies flash
    ensures written <==> |Concat(writes)| <= Room(flash.bad, |flash.blocks|, flash.blockSize)
    ensures data.Some? ==> written && data.value == Padded(Concat(writes), flash.blockSize)[..Sum(sizes)]
    ensures written && flash.marksBad && flash.countsErrors ==> data.Some?
    ensures !flash.marksBad && Sum(sizes) > 0 ==> data.None?
  {
    hide Stream, Room, Padded, Uniform;
    assert Avoid(flash) == flash.bad;
    var ok, end := WriteAll(flash, writes);
    if !ok {
      return false, None;
    }
    data := ReadAll(flash, sizes);
    StreamRoom(flash.blocks, flash.bad, flash.blockSize, |flash.blocks|);
    StreamJoin(flash.blocks, flash.bad, 0, end, |flash.blocks|);
    if !flash.marksBad {
      NoRoomUnmarked(flash);
      if data.Some? {
        assert Sum(sizes) == 0 && data.value == [] == Padded(Concat(writes), flash.blockSize)[..0];
      }
    }
    return true, data;
  }

  /**
   erase_image: all the blocks of a partition are erased, but for those that are reported bad and those on which
   erasing may fail; the others are erased or as they were.
   */
  method EraseImage(flash: Device) returns (r: int)
    requires flash.Valid()
    modifies flash
    ensures flash.Valid() && |flash.blocks| == |old(flash.blocks)|
    ensures r == if flash.blocks == [] then 3 else 0
    ensures forall k :: 0 <= k < |flash.blocks| && k !in flash.bad && k !in flash.fickle ==>
              flash.blocks[k] == Filled(0xff, flash.blockSize)
    ensures forall k :: 0 <= k < |flash.blocks| ==>
              flash.blocks[k] == old(flash.blocks)[k] || flash.blocks[k] == Filled(0xff, flash.blockSize)
    ensures SparesBad(flash.bad, old(flash.blocks), flash.blocks)
  {
    hide Stream, Room, Padded, Uniform, Filled;
    var out := new Writer(flash);
    var erased := out.EraseBlocks(-1);
    if erased == 0 {
      return 3;
    }
    return 0;
  }

  /** Without MEMGETBADBLOCK a reader passes over all blocks. */
  lemma NoRoomUnmarked(flash: Device)
    requires flash.Valid() && !flash.marksBad
    ensures Room(flash.Flagged(), |flash.blocks|, flash.blockSize) == 0
  {
    RoomNone(flash.Flagged(), 0, |flash.blocks|, flash.blockSize);
    assert Room(flash.Flagged(), 0, flash.blockSize) == 0;
  }

  /**
   Why the blocks must be reported: reader and writer pass over the same blocks below `n` exactly if they are, and
   otherwise the reader finds more there than was written.
   */
  lemma SameBlocksOnlyIfReported(flash: Device, n: nat)
    requires flash.Valid() && flash.marksBad && n <= |flash.blocks|
    ensures (forall k :: 0 <= k < n && k in flash.worn ==> k in flash.bad) <==>
            |Stream(flash.blocks, Avoid(flash), 0, n)| == |Stream(flash.blocks, flash.Flagged(), 0, n)|
    ensures (forall k :: 0 <= k < n && k in flash.worn ==> k in flash.bad) ==>
            Stream(flash.blocks, Avoid(flash), 0, n) == Stream(flash.blocks, flash.Flagged(), 0, n)
  {
    hide Stream, Room;
    StreamRoom(flash.blocks, Avoid(flash), flash.blockSize, n);
    StreamRoom(flash.blocks, flash.bad, flash.blockSize, n);
    RoomDiffers(Avoid(flash), flash.bad, n, flash.blockSize);
    if Agree(Avoid(flash), flash.bad, n) {
      StreamAgree(flash.blocks, Avoid(flash), flash.bad, n);
    }
  }
}
