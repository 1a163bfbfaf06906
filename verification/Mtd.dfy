/** The readers and writers of mtdutils/mtdutils.c.  Positions are block numbers. */
module Mtd {
  import opened Common
  import opened Flash

  /** The first block that is not avoided, or `n`. */
  function FirstGood(avoid: set<int>, i: int, n: int): (g: int)
    requires i <= n
    ensures i <= g <= n && (g < n ==> g !in avoid) && forall k :: i <= k < g ==> k in avoid
    decreases n - i
  {
    if i == n then n else if i in avoid then FirstGood(avoid, i + 1, n) else i
  }

  /**
   The states of a writer that was opened at `since` and is at `pos`: blocks from `pos` on are as they were; and unless
   nothing but the first good block has changed, that block has its present contents.
   */
  ghost predicate Ordered(trace: seq<Blocks>, since: int, pos: int, g: int) {
    && 0 < since <= |trace| && (pos > 0 ==> g < pos)
    && var first, last := trace[since - 1], trace[|trace| - 1];
       0 <= pos <= |first| && 0 <= g <= |first| == |last|
       && forall i :: since <= i < |trace| ==> InOrder(first, trace[i], last, pos, g)
  }

  ghost predicate InOrder(first: Blocks, t: Blocks, last: Blocks, pos: int, g: int)
    requires 0 <= pos <= |first| == |last| && 0 <= g <= |first|
  {
    && |t| == |first| && t[pos..] == first[pos..]
    && (OnlyDiffers(g, first, t) || (g < |t| && t[g] == last[g]))
  }

  lemma OrderedOpen(trace: seq<Blocks>, g: int)
    requires trace != [] && 0 <= g <= |trace[|trace| - 1]|
    ensures Ordered(trace, |trace|, 0, g)
  {
  }

  /** A block written at the first good place from `pos` on. */
  lemma OrderedNext(trace: seq<Blocks>, trace': seq<Blocks>, since: int, pos: int, g: int, k: int)
    requires Ordered(trace, since, pos, g) && trace <= trace' && OnlyBlock(k, trace', |trace|)
    requires pos <= k < |trace[|trace| - 1]| && (pos == 0 ==> k == g)
    ensures Ordered(trace', since, k + 1, g)
  {
    var first, mid, last := trace[since - 1], trace[|trace| - 1], trace'[|trace'| - 1];
    assert |last| == |first| && (pos > 0 ==> last[g] == mid[g]) by {
      if |trace| < |trace'| { assert OnlyDiffers(k, mid, last); }
      if since < |trace| { assert InOrder(first, mid, mid, pos, g); }
    }
    forall i | since <= i < |trace'| ensures InOrder(first, trace'[i], last, k + 1, g) {
      if i < |trace| {
        OrderedOld(first, trace[i], mid, last, pos, g, k);
      } else {
        assert OnlyDiffers(k, mid, trace'[i]);
        assert since < |trace| ==> InOrder(first, mid, mid, pos, g);
        OrderedNew(first, mid, trace'[i], last, pos, g, k);
      }
    }
  }

  lemma OrderedOld(first: Blocks, t: Blocks, mid: Blocks, last: Blocks, pos: int, g: int, k: int)
    requires 0 <= pos <= k < |first| == |last| == |mid| && 0 <= g <= |first|
    requires InOrder(first, t, mid, pos, g) && (if pos > 0 then g < pos && last[g] == mid[g] else k == g)
    ensures InOrder(first, t, last, k + 1, g)
  {
    assert t[k + 1..] == t[pos..][k + 1 - pos..] && first[k + 1..] == first[pos..][k + 1 - pos..];
    if pos == 0 {
      assert t == t[0..] && first == first[0..];
    }
  }

  lemma OrderedNew(first: Blocks, mid: Blocks, t: Blocks, last: Blocks, pos: int, g: int, k: int)
    requires 0 <= pos <= k < |first| == |last| == |mid| && 0 <= g <= |first|
    requires mid[pos..] == first[pos..] && OnlyDiffers(k, mid, t)
    requires if pos > 0 then g < pos && last[g] == mid[g] else k == g
    ensures InOrder(first, t, last, k + 1, g)
  {
    assert t[k + 1..] == mid[k + 1..] == mid[pos..][k + 1 - pos..] == first[k + 1..];
    if pos == 0 {
      assert mid == mid[0..] && first == first[0..];
    }
  }

  /** One attempt at a block: erase, write, and compare what is read back. */
  method Attempt(flash: Device, k: nat, data: seq<Byte>, retry: int) returns (ok: bool)
    requires flash.Valid() && k < |flash.blocks| && |data| == flash.blockSize
    modifies flash`blocks, flash`trace
    ensures flash.Valid() && |flash.blocks| == |old(flash.blocks)| && old(flash.trace) <= flash.trace
    ensures OnlyBlock(k, flash.trace, |old(flash.trace)|)
    ensures ok ==> flash.blocks[k] == data && k !in flash.worn
    ensures k !in flash.worn && retry > 0 ==> ok
  {
    ghost var trace := flash.trace;
    ok := flash.Erase(k, retry);
    if !ok {
      return;
    }
    ghost var mid, trace' := |flash.trace|, flash.trace;
    flash.Program(k, data, retry);
    assert flash.trace[..mid] == trace';
    OnlyBlockMore(k, flash.trace, mid, |trace|);
    var verify := flash.ReadBack(k, retry);
    ok := verify == Some(data);
  }

  lemma OnlyBlockMore(k: int, trace: seq<Blocks>, mid: int, since: int)
    requires 0 <= mid <= |trace| && OnlyBlock(k, trace[..mid], since) && OnlyBlock(k, trace, mid)
    ensures OnlyBlock(k, trace, since)
  {
    forall i | since <= i < |trace| ensures OnlyDiffers(k, trace[since - 1], trace[i]) {
      if i < mid {
        assert OnlyDiffers(k, trace[..mid][since - 1], trace[..mid][i]);
      } else if since < mid {
        assert OnlyDiffers(k, trace[..mid][since - 1], trace[..mid][mid - 1]);
      }
    }
  }

  function Avoid(flash: Device): (blocks: set<int>) { flash.bad + flash.worn }

  /** Whether `k` is the first block from `pos` on that can be written. */
  ghost predicate NextGood(avoid: set<int>, pos: int, k: int) {
    0 <= pos <= k && k !in avoid && forall i :: pos <= i < k ==> i in avoid
  }

  /** The positions below `n` at which writing was given up, in ascending order. */
  ghost predicate Recorded(badBlocks: seq<nat>, avoid: set<int>, n: int) {
    && (forall i, j :: 0 <= i < j < |badBlocks| ==> badBlocks[i] < badBlocks[j])
    && (forall k :: k in badBlocks ==> k < n && k in avoid)
    && (forall k: nat :: k < n && k in avoid ==> k in badBlocks)
  }

  lemma RecordedNext(badBlocks: seq<nat>, avoid: set<int>, n: nat)
    requires Recorded(badBlocks, avoid, n)
    ensures Recorded(if n in avoid then badBlocks + [n] else badBlocks, avoid, n + 1)
  {
    var all := if n in avoid then badBlocks + [n] else badBlocks;
    forall k: nat | k < n + 1 && k in avoid ensures k in all {
      if k < n { assert k in badBlocks; } else { assert all[|badBlocks|] == n; }
    }
    forall k | k in all ensures k < n + 1 && k in avoid {
      assert k in badBlocks || k == n;
    }
    forall i, j | 0 <= i < j < |all| ensures all[i] < all[j] {
      assert all[i] == badBlocks[i] && badBlocks[i] in badBlocks;
    }
  }

  /** The two attempts at one block, and the last erase if they fail. */
  method TryBlock(flash: Device, k: nat, data: seq<Byte>) returns (ok: bool)
    requires flash.Valid() && k < |flash.blocks| && |data| == flash.blockSize
    modifies flash`blocks, flash`trace
    ensures flash.Valid() && |flash.blocks| == |old(flash.blocks)| && old(flash.trace) <= flash.trace
    ensures OnlyBlock(k, flash.trace, |old(flash.trace)|)
    ensures ok <==> k !in flash.worn
    ensures ok ==> flash.blocks[k] == data
    ensures !ok && k !in flash.fickle ==> flash.blocks[k] == Filled(0xff, flash.blockSize)
  {
    hide OnlyBlock, Uniform;
    OnlyBlockNothing(k, flash.trace);
    ghost var since := |flash.trace|;
    ghost var mid, trace;
    var retry := 0;
    while retry < 2
      invariant 0 <= retry <= 2 && (retry == 2 ==> k in flash.worn)
      invariant flash.Valid() && |flash.blocks| == |old(flash.blocks)| && old(flash.trace) <= flash.trace
      invariant OnlyBlock(k, flash.trace, since)
    {
      mid, trace := |flash.trace|, flash.trace;
      ok := Attempt(flash, k, data, retry);
      assert flash.trace[..mid] == trace;
      OnlyBlockMore(k, flash.trace, mid, since);
      if ok {
        return;
      }
      retry := retry + 1;
    }
    mid, trace := |flash.trace|, flash.trace;
    var erased := flash.Erase(k, retry);
    assert flash.trace[..mid] == trace;
    OnlyBlockMore(k, flash.trace, mid, since);
    ok := false;
  }

  lemma OnlyBlockNothing(k: int, trace: seq<Blocks>)
    requires trace != []
    ensures OnlyBlock(k, trace, |trace|)
  {
  }

  lemma OnlyBlockLast(k: int, trace: seq<Blocks>, since: int)
    requires OnlyBlock(k, trace, since)
    ensures OnlyDiffers(k, trace[since - 1], trace[|trace| - 1])
  {
    if since < |trace| {
      assert OnlyDiffers(k, trace[since - 1], trace[|trace| - 1]);
    }
  }

  /** The blocks from `lo` up to `hi` are erased, but for those that are reported bad or on which erasing may fail. */
  ghost predicate Wiped(blocks: Blocks, size: nat, spared: set<int>, lo: int, hi: int) {
    forall k :: lo <= k < hi && 0 <= k < |blocks| && k !in spared ==> blocks[k] == Filled(0xff, size)
  }

  /** The blocks that are not surely erased. */
  function Spared(flash: Device): (blocks: set<int>) { flash.bad + flash.fickle }

  lemma WipedNext(s: Blocks, t: Blocks, size: nat, spared: set<int>, lo: int, hi: int)
    requires Wiped(s, size, spared, lo, hi) && 0 <= hi < |s| && OnlyDiffers(hi, s, t)
    requires hi in spared || t[hi] == Filled(0xff, size)
    ensures Wiped(t, size, spared, lo, hi + 1)
  {
    hide Filled;
  }

  lemma NothingWiped(s: Blocks, size: nat, spared: set<int>, lo: int)
    ensures Wiped(s, size, spared, lo, lo)
  {
  }

  /** One block is erased, unless it is bad. */
  method EraseBlock(flash: Device, k: nat)
    requires flash.Valid() && k < |flash.blocks|
    modifies flash`blocks, flash`trace
    ensures flash.Valid() && old(flash.trace) <= flash.trace && OnlyDiffers(k, old(flash.blocks), flash.blocks)
    ensures flash.blocks[k] == old(flash.blocks)[k] || flash.blocks[k] == Filled(0xff, flash.blockSize)
    ensures k in flash.bad ==> flash.blocks == old(flash.blocks)
    ensures k !in Spared(flash) ==> flash.blocks[k] == Filled(0xff, flash.blockSize)
  {
    hide Uniform, OnlyBlock;
    var bad := flash.IsBad(k);
    if !bad {
      ghost var trace := flash.trace;
      var erased := flash.Erase(k, 0);
      OnlyBlockLast(k, flash.trace, |trace|);
    }
  }

  /**
   write_block: the data goes to the first block from `pos` on that can be written; None if there is none.  A block on
   which writing is given up is erased.  If all the blocks on which writing fails are reported bad, no other block is
   touched on the way.
   */
  method WriteBlock(flash: Device, pos: nat, data: seq<Byte>, badBlocks0: seq<nat>)
      returns (at: Option<nat>, badBlocks: seq<nat>)
    requires flash.Valid() && pos <= |flash.blocks| && |data| == flash.blockSize
    requires Recorded(badBlocks0, Avoid(flash), pos)
    modifies flash`blocks, flash`trace
    ensures flash.Valid() && |flash.blocks| == |old(flash.blocks)| && old(flash.trace) <= flash.trace
    ensures flash.blocks[..pos] == old(flash.blocks)[..pos]
    ensures SparesBad(flash.bad, old(flash.blocks), flash.blocks)
    ensures at.Some? ==>
              && at.value < |flash.blocks| && NextGood(Avoid(flash), pos, at.value) && flash.blocks[at.value] == data
              && Recorded(badBlocks, Avoid(flash), at.value + 1)
              && flash.blocks[at.value + 1..] == old(flash.blocks)[at.value + 1..]
    ensures Wiped(flash.blocks, flash.blockSize, Spared(flash), pos,
                  if at.Some? then at.value else |flash.blocks|)
    ensures at.None? ==> forall k :: pos <= k < |flash.blocks| ==> k in Avoid(flash)
    ensures flash.worn <= flash.bad ==>
              if at.Some? then OnlyBlock(at.value, flash.trace, |old(flash.trace)|) else flash.trace == old(flash.trace)
  {
    hide OnlyBlock, Recorded, Uniform;
    var k := pos;
    badBlocks := badBlocks0;
    while k < |flash.blocks|
      invariant pos <= k <= |flash.blocks| == |old(flash.blocks)|
      invariant flash.Valid() && old(flash.trace) <= flash.trace && Recorded(badBlocks, Avoid(flash), k)
      invariant flash.blocks[..pos] == old(flash.blocks)[..pos]
      invariant flash.blocks[k..] == old(flash.blocks)[k..]
      invariant SparesBad(flash.bad, old(flash.blocks), flash.blocks)
      invariant forall i :: pos <= i < k ==> i in Avoid(flash)
      invariant Wiped(flash.blocks, flash.blockSize, Spared(flash), pos, k)
      invariant flash.worn <= flash.bad ==> flash.trace == old(flash.trace)
    {
      RecordedNext(badBlocks, Avoid(flash), k);
      var bad := flash.IsBad(k);
      if bad {
        assert flash.blocks[k + 1..] == flash.blocks[k..][1..] == old(flash.blocks)[k + 1..];
        badBlocks := badBlocks + [k];
        k := k + 1;
        continue;
      }
      ghost var before, trace := flash.blocks, flash.trace;
      var ok := TryBlock(flash, k, data);
      OnlyBlockLast(k, flash.trace, |trace|);
      assert flash.blocks[..pos] == before[..pos];
      assert flash.blocks[k + 1..] == before[k + 1..] == before[k..][1..] == old(flash.blocks)[k + 1..];
      if ok {
        return Some(k), badBlocks;
      }
      badBlocks := badBlocks + [k];
      k := k + 1;
    }
    return None, badBlocks;
  }

  /** `n` blocks' worth of stream and what is still in the buffer make up what was written. */
  ghost predicate Holds(blocks: Blocks, avoid: set<int>, pos: int, buffered: seq<Byte>, written: seq<Byte>) {
    0 <= pos <= |blocks| && Stream(blocks, avoid, 0, pos) + buffered == written
  }

  lemma HoldsNext(s: Blocks, t: Blocks, avoid: set<int>, pos: int, k: int, buffered: seq<Byte>, written: seq<Byte>)
    requires Holds(s, avoid, pos, buffered, written) && |s| == |t| && t[..pos] == s[..pos]
    requires k < |t| && NextGood(avoid, pos, k) && t[k] == buffered
    ensures Holds(t, avoid, k + 1, [], written)
  {
    assert s[0..pos] == s[..pos] && t[0..pos] == t[..pos];
    StreamSame(s, t, avoid, 0, pos);
    StreamNext(t, avoid, 0, pos, k);
  }

  lemma HoldsMore(blocks: Blocks, avoid: set<int>, pos: int, buffered: seq<Byte>, written: seq<Byte>, more: seq<Byte>)
    requires Holds(blocks, avoid, pos, buffered, written)
    ensures Holds(blocks, avoid, pos, buffered + more, written + more)
  {
  }

  /** Everything below `pos` is full, so this much has been written. */
  lemma HoldsRoom(blocks: Blocks, avoid: set<int>, pos: int, buffered: seq<Byte>, written: seq<Byte>, size: nat)
    requires Holds(blocks, avoid, pos, buffered, written) && Uniform(blocks, size)
    ensures |written| == Room(avoid, pos, size) + |buffered|
    ensures |written| <= Room(avoid, |blocks|, size) + |buffered|
  {
    StreamRoom(blocks, avoid, size, pos);
    RoomGrows(avoid, pos, |blocks|, size);
  }

  lemma FrontOf(before: seq<Byte>, data: seq<Byte>, m: int, n: int)
    requires 0 <= m <= n <= |data|
    ensures before + data[m..n] <= before + data[m..]
  {
    assert data[m..] == data[m..n] + data[n..];
  }

  lemma Appended(before: seq<Byte>, data: seq<Byte>, m: int, n: int)
    requires 0 <= m <= n <= |data|
    ensures before + data[..m] + data[m..n] == before + data[..n]
  {
    assert data[..m] + data[m..n] == data[..n];
  }

  /** Each block from `lo` up to `hi` is erased or as it was; those behind are as they were. */
  ghost predicate Erased(s: Blocks, t: Blocks, lo: nat, hi: nat, size: nat) {
    && |s| == |t|
    && (forall k :: lo <= k < hi && k < |s| ==> t[k] == s[k] || t[k] == Filled(0xff, size))
    && (forall k :: lo <= k && hi <= k < |s| ==> t[k] == s[k])
  }

  lemma NothingErased(s: Blocks, t: Blocks, lo: nat, size: nat)
    requires lo <= |s| == |t| && s[lo..] == t[lo..]
    ensures Erased(s, t, lo, lo, size)
  {
    forall k | lo <= k < |s| ensures t[k] == s[k] {
      assert t[k] == t[lo..][k - lo] && s[k] == s[lo..][k - lo];
    }
  }

  lemma OneErased(s: Blocks, t: Blocks, u: Blocks, lo: nat, hi: nat, size: nat)
    requires Erased(s, t, lo, hi, size) && lo <= hi < |s| && OnlyDiffers(hi, t, u)
    requires u[hi] == t[hi] || u[hi] == Filled(0xff, size)
    ensures Erased(s, u, lo, hi + 1, size)
  {
  }

  /** MtdWriteContext. */
  class Writer {
    const flash: Device
    const buffer: array<Byte>
    var stored: nat
    var pos: nat
    var badBlocks: seq<nat>
    /** The length of the device's trace when the writer was opened. */
    ghost const since: nat
    /** All the data given to the writer, and the padding added to it. */
    ghost var written: seq<Byte>

    ghost predicate Valid()
      reads this, flash, buffer
    {
      && flash.Valid() && buffer.Length == flash.blockSize && stored < flash.blockSize
      && Holds(flash.blocks, Avoid(flash), pos, buffer[..stored], written)
      && Recorded(badBlocks, Avoid(flash), pos)
    }

    /**
     What holds even after a failure: the blocks below `pos` hold the front of what was written; and, if no writing
     fails on good blocks, the states since the writer was opened are in order.
     */
    ghost predicate InOrder()
      reads this, flash
    {
      && pos <= |flash.blocks| && Stream(flash.blocks, Avoid(flash), 0, pos) <= written
      && (flash.worn <= flash.bad ==> Ordered(flash.trace, since, pos, FirstGood(flash.bad, 0, |flash.blocks|)))
    }

    constructor (flash: Device)
      requires flash.Valid()
      ensures Valid() && InOrder() && this.flash == flash && fresh(buffer)
      ensures written == [] && since == |flash.trace| && stored == pos == 0
    {
      this.flash := flash;
      buffer := new Byte[flash.blockSize](_ => 0);
      stored, pos, badBlocks := 0, 0, [];
      since, written := |flash.trace|, [];
      new;
      OrderedOpen(flash.trace, FirstGood(flash.bad, 0, |flash.blocks|));
    }

    /** A block goes to the device; false if there is no place for it. */
    method Put(data: seq<Byte>) returns (ok: bool)
      requires flash.Valid() && |data| == flash.blockSize && Recorded(badBlocks, Avoid(flash), pos) && InOrder()
      requires Holds(flash.blocks, Avoid(flash), pos, data, written)
      modifies `pos, `badBlocks, flash`blocks, flash`trace
      ensures flash.Valid() && InOrder() && |flash.blocks| == |old(flash.blocks)| && old(flash.trace) <= flash.trace
      ensures SparesBad(flash.bad, old(flash.blocks), flash.blocks)
      ensures ok ==> Recorded(badBlocks, Avoid(flash), pos) && Holds(flash.blocks, Avoid(flash), pos, [], written)
      ensures ok ==> pos <= |flash.blocks| && flash.blocks[pos..] == old(flash.blocks)[pos..]
      ensures !ok ==> |written| == Room(Avoid(flash), |flash.blocks|, flash.blockSize) + flash.blockSize
      ensures !ok ==> pos == old(pos)
    {
      hide Ordered, Holds, Recorded, OnlyBlock, Uniform, Room, Stream;
      HoldsRoom(flash.blocks, Avoid(flash), pos, data, written, flash.blockSize);
      HoldsRange(flash.blocks, Avoid(flash), pos, data, written);
      ghost var s, trace := flash.blocks, flash.trace;
      var at, bad := WriteBlock(flash, pos, data, badBlocks);
      if at.None? {
        HoldsStill(s, flash.blocks, Avoid(flash), pos, data, written);
        HoldsRange(flash.blocks, Avoid(flash), pos, data, written);
        RoomNone(Avoid(flash), pos, |flash.blocks|, flash.blockSize);
        return false;
      }
      badBlocks := bad;
      HoldsNext(s, flash.blocks, Avoid(flash), pos, at.value, data, written);
      if flash.worn <= flash.bad {
        assert Avoid(flash) == flash.bad;
        OrderedNext(trace, flash.trace, since, pos, FirstGood(flash.bad, 0, |s|), at.value);
      }
      pos := at.value + 1;
      HoldsRange(flash.blocks, Avoid(flash), pos, [], written);
      return true;
    }

    /** A partial write, or the front of the data if it is less than a block: it fills the buffer as far as it goes. */
    method Coalesce(data: seq<Byte>, wrote: nat) returns (wrote': nat)
      requires Valid() && InOrder() && wrote < |data|
      modifies `stored, `written, buffer
      ensures InOrder() && wrote < wrote' <= |data|
      ensures wrote' - wrote == stored - old(stored) && stored <= flash.blockSize
      ensures stored == flash.blockSize || wrote' == |data|
      ensures Holds(flash.blocks, Avoid(flash), pos, buffer[..stored], written)
      ensures written == old(written) + data[wrote..wrote']
    {
      hide Holds, Recorded, Uniform;
      var avail := flash.blockSize - stored;
      var copy := if |data| - wrote < avail then |data| - wrote else avail;
      ghost var more := data[wrote..wrote + copy];
      forall i | 0 <= i < copy {
        buffer[stored + i] := data[wrote + i];
      }
      assert buffer[..stored + copy] == old(buffer[..stored]) + more;
      HoldsMore(flash.blocks, Avoid(flash), pos, old(buffer[..stored]), written, more);
      stored, written := stored + copy, written + more;
      return wrote + copy;
    }

    /** A block straight out of the caller's data. */
    method PutWhole(block: seq<Byte>) returns (ok: bool)
      requires Valid() && InOrder() && stored == 0 && |block| == flash.blockSize
      modifies `pos, `badBlocks, `written, flash`blocks, flash`trace
      ensures flash.Valid() && InOrder() && |flash.blocks| == |old(flash.blocks)| && old(flash.trace) <= flash.trace
      ensures SparesBad(flash.bad, old(flash.blocks), flash.blocks)
      ensures written == old(written) + block
      ensures ok ==> Valid()
      ensures !ok ==> |written| == Room(Avoid(flash), |flash.blocks|, flash.blockSize) + flash.blockSize
    {
      hide Ordered, Holds, Recorded, Uniform, Room;
      HoldsMore(flash.blocks, Avoid(flash), pos, buffer[..stored], written, block);
      assert buffer[..0] + block == block;
      written := written + block;
      ok := Put(block);
      assert buffer[..0] == [];
    }

    /** The full buffer. */
    method PutBuffer() returns (ok: bool)
      requires flash.Valid() && buffer.Length == flash.blockSize == stored && Recorded(badBlocks, Avoid(flash), pos)
      requires InOrder() && Holds(flash.blocks, Avoid(flash), pos, buffer[..stored], written)
      modifies `pos, `badBlocks, `stored, flash`blocks, flash`trace
      ensures flash.Valid() && InOrder() && |flash.blocks| == |old(flash.blocks)| && old(flash.trace) <= flash.trace
      ensures SparesBad(flash.bad, old(flash.blocks), flash.blocks)
      ensures ok ==> Valid() && stored == 0
      ensures ok ==> pos <= |flash.blocks| && flash.blocks[pos..] == old(flash.blocks)[pos..]
      ensures !ok ==> |written| == Room(Avoid(flash), |flash.blocks|, flash.blockSize) + flash.blockSize
    {
      hide Ordered, Holds, Recorded, Uniform, Room;
      assert buffer[..stored] == buffer[..];
      ok := Put(buffer[..]);
      if ok {
        stored := 0;
        assert buffer[..0] == [];
      }
    }

    /** Complete blocks, straight out of the caller's data, as long as nothing is in the buffer. */
    method PutBlocks(data: seq<Byte>, wrote0: nat) returns (ok: bool, wrote: nat)
      requires Valid() && InOrder() && wrote0 <= |data|
      modifies `pos, `badBlocks, `written, flash`blocks, flash`trace
      ensures flash.Valid() && InOrder() && |flash.blocks| == |old(flash.blocks)| && old(flash.trace) <= flash.trace
      ensures SparesBad(flash.bad, old(flash.blocks), flash.blocks)
      ensures wrote0 <= wrote <= |data| && written <= old(written) + data[wrote0..]
      ensures ok ==> Valid() && written == old(written) + data[wrote0..wrote]
      ensures ok && stored == 0 ==> |data| - wrote < flash.blockSize
      ensures stored != 0 ==> wrote == wrote0
      ensures !ok ==>
                |old(written)| + |data| - wrote0 >=
                  Room(Avoid(flash), |flash.blocks|, flash.blockSize) + flash.blockSize
    {
      hide Ordered, Holds, Recorded, Uniform, Room, Avoid, Stream;
      wrote := wrote0;
      while stored == 0 && |data| - wrote >= flash.blockSize
        invariant wrote0 <= wrote <= |data| && Valid() && InOrder()
        invariant stored != 0 ==> wrote == wrote0
        invariant |flash.blocks| == |old(flash.blocks)| && old(flash.trace) <= flash.trace
        invariant SparesBad(flash.bad, old(flash.blocks), flash.blocks)
        invariant written == old(written) + data[wrote0..wrote]
      {
        var block := data[wrote..wrote + flash.blockSize];
        assert data[wrote0..wrote] + block == data[wrote0..wrote + flash.blockSize];
        FrontOf(old(written), data, wrote0, wrote + flash.blockSize);
        ok := PutWhole(block);
        if !ok {
          return;
        }
        wrote := wrote + flash.blockSize;
      }
      FrontOf(old(written), data, wrote0, wrote);
      ok := true;
    }

    /** mtd_write_data: all of it, or -1 if the device has no room for another block that is complete. */
    method WriteData(data: seq<Byte>) returns (r: int)
      requires Valid() && InOrder()
      modifies `pos, `badBlocks, `stored, `written, buffer, flash`blocks, flash`trace
      ensures flash.Valid() && InOrder() && |flash.blocks| == |old(flash.blocks)| && old(flash.trace) <= flash.trace
      ensures SparesBad(flash.bad, old(flash.blocks), flash.blocks)
      ensures r == -1 || r == |data|
      ensures written <= old(written) + data
      ensures r == |data| ==> Valid() && written == old(written) + data
      ensures r == |data| <==>
              |old(written)| + |data| < Room(Avoid(flash), |flash.blocks|, flash.blockSize) + flash.blockSize
    {
      hide InOrder, Avoid, Holds, Recorded, Uniform, Room;
      var wrote := 0;
      HoldsRoom(flash.blocks, Avoid(flash), pos, buffer[..stored], written, flash.blockSize);
      while wrote < |data|
        invariant 0 <= wrote <= |data| && Valid() && InOrder()
        invariant |flash.blocks| == |old(flash.blocks)| && old(flash.trace) <= flash.trace
        invariant SparesBad(flash.bad, old(flash.blocks), flash.blocks)
        invariant written == old(written) + data[..wrote]
        invariant |written| < Room(Avoid(flash), |flash.blocks|, flash.blockSize) + flash.blockSize
      {
        if stored > 0 || |data| - wrote < flash.blockSize {
          var w := wrote;
          wrote := Coalesce(data, wrote);
          Appended(old(written), data, w, wrote);
        }
        if stored == flash.blockSize {
          var ok := PutBuffer();
          if !ok {
            return -1;
          }
        }
        var done, w1 := false, wrote;
        done, wrote := PutBlocks(data, wrote);
        if !done {
          return -1;
        }
        Appended(old(written), data, w1, wrote);
        HoldsRoom(flash.blocks, Avoid(flash), pos, buffer[..stored], written, flash.blockSize);
      }
      assert data[..wrote] == data;
      return |data|;
    }

    /** The zero padding of mtd_erase_blocks. */
    method Flush() returns (ok: bool)
      requires Valid() && InOrder()
      modifies `pos, `badBlocks, `stored, `written, buffer, flash`blocks, flash`trace
      ensures flash.Valid() && InOrder() && |flash.blocks| == |old(flash.blocks)| && old(flash.trace) <= flash.trace
      ensures SparesBad(flash.bad, old(flash.blocks), flash.blocks)
      ensures ok <==> |old(written)| <= Room(Avoid(flash), |flash.blocks|, flash.blockSize)
      ensures written <= old(written) + Filled(0, flash.blockSize)
      ensures ok ==> Valid() && stored == 0 && written == Padded(old(written), flash.blockSize)
      ensures ok ==> pos <= |flash.blocks| && flash.blocks[pos..] == old(flash.blocks)[pos..]
      ensures old(stored) == 0 ==> pos == old(pos)
    {
      hide InOrder, Avoid, Holds, Recorded, Uniform, Room, Rounded;
      HoldsRoom(flash.blocks, Avoid(flash), pos, buffer[..stored], written, flash.blockSize);
      HoldsRange(flash.blocks, Avoid(flash), pos, buffer[..stored], written);
      RoomGrows(Avoid(flash), pos, |flash.blocks|, flash.blockSize);
      RoundedRoom(Avoid(flash), pos, flash.blockSize, stored);
      if stored > 0 {
        var zeros := Filled(0, flash.blockSize - stored);
        var n := Coalesce(zeros, 0);
        assert zeros[0..n] == zeros;
        ok := PutBuffer();
        if ok {
          HoldsRoom(flash.blocks, Avoid(flash), pos, buffer[..stored], written, flash.blockSize);
        }
      } else {
        ok := true;
      }
      assert stored == 0 && ok ==> buffer[..stored] == [];
    }

    /** mtd_erase_blocks: flush, then erase that many blocks, or all that are left; -1 or the position behind them. */
    method EraseBlocks(blocks: int) returns (r: int)
      requires Valid() && InOrder()
      modifies `pos, `badBlocks, `stored, `written, buffer, flash`blocks, flash`trace
      ensures flash.Valid() && |flash.blocks| == |old(flash.blocks)| && old(flash.trace) <= flash.trace
      ensures SparesBad(flash.bad, old(flash.blocks), flash.blocks)
      ensures blocks == 0 ==> InOrder()
      ensures written <= old(written) + Filled(0, flash.blockSize)
      ensures r == -1 || pos <= r <= |flash.blocks|
      ensures |old(written)| > Room(Avoid(flash), |flash.blocks|, flash.blockSize) ==> r == -1
      ensures |old(written)| <= Room(Avoid(flash), |flash.blocks|, flash.blockSize) ==>
                && Valid() && stored == 0 && written == Padded(old(written), flash.blockSize)
                && pos <= |flash.blocks|
                && Erased(old(flash.blocks), flash.blocks, pos, if r == -1 then pos else r, flash.blockSize)
                && r == if blocks < 0 then |flash.blocks|
                        else if pos + blocks <= |flash.blocks| then pos + blocks
                        else -1
      ensures r != -1 ==> Wiped(flash.blocks, flash.blockSize, Spared(flash), pos, r)
      ensures old(stored) == 0 ==> pos == old(pos)
    {
      hide InOrder, Avoid, Holds, Recorded, Uniform, Room, Rounded, Erased, Padded, Wiped, Spared, Filled;
      var ok := Flush();
      if !ok {
        return -1;
      }
      HoldsRange(flash.blocks, Avoid(flash), pos, buffer[..stored], written);
      NothingErased(old(flash.blocks), flash.blocks, pos, flash.blockSize);
      NothingWiped(flash.blocks, flash.blockSize, Spared(flash), pos);
      var total := |flash.blocks| - pos;
      var left := if blocks < 0 then total else blocks;
      if left > total {
        return -1;
      }
      r := pos;
      ghost var p := pos;
      while left > 0
        invariant stored == 0 && written == Padded(old(written), flash.blockSize) && pos == p
        invariant pos <= r && 0 <= left && r + left == if blocks < 0 then |flash.blocks| else pos + blocks
        invariant r + left <= |flash.blocks| == |old(flash.blocks)|
        invariant Valid() && old(flash.trace) <= flash.trace
        invariant Erased(old(flash.blocks), flash.blocks, pos, r, flash.blockSize)
        invariant Wiped(flash.blocks, flash.blockSize, Spared(flash), pos, r)
        invariant SparesBad(flash.bad, old(flash.blocks), flash.blocks)
        invariant blocks == 0 ==> InOrder()
      {
        ghost var s := flash.blocks;
        EraseBlock(flash, r);
        OneErased(old(flash.blocks), s, flash.blocks, pos, r, flash.blockSize);
        WipedNext(s, flash.blocks, flash.blockSize, Spared(flash), pos, r);
        assert flash.blocks[..pos] == s[..pos];
        HoldsStill(s, flash.blocks, Avoid(flash), pos, buffer[..stored], written);
        r := r + 1;
        left := left - 1;
      }
    }

    /** mtd_find_write_start: the first position from `start` on at which writing was not given up. */
    method FindWriteStart(start: nat) returns (p: nat)
      requires Valid()
      ensures p >= start && p !in badBlocks && forall k: nat :: start <= k < p ==> k in badBlocks
    {
      p := start;
      var i := 0;
      while i < |badBlocks|
        invariant 0 <= i <= |badBlocks| && start <= p
        invariant forall j :: 0 <= j < i ==> badBlocks[j] < p
        invariant forall k :: start <= k < p ==> k in badBlocks
      {
        if badBlocks[i] == p {
          p := p + 1;
        } else if badBlocks[i] > p {
          return;
        }
        i := i + 1;
      }
    }

    /** mtd_write_close: 0 if everything is on the device, padded with zeros to a whole number of blocks. */
    method Close() returns (r: int)
      requires Valid() && InOrder()
      modifies `pos, `badBlocks, `stored, `written, buffer, flash`blocks, flash`trace
      ensures flash.Valid() && InOrder() && |flash.blocks| == |old(flash.blocks)| && old(flash.trace) <= flash.trace
      ensures SparesBad(flash.bad, old(flash.blocks), flash.blocks)
      ensures r == if |old(written)| <= Room(Avoid(flash), |flash.blocks|, flash.blockSize) then 0 else -1
      ensures written <= old(written) + Filled(0, flash.blockSize)
      ensures r == 0 ==>
                && 0 <= pos <= |flash.blocks|
                && Stream(flash.blocks, Avoid(flash), 0, pos) == Padded(old(written), flash.blockSize)
    {
      hide InOrder, Avoid, Recorded, Uniform, Room, Padded, Stream;
      var end := EraseBlocks(0);
      r := if end == -1 then -1 else 0;
    }
  }

  lemma HoldsStill(s: Blocks, t: Blocks, avoid: set<int>, pos: int, buffered: seq<Byte>, written: seq<Byte>)
    requires Holds(s, avoid, pos, buffered, written) && |s| == |t| && t[..pos] == s[..pos]
    ensures Holds(t, avoid, pos, buffered, written)
  {
    assert s[0..pos] == s[..pos] && t[0..pos] == t[..pos];
    StreamSame(s, t, avoid, 0, pos);
  }

  lemma {:induction false} RoundedRoom(avoid: set<int>, n: int, size: nat, rest: nat)
    requires size > 0 && rest < size
    ensures Rounded(Room(avoid, n, size) + rest, size) == Room(avoid, n, size) + (if rest > 0 then size else 0)
    decreases n
  {
    if n <= 0 {
    } else {
      RoundedRoom(avoid, n - 1, size, rest);
    }
  }

  lemma HoldsRange(blocks: Blocks, avoid: set<int>, pos: int, buffered: seq<Byte>, written: seq<Byte>)
    requires Holds(blocks, avoid, pos, buffered, written)
    ensures 0 <= pos <= |blocks| && Stream(blocks, avoid, 0, pos) <= written
  {
    hide Stream;
  }

  /**
   read_block: the next block from `pos` on that can be read and is not flagged; None if there is none, or if
   ECCGETSTATS fails.
   */
  method ReadBlock(flash: Device, pos: nat) returns (at: Option<nat>, data: seq<Byte>)
    requires flash.Valid() && pos <= |flash.blocks|
    ensures at.Some? ==> at.value < |flash.blocks| && NextGood(flash.Flagged(), pos, at.value)
    ensures at.Some? ==> data == flash.blocks[at.value]
    ensures at.None? && flash.countsErrors ==> forall k :: pos <= k < |flash.blocks| ==> k in flash.Flagged()
  {
    var counted := flash.EccStats();
    if !counted {
      return None, [];
    }
    var k := pos;
    while k < |flash.blocks|
      invariant pos <= k <= |flash.blocks| && forall i :: pos <= i < k ==> i in flash.Flagged()
    {
      var outcome := flash.TryRead(k);
      if !outcome.ReadError? {
        counted := flash.EccStats();
        if !counted {
          return None, [];
        }
        if outcome.Fine? {
          var flagged := flash.IsFlagged(k);
          if !flagged {
            return Some(k), outcome.data;
          }
        }
      }
      k := k + 1;
    }
    return None, [];
  }

  /** MtdReadContext. */
  class Reader {
    const flash: Device
    const buffer: array<Byte>
    var consumed: nat
    var pos: nat
    /** All the data handed out. */
    ghost var taken: seq<Byte>

    ghost predicate Valid()
      reads this, flash, buffer
    {
      && flash.Valid() && buffer.Length == flash.blockSize && consumed <= flash.blockSize
      && Holds(flash.blocks, flash.Flagged(), pos, [], taken + buffer[consumed..])
    }

    constructor (flash: Device)
      requires flash.Valid()
      ensures Valid() && this.flash == flash && fresh(buffer) && taken == []
    {
      this.flash := flash;
      buffer := new Byte[flash.blockSize](_ => 0);
      consumed, pos, taken := flash.blockSize, 0, [];
    }

    /** The rest of the buffer, or as much of it as is asked for. */
    method FromBuffer(len: nat) returns (data: seq<Byte>)
      requires Valid() && consumed < flash.blockSize && len > 0
      modifies `consumed, `taken
      ensures Valid() && 0 < |data| <= len && taken == old(taken) + data
      ensures |data| == len || consumed == flash.blockSize
    {
      hide Holds, Uniform;
      var avail := flash.blockSize - consumed;
      var copy := if len < avail then len else avail;
      data := buffer[consumed..consumed + copy];
      assert taken + buffer[consumed..] == taken + data + buffer[consumed + copy..];
      consumed, taken := consumed + copy, taken + data;
    }

    /** A complete block, straight into the caller's data; None if no block is left. */
    method TakeBlock() returns (data: Option<seq<Byte>>)
      requires Valid() && consumed == flash.blockSize
      modifies `pos, `taken
      ensures data.Some? ==> Valid() && |data.value| == flash.blockSize && taken == old(taken) + data.value
      ensures data.None? ==> taken == old(taken)
      ensures data.None? && flash.countsErrors ==>
                |taken| == Room(flash.Flagged(), |flash.blocks|, flash.blockSize)
    {
      hide Holds, Room;
      assert taken + buffer[consumed..] == taken;
      HoldsRange(flash.blocks, flash.Flagged(), pos, [], taken);
      HoldsRoom(flash.blocks, flash.Flagged(), pos, [], taken, flash.blockSize);
      var at, block := ReadBlock(flash, pos);
      if at.None? {
        if flash.countsErrors {
          RoomNone(flash.Flagged(), pos, |flash.blocks|, flash.blockSize);
        }
        return None;
      }
      HoldsMore(flash.blocks, flash.Flagged(), pos, [], taken, block);
      assert [] + block == block;
      HoldsNext(flash.blocks, flash.blocks, flash.Flagged(), pos, at.value, block, taken + block);
      taken := taken + block;
      assert taken + buffer[consumed..] == taken;
      pos := at.value + 1;
      return Some(block);
    }

    /** The next block goes into the buffer; false if no block is left. */
    method Refill() returns (ok: bool)
      requires Valid() && consumed == flash.blockSize
      modifies `pos, `consumed, buffer
      ensures ok ==> Valid() && consumed == 0
      ensures !ok && flash.countsErrors ==> |taken| == Room(flash.Flagged(), |flash.blocks|, flash.blockSize)
    {
      hide Holds, Room;
      assert taken + buffer[consumed..] == taken;
      HoldsRange(flash.blocks, flash.Flagged(), pos, [], taken);
      HoldsRoom(flash.blocks, flash.Flagged(), pos, [], taken, flash.blockSize);
      var at, block := ReadBlock(flash, pos);
      if at.None? {
        if flash.countsErrors {
          RoomNone(flash.Flagged(), pos, |flash.blocks|, flash.blockSize);
        }
        return false;
      }
      HoldsMore(flash.blocks, flash.Flagged(), pos, [], taken, block);
      assert [] + block == block;
      HoldsNext(flash.blocks, flash.blocks, flash.Flagged(), pos, at.value, block, taken + block);
      forall i | 0 <= i < buffer.Length {
        buffer[i] := block[i];
      }
      assert buffer[0..] == block;
      pos, consumed := at.value + 1, 0;
      return true;
    }

    /**
     mtd_read_data: the next `len` bytes, or None (for -1) if the blocks that are not flagged do not hold so many more,
     or ECCGETSTATS fails.
     */
    method ReadData(len: nat) returns (data: Option<seq<Byte>>)
      requires Valid()
      modifies `pos, `consumed, `taken, buffer
      ensures data.Some? ==> |old(taken)| + len <= Room(flash.Flagged(), |flash.blocks|, flash.blockSize)
      ensures |old(taken)| + len <= Room(flash.Flagged(), |flash.blocks|, flash.blockSize) && flash.countsErrors ==>
                data.Some?
      ensures data.Some? ==> Valid() && |data.value| == len && taken == old(taken) + data.value
    {
      hide Holds, Uniform, Room;
      var r: seq<Byte> := [];
      assert old(taken) + r == taken;
      while |r| < len
        invariant |r| <= len && Valid() && taken == old(taken) + r
        decreases len - |r|, if consumed == flash.blockSize then 1 else 0
      {
        if consumed < flash.blockSize {
          var some := FromBuffer(len - |r|);
          r := r + some;
        }
        ghost var n := |r|;
        while consumed == flash.blockSize && len - |r| >= flash.blockSize
          invariant n <= |r| <= len && Valid() && taken == old(taken) + r
          invariant consumed < flash.blockSize ==> |r| == len
        {
          var block := TakeBlock();
          if block.None? {
            return None;
          }
          r := r + block.value;
        }
        if |r| >= len {
          break;
        }
        var ok := Refill();
        if !ok {
          return None;
        }
      }
      TakenFits();
      return Some(r);
    }

    lemma TakenFits()
      requires Valid()
      ensures |taken| <= Room(flash.Flagged(), |flash.blocks|, flash.blockSize)
    {
      HoldsRoom(flash.blocks, flash.Flagged(), pos, [], taken + buffer[consumed..], flash.blockSize);
    }
  }
}
