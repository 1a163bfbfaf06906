/** A NAND partition as mtdutils/mtdutils.c drives it: blocks that are erased and written whole, some of them bad. */
module Flash {
  import opened Common

  type Blocks = seq<seq<Byte>>

  function Filled(b: Byte, n: nat): (s: seq<Byte>)
    ensures |s| == n && forall i :: 0 <= i < n ==> s[i] == b
  {
    seq(n, _ => b)
  }

  /** The smallest whole number of blocks that holds `n` bytes, in bytes. */
  function Rounded(n: int, size: nat): (r: nat)
    requires size > 0
    ensures n <= r && (n > 0 ==> r < n + size)
    decreases n
  {
    if n <= 0 then 0 else size + Rounded(n - size, size)
  }

  function Padded(data: seq<Byte>, size: nat): (p: seq<Byte>)
    requires size > 0
    ensures data <= p
  {
    data + Filled(0, Rounded(|data|, size) - |data|)
  }

  /** The contents of the blocks from `lo` up to `hi`, one after the other, without the avoided ones. */
  function Stream(blocks: Blocks, avoid: set<int>, lo: int, hi: int): (bytes: seq<Byte>)
    decreases hi - lo
  {
    if hi <= lo || !(0 <= lo && hi <= |blocks|) then []
    else Stream(blocks, avoid, lo, hi - 1) + (if hi - 1 in avoid then [] else blocks[hi - 1])
  }

  lemma {:induction false} StreamJoin(blocks: Blocks, avoid: set<int>, a: int, b: int, c: int)
    requires 0 <= a <= b <= c <= |blocks|
    ensures Stream(blocks, avoid, a, c) == Stream(blocks, avoid, a, b) + Stream(blocks, avoid, b, c)
    decreases c
  {
    if b >= c {
    } else {
      StreamJoin(blocks, avoid, a, b, c - 1);
      var last := if c - 1 in avoid then [] else blocks[c - 1];
      calc {
        Stream(blocks, avoid, a, c);
        Stream(blocks, avoid, a, c - 1) + last;
        Stream(blocks, avoid, a, b) + Stream(blocks, avoid, b, c - 1) + last;
        { assert Stream(blocks, avoid, b, c) == Stream(blocks, avoid, b, c - 1) + last; }
        Stream(blocks, avoid, a, b) + Stream(blocks, avoid, b, c);
      }
    }
  }

  /** The stream depends only on the blocks it runs over. */
  lemma {:induction false} StreamSame(s: Blocks, t: Blocks, avoid: set<int>, lo: int, hi: int)
    requires 0 <= lo <= hi <= |s| == |t| && s[lo..hi] == t[lo..hi]
    ensures Stream(s, avoid, lo, hi) == Stream(t, avoid, lo, hi)
    decreases hi
  {
    if lo >= hi {
    } else {
      assert s[lo..hi - 1] == s[lo..hi][..hi - 1 - lo];
      assert t[lo..hi - 1] == t[lo..hi][..hi - 1 - lo];
      StreamSame(s, t, avoid, lo, hi - 1);
      assert s[hi - 1] == s[lo..hi][hi - 1 - lo] == t[hi - 1];
    }
  }

  /** A stretch of avoided blocks contributes nothing. */
  lemma {:induction false} StreamNone(blocks: Blocks, avoid: set<int>, lo: int, hi: int)
    requires 0 <= lo <= hi <= |blocks| && forall k :: lo <= k < hi ==> k in avoid
    ensures Stream(blocks, avoid, lo, hi) == []
    decreases hi
  {
    if lo >= hi {
    } else {
      StreamNone(blocks, avoid, lo, hi - 1);
    }
  }

  /** The stream grows by exactly the next block that is not avoided. */
  lemma StreamNext(blocks: Blocks, avoid: set<int>, lo: int, hi: int, k: int)
    requires 0 <= lo <= hi <= k < |blocks| && k !in avoid && forall i :: hi <= i < k ==> i in avoid
    ensures Stream(blocks, avoid, lo, k + 1) == Stream(blocks, avoid, lo, hi) + blocks[k]
  {
    StreamJoin(blocks, avoid, lo, hi, k);
    StreamNone(blocks, avoid, hi, k);
  }

  /** Writer and reader go through the same blocks exactly if all the blocks on which writing fails are reported bad. */
  predicate Agree(avoid: set<int>, bad: set<int>, n: int) {
    forall k :: 0 <= k < n ==> (k in avoid <==> k in bad)
  }

  lemma {:induction false} StreamAgree(blocks: Blocks, avoid: set<int>, bad: set<int>, n: int)
    requires 0 <= n <= |blocks| && Agree(avoid, bad, n)
    ensures Stream(blocks, avoid, 0, n) == Stream(blocks, bad, 0, n)
    decreases n
  {
    if n <= 0 {
    } else {
      StreamAgree(blocks, avoid, bad, n - 1);
    }
  }

  predicate Uniform(blocks: Blocks, size: nat) { forall k :: 0 <= k < |blocks| ==> |blocks[k]| == size }

  /** The bytes that fit into the blocks below `n` that are not avoided. */
  function Room(avoid: set<int>, n: int, size: nat): (count: nat)
    decreases n
  {
    if n <= 0 then 0 else Room(avoid, n - 1, size) + (if n - 1 in avoid then 0 else size)
  }

  lemma {:induction false} StreamRoom(blocks: Blocks, avoid: set<int>, size: nat, n: int)
    requires 0 <= n <= |blocks| && Uniform(blocks, size)
    ensures |Stream(blocks, avoid, 0, n)| == Room(avoid, n, size)
    decreases n
  {
    if n <= 0 {
    } else {
      StreamRoom(blocks, avoid, size, n - 1);
    }
  }

  lemma {:induction false} RoomGrows(avoid: set<int>, m: int, n: int, size: nat)
    requires m <= n
    ensures Room(avoid, m, size) <= Room(avoid, n, size)
    decreases n - m
  {
    if m >= n {
    } else {
      RoomGrows(avoid, m, n - 1, size);
    }
  }

  lemma {:induction false} RoomNone(avoid: set<int>, m: int, n: int, size: nat)
    requires 0 <= m <= n && forall k :: m <= k < n ==> k in avoid
    ensures Room(avoid, m, size) == Room(avoid, n, size)
    decreases n
  {
    if m >= n {
    } else {
      RoomNone(avoid, m, n - 1, size);
    }
  }

  /** If writing fails on a block that is not reported bad, the reader finds a block more than was written. */
  lemma {:induction false} RoomDiffers(avoid: set<int>, bad: set<int>, n: int, size: nat)
    requires bad <= avoid && size > 0
    ensures Agree(avoid, bad, n) <==> Room(avoid, n, size) == Room(bad, n, size)
    ensures Room(avoid, n, size) <= Room(bad, n, size)
    decreases n
  {
    if n <= 0 {
    } else {
      RoomDiffers(avoid, bad, n - 1, size);
    }
  }

  /** Whether the states from `since` on differ from the one before them at most in one block. */
  ghost predicate OnlyBlock(k: int, trace: seq<Blocks>, since: int) {
    0 < since <= |trace| && forall i :: since <= i < |trace| ==> OnlyDiffers(k, trace[since - 1], trace[i])
  }

  predicate OnlyDiffers(k: int, s: Blocks, t: Blocks) {
    |s| == |t| && forall j :: 0 <= j < |s| && j != k ==> s[j] == t[j]
  }

  /** Whether the blocks that are reported bad are as they were. */
  predicate SparesBad(bad: set<int>, s: Blocks, t: Blocks) {
    |s| == |t| && forall k :: 0 <= k < |s| && k in bad ==> t[k] == s[k]
  }

  ghost function UpTo(n: nat): (r: set<int>)
    ensures forall x :: x in r <==> 0 <= x < n
  {
    if n == 0 then {} else UpTo(n - 1) + {n - 1}
  }

  /**
   The device.  `marksBad`: MEMGETBADBLOCK is supported.  `countsErrors`: ECCGETSTATS never fails.  `bad`: what
   MEMGETBADBLOCK reports.  `worn`: blocks on which no write is ever read back right.  On the others a write may fail
   once, but succeeds when it is repeated.  `fickle`: blocks on which MEMERASE may fail.  A block takes data only when
   it has been erased.
   */
  class Device {
    const blockSize: nat
    const writeSize: nat
    const marksBad: bool
    const countsErrors: bool
    const bad: set<int>
    const worn: set<int>
    const fickle: set<int>
    var blocks: Blocks
    ghost var trace: seq<Blocks>

    ghost predicate Valid()
      reads this
    {
      && blockSize > 0 && Uniform(blocks, blockSize) && (!marksBad ==> bad == {})
      && trace != [] && trace[|trace| - 1] == blocks
      && forall i :: 0 <= i < |trace| ==> Uniform(trace[i], blockSize)
    }

    constructor (blockSize: nat, writeSize: nat, marksBad: bool, countsErrors: bool, bad: set<int>, worn: set<int>,
                 fickle: set<int>, blocks: Blocks)
      requires blockSize > 0 && Uniform(blocks, blockSize) && (!marksBad ==> bad == {})
      ensures Valid() && this.blocks == blocks
      ensures this.blockSize == blockSize && this.writeSize == writeSize && this.bad == bad && this.worn == worn
      ensures this.marksBad == marksBad && this.countsErrors == countsErrors && this.fickle == fickle
    {
      this.blockSize, this.writeSize, this.bad, this.worn, this.blocks := blockSize, writeSize, bad, worn, blocks;
      this.marksBad, this.countsErrors, this.fickle := marksBad, countsErrors, fickle;
      trace := [blocks];
    }

    /** MEMGETBADBLOCK as writers take it: that it is not supported does not count. */
    method IsBad(k: nat) returns (yes: bool)
      ensures yes <==> k in bad
    {
      yes := k in bad;
    }

    /** The blocks for which MEMGETBADBLOCK does not return 0: without support for it, all. */
    ghost function Flagged(): (blocks: set<int>)
      reads this`blocks
    {
      if marksBad then bad else UpTo(|this.blocks|)
    }

    /** MEMGETBADBLOCK as readers take it. */
    method IsFlagged(k: nat) returns (yes: bool)
      requires k < |blocks|
      ensures yes <==> k in Flagged()
    {
      yes := !marksBad || k in bad;
    }

    /** ECCGETSTATS. */
    method EccStats() returns (ok: bool)
      ensures countsErrors ==> ok
    {
      ok := *;
      if countsErrors {
        ok := true;
      }
    }

    /** The contents of one block become `data`. */
    method Set(k: nat, data: seq<Byte>)
      requires Valid() && k < |blocks| && |data| == blockSize
      modifies `blocks, `trace
      ensures Valid() && blocks == old(blocks)[k := data] && trace == old(trace) + [blocks]
    {
      blocks := blocks[k := data];
      trace := trace + [blocks];
    }

    /** MEMERASE. */
    method Erase(k: nat, retry: int) returns (ok: bool)
      requires Valid() && k < |blocks|
      modifies `blocks, `trace
      ensures Valid() && |blocks| == |old(blocks)| && old(trace) <= trace
      ensures OnlyBlock(k, trace, |old(trace)|)
      ensures k !in fickle || (k !in worn && retry > 0) ==> ok
      ensures blocks[k] == if ok then Filled(0xff, blockSize) else old(blocks)[k]
    {
      ok := *;
      if k !in fickle || (k !in worn && retry > 0) {
        ok := true;
      }
      if ok {
        Set(k, Filled(0xff, blockSize));
      }
    }

    /** write: it passes through a state in which the block holds anything, and may leave it so. */
    method Program(k: nat, data: seq<Byte>, retry: int)
      requires Valid() && k < |blocks| && |data| == blockSize
      modifies `blocks, `trace
      ensures Valid() && |blocks| == |old(blocks)| && old(trace) <= trace
      ensures OnlyBlock(k, trace, |old(trace)|)
      ensures k !in worn && retry > 0 && old(blocks)[k] == Filled(0xff, blockSize) ==> blocks[k] == data
      ensures k in worn || old(blocks)[k] != Filled(0xff, blockSize) ==> blocks[k] != data
    {
      var blank := blocks[k] == Filled(0xff, blockSize);
      var torn: seq<Byte> := *;
      if |torn| != blockSize || torn == data {
        torn := [(data[0] as int + 1) % 256] + data[1..];
      }
      Set(k, torn);
      var completes: bool := *;
      if k !in worn && blank && (completes || retry > 0) {
        Set(k, data);
      }
    }

    /** Reading back what was just written. */
    method ReadBack(k: nat, retry: int) returns (data: Option<seq<Byte>>)
      requires Valid() && k < |blocks|
      ensures data.Some? ==> data.value == blocks[k]
      ensures k !in worn && retry > 0 ==> data.Some?
    {
      var ok: bool := *;
      data := if ok || (k !in worn && retry > 0) then Some(blocks[k]) else None;
    }

    /** A read as mtd_read_data makes it: blocks that are reported bad may give errors of any kind. */
    method TryRead(k: nat) returns (outcome: ReadOutcome)
      requires Valid() && k < |blocks|
      ensures outcome.Fine? ==> outcome.data == blocks[k]
      ensures k !in bad ==> outcome.Fine?
    {
      outcome := *;
      if k !in bad || outcome.Fine? {
        outcome := Fine(blocks[k]);
      }
    }
  }

  datatype ReadOutcome = Fine(data: seq<Byte>) | ReadError | EccError
}
