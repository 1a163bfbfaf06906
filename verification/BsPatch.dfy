/**
 ApplyBSDiffPatchMem of applypatch/bspatch.c: replay the control triples of a patch over the old data.

 bzip2 is a parameter.  `unzip(b)` is what decompressing the stream at the front of `b` can deliver.
 */
module BsPatch {
  import opened Common
  import opened LittleEndian

  /**
   Done: the new data.  Fail: a nonzero return.  Short: a stream does not hold what is asked for; FillBuffer fails if
   the stream has come to its end, and never returns if it was cut off.  Undefined: the C code runs into undefined
   behaviour, that is, reads past the patch or passes FillBuffer a length that is negative or not an int.
   */
  datatype Outcome = Done(data: seq<Byte>) | Fail | Short | Undefined

  /** What is left of the control, diff and extra streams. */
  datatype Streams = Streams(ctrl: seq<Byte>, diff: seq<Byte>, extra: seq<Byte>)

  datatype Replayed = Played(data: seq<Byte>, left: Streams) | Stopped(why: Outcome)

  const MAGIC: seq<Byte> := [0x42, 0x53, 0x44, 0x49, 0x46, 0x46, 0x34, 0x30]  // "BSDIFF40"
  const HEADER_SIZE := 32

  function OldByte(text: seq<Byte>, i: int): (byte: Byte) {
    if 0 <= i < |text| then text[i] else 0
  }

  /** Diff bytes with the old bytes from `pos` on added to them, modulo 256. */
  function Added(text: seq<Byte>, pos: int, diff: seq<Byte>): (r: seq<Byte>)
    ensures |r| == |diff|
  {
    seq(|diff|, i requires 0 <= i < |diff| => (diff[i] + OldByte(text, pos + i)) % 256)
  }

  /** What is produced first, in front of what follows. */
  function Then(data: seq<Byte>, r: Replayed): (replayed: Replayed) {
    match r
    case Stopped(why) => Stopped(why)
    case Played(more, left) => Played(data + more, left)
  }

  lemma ThenThen(a: seq<Byte>, b: seq<Byte>, r: Replayed)
    ensures Then(a, Then(b, r)) == Then(a + b, r)
  {
    if r.Played? {
      assert a + (b + r.data) == a + b + r.data;
    }
  }

  /** Why the next control triple cannot be carried out, if it cannot; the tests come in the order of the code. */
  function Blocked(s: Streams, size: int, newpos: int): (stop: Option<Outcome>) {
    if |s.ctrl| < 24 then Some(Short)
    else
      var x, y := OffTIn(s.ctrl[..8]), OffTIn(s.ctrl[8..16]);
      if newpos + x > size then Some(Fail)
      else if x < 0 || x >= INT_LIMIT then Some(Undefined)
      else if x > |s.diff| then Some(Short)
      else if newpos + x + y > size then Some(Fail)
      else if y < 0 || y >= INT_LIMIT then Some(Undefined)
      else if y > |s.extra| then Some(Short)
      else None
  }

  /** The effect of the control triples still to come, when `newpos` bytes have been produced. */
  function Replay(text: seq<Byte>, s: Streams, size: int, newpos: int, oldpos: int): (replayed: Replayed)
    decreases |s.ctrl|
  {
    if newpos >= size then Played([], s)
    else
      match Blocked(s, size, newpos)
      case Some(why) => Stopped(why)
      case None =>
        var x, y, z := OffTIn(s.ctrl[..8]), OffTIn(s.ctrl[8..16]), OffTIn(s.ctrl[16..24]);
        Then(Added(text, oldpos, s.diff[..x]) + s.extra[..y],
             Replay(text, Streams(s.ctrl[24..], s.diff[x..], s.extra[y..]), size, newpos + x + y, oldpos + x + z))
  }

  /** The three streams and the size of the new data, or why the header is refused. */
  datatype Opened = Opened(streams: Streams, size: nat) | Refused(why: Outcome)

  function Open(unzip: seq<Byte> -> seq<Byte>, patch: seq<Byte>, offset: nat): (r: Opened) {
    if offset + HEADER_SIZE > |patch| then Refused(Undefined)
    else
      var h := patch[offset..];
      var c, d, n := OffTIn(h[8..16]), OffTIn(h[16..24]), OffTIn(h[24..32]);
      if h[..8] != MAGIC then Refused(Fail)
      else if c < 0 || d < 0 || n < 0 then Refused(Fail)
      else if HEADER_SIZE + c + d > |h| then Refused(Undefined)
      else
        Opened(Streams(unzip(h[HEADER_SIZE..HEADER_SIZE + c]), unzip(h[HEADER_SIZE + c..HEADER_SIZE + c + d]),
                       unzip(h[HEADER_SIZE + c + d..])), n)
  }

  /** What applying the patch found at `offset` does. */
  function PatchMem(unzip: seq<Byte> -> seq<Byte>, text: seq<Byte>, patch: seq<Byte>, offset: nat): (outcome: Outcome) {
    match Open(unzip, patch, offset)
    case Refused(why) => why
    case Opened(s, size) =>
      match Replay(text, s, size, 0, 0)
      case Stopped(why) => why
      case Played(data, left) => Done(data)
  }

  /** When the replay succeeds it has produced exactly what the header announced. */
  lemma {:induction false} ReplaySize(text: seq<Byte>, s: Streams, size: int, newpos: int, oldpos: int)
    requires newpos <= size
    ensures var r := Replay(text, s, size, newpos, oldpos); r.Played? ==> |r.data| == size - newpos
    decreases |s.ctrl|
  {
    if newpos < size && Blocked(s, size, newpos).None? {
      var x, y, z := OffTIn(s.ctrl[..8]), OffTIn(s.ctrl[8..16]), OffTIn(s.ctrl[16..24]);
      ReplaySize(text, Streams(s.ctrl[24..], s.diff[x..], s.extra[y..]), size, newpos + x + y, oldpos + x + z);
    }
  }

  /** FillBuffer into `new_data`: the next bytes of a stream, copied to `pos`. */
  method FillBuffer(buffer: array<Byte>, pos: nat, size: nat, stream: seq<Byte>) returns (rest: seq<Byte>)
    requires size <= |stream| && pos + size <= buffer.Length
    modifies buffer
    ensures rest == stream[size..]
    ensures buffer[..] == old(buffer[..pos]) + stream[..size] + old(buffer[pos + size..])
  {
    forall i | 0 <= i < size {
      buffer[pos + i] := stream[i];
    }
    rest := stream[size..];
  }

  /** The loop that adds old bytes to the diff bytes just read. */
  method AddOld(buffer: array<Byte>, newpos: nat, oldpos: int, size: nat, text: seq<Byte>)
    requires newpos + size <= buffer.Length
    modifies buffer
    ensures buffer[..newpos] == old(buffer[..newpos]) && buffer[newpos + size..] == old(buffer[newpos + size..])
    ensures buffer[newpos..newpos + size] == Added(text, oldpos, old(buffer[newpos..newpos + size]))
  {
    var i := 0;
    while i < size
      invariant 0 <= i <= size
      invariant forall k :: 0 <= k < buffer.Length ==>
                  buffer[k] == if newpos <= k < newpos + i
                               then (old(buffer[k]) + OldByte(text, oldpos + (k - newpos))) % 256
                               else old(buffer[k])
    {
      if oldpos + i >= 0 && oldpos + i < |text| {
        buffer[newpos + i] := (buffer[newpos + i] as int + text[oldpos + i]) % 256;
      }
      i := i + 1;
    }
  }

  lemma Regroup(all: seq<Byte>, a: seq<Byte>, b: seq<Byte>, c: seq<Byte>)
    requires all == a + b + c
    ensures all == a + (b + c)
  {
  }

  /** Carry out one triple on the buffer. */
  method PlayTriple(buffer: array<Byte>, text: seq<Byte>, s: Streams, newpos: nat, oldpos: int)
      returns (s': Streams, newpos': nat, oldpos': int)
    requires newpos < buffer.Length && Blocked(s, buffer.Length, newpos).None?
    modifies buffer
    ensures var x, y, z := OffTIn(s.ctrl[..8]), OffTIn(s.ctrl[8..16]), OffTIn(s.ctrl[16..24]);
            && s' == Streams(s.ctrl[24..], s.diff[x..], s.extra[y..])
            && newpos' == newpos + x + y && oldpos' == oldpos + x + z
            && buffer[..newpos'] == old(buffer[..newpos]) + (Added(text, oldpos, s.diff[..x]) + s.extra[..y])
  {
    hide Blocked, OffTIn, Added;
    BlockedFacts(s, buffer.Length, newpos);
    var x, y, z := OffTIn(s.ctrl[..8]), OffTIn(s.ctrl[8..16]), OffTIn(s.ctrl[16..24]);
    var diff := FillBuffer(buffer, newpos, x, s.diff);
    assert buffer[newpos..newpos + x] == s.diff[..x] && buffer[..newpos] == old(buffer[..newpos]);
    AddOld(buffer, newpos, oldpos, x, text);
    ghost var front := buffer[..newpos + x];
    assert front == buffer[..newpos] + buffer[newpos..newpos + x];
    var extra := FillBuffer(buffer, newpos + x, y, s.extra);
    Regroup(buffer[..newpos + x + y], old(buffer[..newpos]), Added(text, oldpos, s.diff[..x]), s.extra[..y]);
    s', newpos', oldpos' := Streams(s.ctrl[24..], diff, extra), newpos + x + y, oldpos + x + z;
  }

  /** The reading of a triple, with FillBuffer's and the code's own checks. */
  method CheckTriple(s: Streams, size: int, newpos: int) returns (blocked: Option<Outcome>)
    ensures blocked == Blocked(s, size, newpos)
  {
    if |s.ctrl| < 24 {
      return Some(Short);
    }
    var x, y := OffTIn(s.ctrl[..8]), OffTIn(s.ctrl[8..16]);
    if newpos + x > size {
      return Some(Fail);
    }
    if x < 0 || x >= INT_LIMIT {
      return Some(Undefined);
    }
    if x > |s.diff| {
      return Some(Short);
    }
    if newpos + x + y > size {
      return Some(Fail);
    }
    if y < 0 || y >= INT_LIMIT {
      return Some(Undefined);
    }
    if y > |s.extra| {
      return Some(Short);
    }
    return None;
  }

  lemma ReplayEnd(text: seq<Byte>, s: Streams, size: int, newpos: int, oldpos: int, done: seq<Byte>)
    requires newpos >= size
    ensures Then(done, Replay(text, s, size, newpos, oldpos)) == Played(done, s)
  {
  }

  lemma ReplayBlocked(text: seq<Byte>, s: Streams, size: int, newpos: int, oldpos: int, done: seq<Byte>)
    requires newpos < size && Blocked(s, size, newpos).Some?
    ensures Then(done, Replay(text, s, size, newpos, oldpos)) == Stopped(Blocked(s, size, newpos).value)
  {
  }

  lemma ReplayStep(text: seq<Byte>, s: Streams, size: int, newpos: int, oldpos: int, done: seq<Byte>)
    requires newpos < size && Blocked(s, size, newpos).None?
    ensures var x, y, z := OffTIn(s.ctrl[..8]), OffTIn(s.ctrl[8..16]), OffTIn(s.ctrl[16..24]);
            0 <= x <= |s.diff| && 0 <= y <= |s.extra| &&
            Then(done, Replay(text, s, size, newpos, oldpos)) ==
            Then(done + (Added(text, oldpos, s.diff[..x]) + s.extra[..y]),
                 Replay(text, Streams(s.ctrl[24..], s.diff[x..], s.extra[y..]), size, newpos + x + y, oldpos + x + z))
  {
    var x, y, z := OffTIn(s.ctrl[..8]), OffTIn(s.ctrl[8..16]), OffTIn(s.ctrl[16..24]);
    ThenThen(done, Added(text, oldpos, s.diff[..x]) + s.extra[..y],
             Replay(text, Streams(s.ctrl[24..], s.diff[x..], s.extra[y..]), size, newpos + x + y, oldpos + x + z));
  }

  /** Applies the bsdiff patch that begins at `offset`. */
  method ApplyBSDiffPatchMem(unzip: seq<Byte> -> seq<Byte>, text: seq<Byte>, patch: seq<Byte>, offset: nat)
      returns (r: Outcome)
    ensures r == PatchMem(unzip, text, patch, offset)
  {
    hide Blocked, Added, Replay, Then;
    var header := Open(unzip, patch, offset);
    if header.Refused? {
      return header.why;
    }
    var s, size := header.streams, header.size;
    hide Open;
    var newData := new Byte[size];
    var newpos, oldpos := 0, 0;
    ThenNothing(Replay(text, s, size, 0, 0), newData[..0]);
    while newpos < size
      invariant 0 <= newpos <= size == newData.Length
      invariant Replay(text, header.streams, size, 0, 0) ==
                  Then(newData[..newpos], Replay(text, s, size, newpos, oldpos))
      decreases |s.ctrl|
    {
      var blocked := CheckTriple(s, size, newpos);
      if blocked.Some? {
        ReplayBlocked(text, s, size, newpos, oldpos, newData[..newpos]);
        return blocked.value;
      }
      BlockedFacts(s, size, newpos);
      ReplayStep(text, s, size, newpos, oldpos, newData[..newpos]);
      s, newpos, oldpos := PlayTriple(newData, text, s, newpos, oldpos);
    }
    ReplayEnd(text, s, size, newpos, oldpos, newData[..newpos]);
    return Done(newData[..]);
  }

  lemma ThenNothing(r: Replayed, nothing: seq<Byte>)
    requires nothing == []
    ensures Then(nothing, r) == r
  {
  }

  lemma BlockedFacts(s: Streams, size: int, newpos: int)
    requires Blocked(s, size, newpos).None?
    ensures |s.ctrl| >= 24 && 0 <= OffTIn(s.ctrl[..8]) <= |s.diff| && 0 <= OffTIn(s.ctrl[8..16]) <= |s.extra|
    ensures newpos + OffTIn(s.ctrl[..8]) + OffTIn(s.ctrl[8..16]) <= size
  {
  }
}
