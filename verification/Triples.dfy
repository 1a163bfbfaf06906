/** What a stream of control triples means, as the loop of bsdiff builds it (applypatch/bsdiff.c). */
module Triples {
  import opened Common
  import opened LittleEndian
  import opened BsPatch

  /**
   The streams `c`, `d`, `e` written so far make bspatch produce the first `lastscan` bytes of `target` and leave
   it at `lastpos` in the old data, whatever is written after them.
   */
  ghost predicate Emitted(text: seq<Byte>, target: seq<Byte>, c: seq<Byte>, d: seq<Byte>, e: seq<Byte>,
                          lastscan: nat, lastpos: int)
  {
    && lastscan <= |target|
    && |d| + |e| == lastscan
    && forall rest: Streams ::
         Replay(text, Streams(c + rest.ctrl, d + rest.diff, e + rest.extra), |target|, 0, 0) ==
         Then(target[..lastscan], Replay(text, rest, |target|, lastscan, lastpos))
  }

  function Triple(x: int, y: int, z: int): (t: seq<Byte>)
    ensures |t| == 24
  {
    OffTOut(x) + OffTOut(y) + OffTOut(z)
  }

  predicate Fits(x: int) { -OFF_T_LIMIT < x < OFF_T_LIMIT }

  lemma NothingEmitted(text: seq<Byte>, target: seq<Byte>)
    ensures Emitted(text, target, [], [], [], 0, 0)
  {
    forall rest: Streams
      ensures Replay(text, Streams([] + rest.ctrl, [] + rest.diff, [] + rest.extra), |target|, 0, 0) ==
              Then(target[..0], Replay(text, rest, |target|, 0, 0))
    {
      assert [] + rest.ctrl == rest.ctrl && [] + rest.diff == rest.diff && [] + rest.extra == rest.extra;
      ThenNothing(Replay(text, rest, |target|, 0, 0), target[..0]);
    }
  }

  lemma SplitFront<T>(a: seq<T>, b: seq<T>)
    ensures (a + b)[..|a|] == a && (a + b)[|a|..] == b
  {
  }

  lemma TripleParts(x: int, y: int, z: int, rest: seq<Byte>)
    ensures var t := Triple(x, y, z) + rest;
            t[..8] == OffTOut(x) && t[8..16] == OffTOut(y) && t[16..24] == OffTOut(z) && t[24..] == rest
  {
    hide OffTOut;
    var t := Triple(x, y, z) + rest;
    assert t == OffTOut(x) + (OffTOut(y) + (OffTOut(z) + rest));
  }

  /** The streams `s` begin with the triple and its pieces, and go on with `rest`. */
  predicate Begins(s: Streams, x: int, y: int, z: int, dd: seq<Byte>, ee: seq<Byte>, rest: Streams) {
    && |s.ctrl| >= 24 && 0 <= x <= |s.diff| && 0 <= y <= |s.extra|
    && OffTIn(s.ctrl[..8]) == x && OffTIn(s.ctrl[8..16]) == y && OffTIn(s.ctrl[16..24]) == z
    && s.diff[..x] == dd && s.extra[..y] == ee
    && s.ctrl[24..] == rest.ctrl && s.diff[x..] == rest.diff && s.extra[y..] == rest.extra
  }

  function Front(x: int, y: int, z: int, dd: seq<Byte>, ee: seq<Byte>, rest: Streams): (streams: Streams) {
    Streams(Triple(x, y, z) + rest.ctrl, dd + rest.diff, ee + rest.extra)
  }

  /** bspatch reads back the triple and the pieces that go with it. */
  lemma ReadTriple(rest: Streams, x: int, y: int, z: int, dd: seq<Byte>, ee: seq<Byte>)
    requires Fits(x) && Fits(y) && Fits(z) && |dd| == x && |ee| == y
    ensures Begins(Front(x, y, z, dd, ee, rest), x, y, z, dd, ee, rest)
  {
    hide OffTOut, OffTIn, Triple;
    TripleParts(x, y, z, rest.ctrl);
    SplitFront(dd, rest.diff);
    SplitFront(ee, rest.extra);
  }

  lemma BeginsPlays(text: seq<Byte>, s: Streams, size: nat, newpos: nat, oldpos: int, done: seq<Byte>,
                    x: int, y: int, z: int, dd: seq<Byte>, ee: seq<Byte>, rest: Streams)
    requires Begins(s, x, y, z, dd, ee, rest) && newpos < size < INT_LIMIT && newpos + x + y <= size
    ensures Then(done, Replay(text, s, size, newpos, oldpos)) ==
            Then(done + (Added(text, oldpos, dd) + ee), Replay(text, rest, size, newpos + x + y, oldpos + x + z))
  {
    hide OffTIn, Replay, Then, Added;
    assert Blocked(s, size, newpos).None?;
    ReplayStep(text, s, size, newpos, oldpos, done);
    assert Streams(s.ctrl[24..], s.diff[x..], s.extra[y..]) == rest;
  }

  lemma Regroup(c: seq<Byte>, d: seq<Byte>, e: seq<Byte>, x: int, y: int, z: int, dd: seq<Byte>, ee: seq<Byte>,
                rest: Streams)
    ensures var s := Front(x, y, z, dd, ee, rest);
            Streams(c + Triple(x, y, z) + rest.ctrl, d + dd + rest.diff, e + ee + rest.extra) ==
            Streams(c + s.ctrl, d + s.diff, e + s.extra)
  {
    hide Triple;
    var s := Front(x, y, z, dd, ee, rest);
    assert c + Triple(x, y, z) + rest.ctrl == c + s.ctrl;
    assert d + dd + rest.diff == d + s.diff;
    assert e + ee + rest.extra == e + s.extra;
  }

  /** Writing one more triple, with diff bytes that restore `x` bytes and `y` extra bytes. */
  lemma EmitTriple(text: seq<Byte>, target: seq<Byte>, c: seq<Byte>, d: seq<Byte>, e: seq<Byte>,
                   lastscan: nat, lastpos: int, x: int, y: int, z: int, dd: seq<Byte>, ee: seq<Byte>)
    requires Emitted(text, target, c, d, e, lastscan, lastpos)
    requires Fits(x) && Fits(y) && Fits(z) && |dd| == x && |ee| == y && |target| < INT_LIMIT
    requires lastscan < |target| && lastscan + x + y <= |target|
    requires Added(text, lastpos, dd) == target[lastscan..lastscan + x]
    requires ee == target[lastscan + x..lastscan + x + y]
    ensures Emitted(text, target, c + Triple(x, y, z), d + dd, e + ee, lastscan + x + y, lastpos + x + z)
  {
    hide Triple, Replay, Then, Added, Front, Begins;
    assert target[..lastscan] + (target[lastscan..lastscan + x] + ee) == target[..lastscan + x + y];
    forall rest: Streams
      ensures Replay(text, Streams(c + Triple(x, y, z) + rest.ctrl, d + dd + rest.diff, e + ee + rest.extra),
                     |target|, 0, 0) ==
              Then(target[..lastscan + x + y], Replay(text, rest, |target|, lastscan + x + y, lastpos + x + z))
    {
      var s := Front(x, y, z, dd, ee, rest);
      ReadTriple(rest, x, y, z, dd, ee);
      BeginsPlays(text, s, |target|, lastscan, lastpos, target[..lastscan], x, y, z, dd, ee, rest);
      Regroup(c, d, e, x, y, z, dd, ee, rest);
    }
  }

  /** The complete streams rebuild the target and are used up exactly; neither overrun check is tripped. */
  lemma AllEmitted(text: seq<Byte>, target: seq<Byte>, c: seq<Byte>, d: seq<Byte>, e: seq<Byte>, lastpos: int)
    requires Emitted(text, target, c, d, e, |target|, lastpos)
    ensures Replay(text, Streams(c, d, e), |target|, 0, 0) == Played(target, Streams([], [], []))
  {
    var rest := Streams([], [], []);
    assert c + [] == c && d + [] == d && e + [] == e;
    ReplayEnd(text, rest, |target|, |target|, lastpos, target[..|target|]);
    assert target[..|target|] == target;
    assert Replay(text, Streams(c + rest.ctrl, d + rest.diff, e + rest.extra), |target|, 0, 0) ==
           Then(target[..|target|], Replay(text, rest, |target|, |target|, lastpos));
  }
}
