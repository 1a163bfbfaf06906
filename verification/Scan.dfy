/** The scan loop of bsdiff and the three scoring loops around a match (applypatch/bsdiff.c). */
module Scan {
  import opened Common
  import opened SuffixOrder
  import opened SuffixSearch

  /** Byte `k` of the new data equals the old byte that `off` puts next to it. */
  predicate Hit(text: seq<Byte>, target: seq<Byte>, off: int, k: int) {
    0 <= k < |target| && 0 <= k + off < |text| && text[k + off] == target[k]
  }

  /** The number of such bytes in `[lo, hi)`. */
  function Hits(text: seq<Byte>, target: seq<Byte>, off: int, lo: int, hi: int): (n: nat)
    decreases hi - lo
  {
    if lo >= hi then 0 else Hits(text, target, off, lo, hi - 1) + if Hit(text, target, off, hi - 1) then 1 else 0
  }

  lemma {:induction false} HitsFirst(text: seq<Byte>, target: seq<Byte>, off: int, lo: int, hi: int)
    requires lo < hi
    ensures Hits(text, target, off, lo, hi) ==
            Hits(text, target, off, lo + 1, hi) + if Hit(text, target, off, lo) then 1 else 0
    decreases hi - lo
  {
    if lo + 1 >= hi {
    } else {
      HitsFirst(text, target, off, lo, hi - 1);
    }
  }

  lemma {:induction false} HitsAtMost(text: seq<Byte>, target: seq<Byte>, off: int, lo: int, hi: int)
    requires lo <= hi
    ensures Hits(text, target, off, lo, hi) <= hi - lo
    decreases hi - lo
  {
    if lo >= hi {
    } else {
      HitsAtMost(text, target, off, lo, hi - 1);
    }
  }

  /** The loop that counts, up to `upto`, the bytes the current alignment already gets right. */
  method CountHits(text: seq<Byte>, target: seq<Byte>, off: int, scan: nat, upto: nat, c0: nat, score0: int)
      returns (c: nat, score: int)
    requires scan <= upto <= |target| && c0 <= |target| && 0 <= c0 + off
    requires score0 == Hits(text, target, off, scan, c0)
    requires forall k :: c0 <= k < scan ==> !Hit(text, target, off, k)
    ensures c == if c0 < upto then upto else c0
    ensures score == Hits(text, target, off, scan, c)
    ensures forall k :: c <= k < scan ==> !Hit(text, target, off, k)
  {
    c, score := c0, score0;
    while c < upto
      invariant c0 <= c && (c <= upto || c == c0)
      invariant score == Hits(text, target, off, scan, c)
      invariant forall k :: c <= k < scan ==> !Hit(text, target, off, k)
    {
      assert c < scan ==> !Hit(text, target, off, c);
      assert Hit(text, target, off, c) <==> c + off < |text| && text[c + off] == target[c];
      if c + off < |text| && text[c + off] == target[c] {
        score := score + 1;
      }
      c := c + 1;
    }
  }

  lemma HitsOfNone(text: seq<Byte>, target: seq<Byte>, off: int, lo: int)
    ensures Hits(text, target, off, lo, lo) == 0
  {
  }

  /** Moving past `scan` takes its hit, if it was counted, out of the count. */
  lemma DropFirst(text: seq<Byte>, target: seq<Byte>, off: int, scan: int, c: int)
    ensures Hits(text, target, off, scan + 1, c) ==
            Hits(text, target, off, scan, c) - if scan < c && Hit(text, target, off, scan) then 1 else 0
  {
    if scan < c {
      HitsFirst(text, target, off, scan, c);
    }
  }

  lemma MatchFits(a: seq<Byte>, b: seq<Byte>, n: nat)
    requires IsMatchLen(a, b, n)
    ensures n <= |a| && n <= |b|
  {
  }

  /** How far the matches found at the positions from `start` up to `s` reach. */
  ghost function Reach(text: seq<Byte>, a: seq<int>, target: seq<Byte>, start: nat, s: nat): (c: nat)
    requires IsSuffixArray(text, a) && start <= s <= |target|
    ensures start <= c <= |target|
    decreases s
  {
    if s == start then start
    else
      var end := s - 1 + Found(text, a, target[s - 1..], 0, |text|).0;
      if Reach(text, a, target, start, s - 1) < end then end else Reach(text, a, target, start, s - 1)
  }

  /**
   The bytes from `s` on that the alignment `off` already gets right, up to where the matches found so far reach: the
   oldscore that a match at `s` is held against.
   */
  ghost function OldScore(text: seq<Byte>, a: seq<int>, target: seq<Byte>, off: int, start: nat, s: nat): (n: nat)
    requires IsSuffixArray(text, a) && start <= s < |target|
  {
    Hits(text, target, off, s, Reach(text, a, target, start, s + 1))
  }

  /** The match found at `s` ends the inner loop: it only continues the alignment, or is better by more than 8. */
  ghost predicate Stops(text: seq<Byte>, a: seq<int>, target: seq<Byte>, off: int, start: nat, s: nat)
    requires IsSuffixArray(text, a) && start <= s < |target|
  {
    var len, score := Found(text, a, target[s..], 0, |text|).0, OldScore(text, a, target, off, start, s);
    (len == score && len != 0) || len > score + 8
  }

  /** No match found at the positions from `start` up to `scan` ends the loop. */
  ghost predicate PassesOver(text: seq<Byte>, a: seq<int>, target: seq<Byte>, off: int, start: nat, scan: nat)
    requires IsSuffixArray(text, a) && start <= scan <= |target|
  {
    forall s :: start <= s < scan ==> !Stops(text, a, target, off, start, s)
  }

  /** The last match that was looked for before `scan`; if none was, the one from before. */
  ghost function LastFound(text: seq<Byte>, a: seq<int>, target: seq<Byte>, start: nat, scan: nat, before: (nat, nat))
      : (r: (nat, nat))
    requires IsSuffixArray(text, a) && start <= scan <= |target|
  {
    if start == scan then before else Found(text, a, target[scan - 1..], 0, |text|)
  }

  lemma NothingReached(text: seq<Byte>, a: seq<int>, target: seq<Byte>, off: int, start: nat)
    requires IsSuffixArray(text, a) && start <= |target|
    ensures Reach(text, a, target, start, start) == start && PassesOver(text, a, target, off, start, start)
  {
  }

  /** What the match at `s` is judged by. */
  lemma Judged(text: seq<Byte>, a: seq<int>, target: seq<Byte>, off: int, start: nat, s: nat)
    requires IsSuffixArray(text, a) && start <= s < |target| && PassesOver(text, a, target, off, start, s)
    ensures var len := Found(text, a, target[s..], 0, |text|).0;
            var c := Reach(text, a, target, start, s);
            var score := Hits(text, target, off, s, if c < s + len then s + len else c);
            && Reach(text, a, target, start, s + 1) == (if c < s + len then s + len else c)
            && OldScore(text, a, target, off, start, s) == score
            && (Stops(text, a, target, off, start, s) <==> (len == score && len != 0) || len > score + 8)
            && (!Stops(text, a, target, off, start, s) ==> PassesOver(text, a, target, off, start, s + 1))
  {
    hide IsSuffixArray, Hits, Found;
  }

  /**
   The inner loop: from `scan0 + len0` on, find the first position whose match is worth a new triple, or continues the
   current alignment exactly.
   */
  method FindMatch(I: array<int>, text: seq<Byte>, target: seq<Byte>, scan0: nat, len0: nat, pos0: nat, off: int)
      returns (scan: nat, len: nat, pos: nat, oldscore: nat)
    requires IsSuffixArray(text, I[..]) && scan0 + len0 <= |target| && scan0 + off >= 0 && pos0 <= |text|
    ensures scan0 + len0 <= scan <= |target| && pos <= |text|
    ensures scan < |target| ==> 0 < len <= |target| - scan
    ensures PassesOver(text, I[..], target, off, scan0 + len0, scan)
    ensures scan < |target| ==>
              && Stops(text, I[..], target, off, scan0 + len0, scan)
              && (len, pos) == Found(text, I[..], target[scan..], 0, |text|)
              && oldscore == OldScore(text, I[..], target, off, scan0 + len0, scan)
    ensures scan == |target| ==> (len, pos) == LastFound(text, I[..], target, scan0 + len0, scan, (len0, pos0))
  {
    hide IsSuffixArray, IsMatchLen, Hits, Found, Reach, OldScore, Stops, PassesOver;
    var score := 0;
    ghost var start := scan0 + len0;
    HitsOfNone(text, target, off, start);
    NothingReached(text, I[..], target, off, start);
    scan, len, pos := scan0 + len0, len0, pos0;
    var c := scan;
    while scan < |target|
      invariant start <= scan <= |target| && c == Reach(text, I[..], target, start, scan)
      invariant pos <= |text| && 0 <= score
      invariant score == Hits(text, target, off, scan, c)
      invariant forall k :: c <= k < scan ==> !Hit(text, target, off, k)
      invariant PassesOver(text, I[..], target, off, start, scan)
      invariant (len, pos) == LastFound(text, I[..], target, start, scan, (len0, pos0))
      decreases |target| - scan
    {
      len, pos := Search(I, text, target[scan..], 0, |text|);
      MatchFits(text[pos..], target[scan..], len);
      if Hit(text, target, off, scan) {
        OccursIsFound(text, I[..], target[scan..]);
      }
      c, score := CountHits(text, target, off, scan, scan + len, c, score);
      Judged(text, I[..], target, off, start, scan);
      if (len == score && len != 0) || len > score + 8 {
        oldscore := score;
        return;
      }
      DropFirst(text, target, off, scan, c);
      if scan + off < |text| && text[scan + off] == target[scan] {
        score := score - 1;
      }
      scan := scan + 1;
    }
    oldscore := score;
  }

  /** Bytes matched minus bytes missed when the alignment `off` is kept for the `i` bytes from `lo` on. */
  function Gain(text: seq<Byte>, target: seq<Byte>, off: int, lo: int, i: int): (r: int) {
    2 * Hits(text, target, off, lo, lo + i) - i
  }

  /** No extension of up to `max` bytes gains more than `len` bytes do, and no shorter one as much. */
  predicate BestForward(text: seq<Byte>, target: seq<Byte>, off: int, lo: int, max: int, len: int) {
    && 0 <= len <= max
    && (forall k :: 0 <= k <= max ==> Gain(text, target, off, lo, k) <= Gain(text, target, off, lo, len))
    && (forall k :: 0 <= k < len ==> Gain(text, target, off, lo, k) < Gain(text, target, off, lo, len))
  }

  /** How far the previous alignment should be extended forwards: the length of greatest gain. */
  method ExtendForward(text: seq<Byte>, target: seq<Byte>, lastscan: nat, lastpos: nat, scan: nat)
      returns (lenf: nat)
    requires lastscan <= scan <= |target| && lastpos <= |text|
    ensures lastscan + lenf <= scan && lastpos + lenf <= |text|
    ensures BestForward(text, target, lastpos - lastscan, lastscan, Min(scan - lastscan, |text| - lastpos), lenf)
  {
    ghost var off := lastpos - lastscan;
    var i, s, best := 0, 0, 0;
    lenf := 0;
    while lastscan + i < scan && lastpos + i < |text|
      invariant lenf <= i && lastscan + i <= scan && lastpos + i <= |text|
      invariant s == Hits(text, target, off, lastscan, lastscan + i)
      invariant 2 * best - lenf == Gain(text, target, off, lastscan, lenf)
      invariant forall k :: 0 <= k <= i ==> Gain(text, target, off, lastscan, k) <= 2 * best - lenf
      invariant forall k :: 0 <= k < lenf ==> Gain(text, target, off, lastscan, k) < 2 * best - lenf
    {
      if text[lastpos + i] == target[lastscan + i] {
        s := s + 1;
      }
      i := i + 1;
      assert Gain(text, target, off, lastscan, i) == 2 * s - i;
      if s * 2 - i > best * 2 - lenf {
        best := s;
        lenf := i;
      }
    }
  }

  /** Bytes matched minus bytes missed when the alignment `off` is used for the `i` bytes before `hi`. */
  function GainBack(text: seq<Byte>, target: seq<Byte>, off: int, hi: int, i: int): (r: int) {
    2 * Hits(text, target, off, hi - i, hi) - i
  }

  predicate BestBackward(text: seq<Byte>, target: seq<Byte>, off: int, hi: int, max: int, len: int) {
    && 0 <= len <= max
    && (forall k :: 0 <= k <= max ==> GainBack(text, target, off, hi, k) <= GainBack(text, target, off, hi, len))
    && (forall k :: 0 <= k < len ==> GainBack(text, target, off, hi, k) < GainBack(text, target, off, hi, len))
  }

  /** How far the new match should be extended backwards. */
  method ExtendBackward(text: seq<Byte>, target: seq<Byte>, lastscan: nat, scan: nat, pos: nat) returns (lenb: nat)
    requires lastscan <= scan <= |target| && pos <= |text|
    ensures lastscan <= scan - lenb && lenb <= pos
    ensures BestBackward(text, target, pos - scan, scan, Min(scan - lastscan, pos), lenb)
  {
    ghost var off := pos - scan;
    var i, s, best := 1, 0, 0;
    lenb := 0;
    while scan >= lastscan + i && pos >= i
      invariant lenb < i && lastscan + i <= scan + 1 && i <= pos + 1
      invariant s == Hits(text, target, off, scan - i + 1, scan)
      invariant 2 * best - lenb == GainBack(text, target, off, scan, lenb)
      invariant forall k :: 0 <= k < i ==> GainBack(text, target, off, scan, k) <= 2 * best - lenb
      invariant forall k :: 0 <= k < lenb ==> GainBack(text, target, off, scan, k) < 2 * best - lenb
    {
      HitsFirst(text, target, off, scan - i, scan);
      if text[pos - i] == target[scan - i] {
        s := s + 1;
      }
      assert GainBack(text, target, off, scan, i) == 2 * s - i;
      if s * 2 - i > best * 2 - lenb {
        best := s;
        lenb := i;
      }
      i := i + 1;
    }
  }

  /** How much better the first alignment does than the second on the `i` bytes from `lo` on. */
  function Advantage(text: seq<Byte>, target: seq<Byte>, off1: int, off2: int, lo: int, i: int): (r: int) {
    Hits(text, target, off1, lo, lo + i) - Hits(text, target, off2, lo, lo + i)
  }

  predicate BestCut(text: seq<Byte>, target: seq<Byte>, off1: int, off2: int, lo: int, overlap: int, len: int) {
    && 0 <= len <= overlap
    && (forall k :: 0 <= k <= overlap ==>
          Advantage(text, target, off1, off2, lo, k) <= Advantage(text, target, off1, off2, lo, len))
    && (forall k :: 0 <= k < len ==>
          Advantage(text, target, off1, off2, lo, k) < Advantage(text, target, off1, off2, lo, len))
  }

  /** Where to cut an overlap of the two extensions: the first alignment keeps the part where it does best. */
  method SplitOverlap(text: seq<Byte>, target: seq<Byte>, lo: nat, overlap: nat, oldlo1: nat, oldlo2: nat)
      returns (lens: nat)
    requires lo + overlap <= |target| && oldlo1 + overlap <= |text| && oldlo2 + overlap <= |text|
    ensures lens <= overlap
    ensures BestCut(text, target, oldlo1 - lo, oldlo2 - lo, lo, overlap, lens)
  {
    ghost var off1, off2 := oldlo1 - lo, oldlo2 - lo;
    var i, s, best := 0, 0, 0;
    lens := 0;
    while i < overlap
      invariant lens <= i <= overlap
      invariant s == Advantage(text, target, off1, off2, lo, i) && best == Advantage(text, target, off1, off2, lo, lens)
      invariant forall k :: 0 <= k <= i ==> Advantage(text, target, off1, off2, lo, k) <= best
      invariant forall k :: 0 <= k < lens ==> Advantage(text, target, off1, off2, lo, k) < best
    {
      if target[lo + i] == text[oldlo1 + i] {
        s := s + 1;
      }
      if target[lo + i] == text[oldlo2 + i] {
        s := s - 1;
      }
      assert s == Advantage(text, target, off1, off2, lo, i + 1);
      if s > best {
        best := s;
        lens := i + 1;
      }
      i := i + 1;
    }
  }
}
