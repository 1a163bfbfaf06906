/**
 What bsdiff must write (applypatch/bsdiff.c): the rounds of its main loop, each with the match it found and how far
 that and the one before are extended, and the streams that come of them.
 */
module Rounds {
  import opened Common
  import opened SuffixOrder
  import opened SuffixSearch
  import opened Scan
  import opened BsPatch
  import opened Triples

  /** The variables of the main loop: the last match, where the last triple ended, and the alignment it left. */
  datatype Place = Place(scan: nat, len: nat, pos: nat, lastscan: int, lastpos: int, offset: int)

  /** One round, begun at a place: the match found, whether a triple is written, and how far it reaches. */
  datatype Round = Round(at: Place, scan: nat, len: nat, pos: nat, emits: bool, lenf: nat, lenb: nat)
  {
    function Next(): (place: Place) {
      if emits then Place(scan, len, pos, scan - lenb, pos - lenb, pos - scan)
      else Place(scan, len, pos, at.lastscan, at.lastpos, at.offset)
    }
  }

  const START := Place(0, 0, 0, 0, 0, 0)

  /**
   `f` bytes are the best extension of the last match forwards, `b` bytes that of the new one backwards; where they
   overlap they are cut where that is best.
   */
  predicate Reaches(text: seq<Byte>, target: seq<Byte>, lastscan: int, lastpos: int, scan: int, pos: int,
                    f: int, b: int, cut: int, lenf: int, lenb: int)
  {
    var off, off', overlap := lastpos - lastscan, pos - scan, (lastscan + f) - (scan - b);
    && BestForward(text, target, off, lastscan, Min(scan - lastscan, |text| - lastpos), f)
    && (if scan < |target| then BestBackward(text, target, off', scan, Min(scan - lastscan, pos), b) else b == 0)
    && if overlap > 0 then
         BestCut(text, target, off, off', scan - b, overlap, cut) && lenf == f + cut - overlap && lenb == b - cut
       else cut == 0 && lenf == f && lenb == b
  }

  ghost predicate BestExtents(text: seq<Byte>, target: seq<Byte>, lastscan: int, lastpos: int, scan: int, pos: int,
                              lenf: int, lenb: int)
  {
    exists f, b, cut :: Reaches(text, target, lastscan, lastpos, scan, pos, f, b, cut, lenf, lenb)
  }

  /** The match of a round is the first that ends the search from its place on, or the last there was. */
  ghost predicate FoundFrom(text: seq<Byte>, a: seq<int>, target: seq<Byte>, r: Round)
    requires IsSuffixArray(text, a)
  {
    var start := r.at.scan + r.at.len;
    && start <= r.scan <= |target| && PassesOver(text, a, target, r.at.offset, start, r.scan)
    && (r.scan < |target| ==>
          && Stops(text, a, target, r.at.offset, start, r.scan)
          && (r.len, r.pos) == Found(text, a, target[r.scan..], 0, |text|)
          && (r.emits <==> r.len != OldScore(text, a, target, r.at.offset, start, r.scan)))
    && (r.scan == |target| ==>
          r.emits && (r.len, r.pos) == LastFound(text, a, target, start, r.scan, (r.at.len, r.at.pos)))
  }

  predicate InBounds(text: seq<Byte>, target: seq<Byte>, r: Round) {
    && 0 <= r.at.lastscan && r.at.lastscan + r.lenf <= r.scan - r.lenb && r.scan <= |target|
    && 0 <= r.at.lastpos && r.at.lastpos + r.lenf <= |text| && r.lenb <= r.pos <= |text|
  }

  ghost predicate IsRound(text: seq<Byte>, a: seq<int>, target: seq<Byte>, r: Round)
    requires IsSuffixArray(text, a)
  {
    && r.at.scan < |target| && FoundFrom(text, a, target, r) && InBounds(text, target, r)
    && if r.emits then BestExtents(text, target, r.at.lastscan, r.at.lastpos, r.scan, r.pos, r.lenf, r.lenb)
       else r.lenf == r.lenb == 0
  }

  lemma RoundBounds(text: seq<Byte>, a: seq<int>, target: seq<Byte>, r: Round)
    requires IsSuffixArray(text, a) && IsRound(text, a, target, r)
    ensures r.at.scan < |target| && r.scan <= |target| && InBounds(text, target, r)
  {
  }

  function PlaceAt(rounds: seq<Round>, i: nat): (at: Place)
    requires i <= |rounds|
  {
    if i == 0 then START else rounds[i - 1].Next()
  }

  ghost predicate IsRun(text: seq<Byte>, a: seq<int>, target: seq<Byte>, rounds: seq<Round>)
    requires IsSuffixArray(text, a)
  {
    forall i :: 0 <= i < |rounds| ==> IsRound(text, a, target, rounds[i]) && rounds[i].at == PlaceAt(rounds, i)
  }

  /** The rounds of a whole run of the main loop. */
  ghost predicate IsWholeRun(text: seq<Byte>, a: seq<int>, target: seq<Byte>, rounds: seq<Round>)
    requires IsSuffixArray(text, a)
  {
    IsRun(text, a, target, rounds) && PlaceAt(rounds, |rounds|).scan >= |target|
  }

  /** The bytes to add to the old data at `lastpos` to get the new data at `lastscan`. */
  function Differences(text: seq<Byte>, target: seq<Byte>, lastscan: nat, lastpos: nat, n: nat): (d: seq<Byte>)
    requires lastscan + n <= |target| && lastpos + n <= |text|
    ensures |d| == n && Added(text, lastpos, d) == target[lastscan..lastscan + n]
  {
    var d := seq(n, i requires 0 <= i < n => (target[lastscan + i] as int - text[lastpos + i]) % 256);
    DifferencesRestore(text, target, lastscan, lastpos, d);
    d
  }

  lemma DifferencesRestore(text: seq<Byte>, target: seq<Byte>, lastscan: nat, lastpos: nat, d: seq<Byte>)
    requires lastscan + |d| <= |target| && lastpos + |d| <= |text|
    requires forall i :: 0 <= i < |d| ==> d[i] == (target[lastscan + i] as int - text[lastpos + i]) % 256
    ensures Added(text, lastpos, d) == target[lastscan..lastscan + |d|]
  {
    forall i | 0 <= i < |d| ensures Added(text, lastpos, d)[i] == target[lastscan..lastscan + |d|][i] {
      assert Added(text, lastpos, d)[i] == (d[i] + OldByte(text, lastpos + i)) % 256;
      assert OldByte(text, lastpos + i) == text[lastpos + i];
      ByteBack(target[lastscan + i], text[lastpos + i], d[i]);
    }
  }

  lemma ByteBack(t: Byte, o: Byte, d: Byte)
    requires d == (t as int - o) % 256
    ensures (d + o) % 256 == t
  {
  }

  /** What a round adds to the three streams. */
  function CtrlOf(r: Round): (c: seq<Byte>) {
    if r.emits then
      Triple(r.lenf, (r.scan - r.lenb) - (r.at.lastscan + r.lenf), (r.pos - r.lenb) - (r.at.lastpos + r.lenf))
    else []
  }

  function DiffOf(text: seq<Byte>, target: seq<Byte>, r: Round): (d: seq<Byte>) {
    if r.emits && InBounds(text, target, r) then Differences(text, target, r.at.lastscan, r.at.lastpos, r.lenf) else []
  }

  function ExtraOf(text: seq<Byte>, target: seq<Byte>, r: Round): (e: seq<Byte>) {
    if r.emits && InBounds(text, target, r) then target[r.at.lastscan + r.lenf..r.scan - r.lenb] else []
  }

  function Ctrl(rounds: seq<Round>): (c: seq<Byte>) {
    if rounds == [] then [] else Ctrl(rounds[..|rounds| - 1]) + CtrlOf(rounds[|rounds| - 1])
  }

  function Diff(text: seq<Byte>, target: seq<Byte>, rounds: seq<Round>): (d: seq<Byte>) {
    if rounds == [] then []
    else Diff(text, target, rounds[..|rounds| - 1]) + DiffOf(text, target, rounds[|rounds| - 1])
  }

  function Extra(text: seq<Byte>, target: seq<Byte>, rounds: seq<Round>): (e: seq<Byte>) {
    if rounds == [] then []
    else Extra(text, target, rounds[..|rounds| - 1]) + ExtraOf(text, target, rounds[|rounds| - 1])
  }

  /** The streams are those of the rounds. */
  ghost predicate StreamsOf(text: seq<Byte>, target: seq<Byte>, rounds: seq<Round>, c: seq<Byte>, d: seq<Byte>,
                            e: seq<Byte>)
  {
    c == Ctrl(rounds) && d == Diff(text, target, rounds) && e == Extra(text, target, rounds)
  }

  lemma OneMoreRound(text: seq<Byte>, a: seq<int>, target: seq<Byte>, rounds: seq<Round>, r: Round, c: seq<Byte>,
                     d: seq<Byte>, e: seq<Byte>)
    requires IsSuffixArray(text, a) && IsRun(text, a, target, rounds) && StreamsOf(text, target, rounds, c, d, e)
    requires IsRound(text, a, target, r) && r.at == PlaceAt(rounds, |rounds|)
    ensures IsRun(text, a, target, rounds + [r]) && PlaceAt(rounds + [r], |rounds| + 1) == r.Next()
    ensures StreamsOf(text, target, rounds + [r], c + CtrlOf(r), d + DiffOf(text, target, r),
                      e + ExtraOf(text, target, r))
  {
    hide IsRound, IsSuffixArray, CtrlOf, DiffOf, ExtraOf;
    var all := rounds + [r];
    assert all[..|rounds|] == rounds;
    forall i | 0 <= i < |all| ensures IsRound(text, a, target, all[i]) && all[i].at == PlaceAt(all, i) {
      if i < |rounds| {
        assert all[i] == rounds[i] && PlaceAt(all, i) == PlaceAt(rounds, i);
      } else {
        assert PlaceAt(all, i) == PlaceAt(rounds, i);
      }
    }
  }

  // There is one such run

  lemma ReachesOnce(text: seq<Byte>, target: seq<Byte>, lastscan: int, lastpos: int, scan: int, pos: int,
                    lenf: int, lenb: int, lenf': int, lenb': int)
    requires BestExtents(text, target, lastscan, lastpos, scan, pos, lenf, lenb)
    requires BestExtents(text, target, lastscan, lastpos, scan, pos, lenf', lenb')
    ensures lenf == lenf' && lenb == lenb'
  {
    hide Gain, GainBack, Advantage;
    var f, b, cut :| Reaches(text, target, lastscan, lastpos, scan, pos, f, b, cut, lenf, lenb);
    var f', b', cut' :| Reaches(text, target, lastscan, lastpos, scan, pos, f', b', cut', lenf', lenb');
    ForwardOnce(text, target, lastpos - lastscan, lastscan, Min(scan - lastscan, |text| - lastpos), f, f');
    if scan < |target| {
      BackwardOnce(text, target, pos - scan, scan, Min(scan - lastscan, pos), b, b');
    }
    var overlap := (lastscan + f) - (scan - b);
    if overlap > 0 {
      CutOnce(text, target, lastpos - lastscan, pos - scan, scan - b, overlap, cut, cut');
    }
  }

  lemma ForwardOnce(text: seq<Byte>, target: seq<Byte>, off: int, lo: int, max: int, f: int, f': int)
    requires BestForward(text, target, off, lo, max, f) && BestForward(text, target, off, lo, max, f')
    ensures f == f'
  {
    hide Gain;
    var x, y := Gain(text, target, off, lo, f), Gain(text, target, off, lo, f');
  }

  lemma BackwardOnce(text: seq<Byte>, target: seq<Byte>, off: int, hi: int, max: int, b: int, b': int)
    requires BestBackward(text, target, off, hi, max, b) && BestBackward(text, target, off, hi, max, b')
    ensures b == b'
  {
    hide GainBack;
    var x, y := GainBack(text, target, off, hi, b), GainBack(text, target, off, hi, b');
  }

  lemma CutOnce(text: seq<Byte>, target: seq<Byte>, off: int, off': int, lo: int, overlap: int, cut: int, cut': int)
    requires BestCut(text, target, off, off', lo, overlap, cut) && BestCut(text, target, off, off', lo, overlap, cut')
    ensures cut == cut'
  {
    hide Advantage;
    var x, y := Advantage(text, target, off, off', lo, cut), Advantage(text, target, off, off', lo, cut');
  }

  lemma PassesNoFurther(text: seq<Byte>, a: seq<int>, target: seq<Byte>, off: int, start: nat, s: nat, scan: nat)
    requires IsSuffixArray(text, a) && start <= s < |target| && start <= scan <= |target|
    requires Stops(text, a, target, off, start, s) && PassesOver(text, a, target, off, start, scan)
    ensures scan <= s
  {
    hide IsSuffixArray, Stops;
  }

  /** A round is determined by where it begins. */
  lemma RoundOnce(text: seq<Byte>, a: seq<int>, target: seq<Byte>, r: Round, r': Round)
    requires IsSuffixArray(text, a) && IsRound(text, a, target, r) && IsRound(text, a, target, r') && r.at == r'.at
    ensures r == r'
  {
    hide IsSuffixArray, Found, OldScore, Stops, LastFound, BestExtents;
    var start := r.at.scan + r.at.len;
    if r.scan < |target| {
      PassesNoFurther(text, a, target, r.at.offset, start, r.scan, r'.scan);
    }
    if r'.scan < |target| {
      PassesNoFurther(text, a, target, r.at.offset, start, r'.scan, r.scan);
    }
    if r.emits {
      ReachesOnce(text, target, r.at.lastscan, r.at.lastpos, r.scan, r.pos, r.lenf, r.lenb, r'.lenf, r'.lenb);
    }
  }

  lemma RoundAt(text: seq<Byte>, a: seq<int>, target: seq<Byte>, rounds: seq<Round>, i: nat)
    requires IsSuffixArray(text, a) && IsRun(text, a, target, rounds) && i < |rounds|
    ensures IsRound(text, a, target, rounds[i]) && rounds[i].at == PlaceAt(rounds, i)
    ensures rounds[i].at.scan < |target|
  {
    hide IsSuffixArray, FoundFrom, InBounds, BestExtents;
  }

  /** For given data there is one whole run, and so only one content of the streams. */
  lemma RunOnce(text: seq<Byte>, a: seq<int>, target: seq<Byte>, x: seq<Round>, y: seq<Round>)
    requires IsSuffixArray(text, a) && IsWholeRun(text, a, target, x) && IsWholeRun(text, a, target, y)
    ensures x == y
  {
    hide IsSuffixArray, IsRun;
    var n := if |x| < |y| then |x| else |y|;
    SameRounds(text, a, target, x, y, n);
    assert n > 0 ==> x[n - 1] == x[..n][n - 1] == y[..n][n - 1] == y[n - 1];
    assert PlaceAt(x, n) == PlaceAt(y, n);
    if n < |x| {
      RoundAt(text, a, target, x, n);
    } else if n < |y| {
      RoundAt(text, a, target, y, n);
    }
  }

  lemma {:induction false} SameRounds(text: seq<Byte>, a: seq<int>, target: seq<Byte>, x: seq<Round>, y: seq<Round>,
                                      n: nat)
    requires IsSuffixArray(text, a) && IsRun(text, a, target, x) && IsRun(text, a, target, y) && n <= |x| && n <= |y|
    ensures x[..n] == y[..n]
  {
    hide IsSuffixArray, IsRound, IsRun, Round.Next;
    if n > 0 {
      SameRounds(text, a, target, x, y, n - 1);
      assert n > 1 ==> x[n - 2] == x[..n - 1][n - 2] == y[..n - 1][n - 2] == y[n - 2];
      assert PlaceAt(x, n - 1) == PlaceAt(y, n - 1);
      RoundAt(text, a, target, x, n - 1);
      RoundAt(text, a, target, y, n - 1);
      RoundOnce(text, a, target, x[n - 1], y[n - 1]);
      assert x[..n] == x[..n - 1] + [x[n - 1]] && y[..n] == y[..n - 1] + [y[n - 1]];
    }
  }

  lemma {:induction false} LessOneWay(s: seq<Byte>, a: nat, b: nat)
    requires a <= |s| && b <= |s| && Less(s, a, b)
    ensures !Less(s, b, a)
    decreases |s| - a
  {
    if a < |s| && s[a] == s[b] {
      LessOneWay(s, a + 1, b + 1);
    }
  }

  lemma LessPlaces(s: seq<Byte>, a: seq<int>, j: nat, k: nat)
    requires IsSuffixArray(s, a) && j < |a| && k < |a|
    ensures 0 <= a[j] <= |s| && 0 <= a[k] <= |s|
    ensures j < k ==> Less(s, a[j], a[k])
    ensures a[j] == a[k] ==> j == k
  {
    hide Less;
    assert j < k ==> Less(s, a[j], a[k]);
  }

  /** There is one suffix array. */
  lemma {:induction false} OrderOnce(s: seq<Byte>, a: seq<int>, b: seq<int>, n: nat)
    requires IsSuffixArray(s, a) && IsSuffixArray(s, b) && n <= |a|
    ensures |a| == |b| && a[..n] == b[..n]
  {
    hide Less;
    if n > 0 {
      OrderOnce(s, a, b, n - 1);
      var k := n - 1;
      var i := PlaceOf(a, b[k]);
      var j := PlaceOf(b, a[k]);
      NotBefore(s, a, b, k, i);
      NotBefore(s, b, a, k, j);
      LessPlaces(s, a, k, i);
      LessPlaces(s, b, k, j);
      if a[k] != b[k] {
        LessOneWay(s, a[k], b[k]);
      }
    }
  }

  /** What comes at `k` in the one is not among the same first ones of the other. */
  lemma NotBefore(s: seq<Byte>, a: seq<int>, b: seq<int>, k: nat, i: nat)
    requires IsSuffixArray(s, a) && IsSuffixArray(s, b) && k < |a| && i < |a| && a[..k] == b[..k] && a[i] == b[k]
    ensures k <= i
  {
    hide IsSuffixArray;
    assert |a| == |b| by { SameLength(s, a, b); }
    if i < k {
      assert b[i] == b[..k][i] == a[..k][i] == a[i];
      LessPlaces(s, b, i, k);
    }
  }

  lemma SameLength(s: seq<Byte>, a: seq<int>, b: seq<int>)
    requires IsSuffixArray(s, a) && IsSuffixArray(s, b)
    ensures |a| == |b| == |s| + 1
  {
  }

  // Data that have not changed

  lemma {:induction false} AllHits(text: seq<Byte>, lo: int, hi: int)
    requires 0 <= lo <= hi <= |text|
    ensures Hits(text, text, 0, lo, hi) == hi - lo
    decreases hi
  {
    if lo < hi {
      AllHits(text, lo, hi - 1);
      assert Hit(text, text, 0, hi - 1);
    }
  }

  /** With new data like the old, and nothing emitted yet, a round emits nothing before the end. */
  lemma SameDataRound(text: seq<Byte>, a: seq<int>, r: Round)
    requires IsSuffixArray(text, a) && IsRound(text, a, text, r)
    requires r.at.lastscan == r.at.lastpos == r.at.offset == 0
    ensures r.emits ==> r.scan == |text| && r.lenf == |text| && r.lenb == 0
    ensures !r.emits ==> r.Next().lastscan == r.Next().lastpos == r.Next().offset == 0
    ensures r.scan == |text| ==> r.emits
  {
    hide IsSuffixArray, Found, LastFound;
    var start := r.at.scan + r.at.len;
    if r.scan < |text| {
      var c := Reach(text, a, text, start, r.scan + 1);
      AllHits(text, r.scan, c);
    } else {
      var f, b, cut :| Reaches(text, text, 0, 0, r.scan, r.pos, f, b, cut, r.lenf, r.lenb);
      AllHits(text, 0, f);
      AllHits(text, 0, |text|);
      assert Gain(text, text, 0, 0, |text|) == |text| && Gain(text, text, 0, 0, f) == f;
    }
  }

  /** So nothing of them is written anew: one triple, no extra bytes, and zeros to add. */
  lemma {:induction false} SameDataRun(text: seq<Byte>, a: seq<int>, rounds: seq<Round>, n: nat)
    requires IsSuffixArray(text, a) && IsRun(text, a, text, rounds) && n <= |rounds|
    ensures var at := PlaceAt(rounds, n);
            if at.scan < |text| || n == 0 then
              at.lastscan == at.lastpos == at.offset == 0 && StreamsOf(text, text, rounds[..n], [], [], [])
            else
              && rounds[n - 1].lenf == |text| && rounds[n - 1].lenb == 0
              && Diff(text, text, rounds[..n]) == Differences(text, text, 0, 0, |text|)
              && Extra(text, text, rounds[..n]) == []
              && Ctrl(rounds[..n]) == Triple(|text|, 0, rounds[n - 1].pos - |text|)
  {
    hide IsSuffixArray, IsRound, IsRun, Triple, Differences;
    if n > 0 {
      SameDataRun(text, a, rounds, n - 1);
      var r := rounds[n - 1];
      RoundAt(text, a, text, rounds, n - 1);
      RoundBounds(text, a, text, r);
      SameDataRound(text, a, r);
      assert rounds[..n][..n - 1] == rounds[..n - 1];
    }
  }

  lemma NothingToAdd(text: seq<Byte>)
    ensures forall i :: 0 <= i < |text| ==> Differences(text, text, 0, 0, |text|)[i] == 0
  {
  }

  /** When new and old data are the same: zeros to add, no extra bytes, and a single triple. */
  lemma UnchangedData(text: seq<Byte>, a: seq<int>, rounds: seq<Round>)
    requires IsSuffixArray(text, a) && IsWholeRun(text, a, text, rounds)
    ensures Extra(text, text, rounds) == [] && |Diff(text, text, rounds)| == |text|
    ensures forall i :: 0 <= i < |text| ==> Diff(text, text, rounds)[i] == 0
    ensures |Ctrl(rounds)| == if text == [] then 0 else 24
  {
    hide IsSuffixArray, IsRun, Diff, Extra, Ctrl, Triple, Differences;
    assert rounds[..|rounds|] == rounds;
    SameDataRun(text, a, rounds, |rounds|);
    NothingToAdd(text);
    if text == [] && rounds != [] {
      RoundAt(text, a, text, rounds, 0);
    }
  }
}
