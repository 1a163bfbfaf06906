/** bsdiff of applypatch/bsdiff.c: the scan/emit loop and the patch file. */
module BsDiff {
  import opened Common
  import opened LittleEndian
  import opened SuffixOrder
  import opened QSufSort
  import opened SuffixSearch
  import opened Scan
  import opened BsPatch
  import opened Triples
  import opened Rounds

  /** How far a triple reaches: forwards from the last match and backwards from the new one, overlap removed. */
  method Extents(text: seq<Byte>, target: seq<Byte>, lastscan: nat, lastpos: nat, scan: nat, pos: nat)
      returns (lenf: nat, lenb: nat)
    requires lastscan <= scan <= |target| && lastpos <= |text| && pos <= |text|
    ensures lastscan + lenf <= scan - lenb && lastpos + lenf <= |text| && lenb <= pos
    ensures BestExtents(text, target, lastscan, lastpos, scan, pos, lenf, lenb)
    ensures scan == |target| ==> lenb == 0
  {
    hide BestForward, BestBackward, BestCut;
    lenf := ExtendForward(text, target, lastscan, lastpos, scan);
    lenb := 0;
    if scan < |target| {
      lenb := ExtendBackward(text, target, lastscan, scan, pos);
    }
    ghost var f, b, cut := lenf, lenb, 0;
    if lastscan + lenf > scan - lenb {
      var overlap := (lastscan + lenf) - (scan - lenb);
      var lens := SplitOverlap(text, target, scan - lenb, overlap, lastpos + lenf - overlap, pos - lenb);
      lenf := lenf + lens - overlap;
      lenb := lenb - lens;
      cut := lens;
    }
    assert Reaches(text, target, lastscan, lastpos, scan, pos, f, b, cut, lenf, lenb);
  }

  /** The loops that append to the diff and extra buffers. */
  method Append(db: array<Byte>, dblen: nat, eb: array<Byte>, eblen: nat, text: seq<Byte>, target: seq<Byte>,
                lastscan: nat, lastpos: nat, lenf: nat, rest: nat)
    requires db != eb && dblen + lenf <= db.Length && eblen + rest <= eb.Length
    requires lastscan + lenf + rest <= |target| && lastpos + lenf <= |text|
    modifies db, eb
    ensures db[..dblen + lenf] == old(db[..dblen]) + Differences(text, target, lastscan, lastpos, lenf)
    ensures eb[..eblen + rest] == old(eb[..eblen]) + target[lastscan + lenf..lastscan + lenf + rest]
  {
    ghost var d0, d := db[..dblen], Differences(text, target, lastscan, lastpos, lenf);
    ghost var e0, e := eb[..eblen], target[lastscan + lenf..lastscan + lenf + rest];
    var i := 0;
    while i < lenf
      invariant 0 <= i <= lenf && eb[..eblen] == e0
      invariant db[..dblen + i] == d0 + d[..i]
    {
      assert db[..dblen + i] == d0 + d[..i] && d[..i + 1] == d[..i] + [d[i]];
      db[dblen + i] := (target[lastscan + i] as int - text[lastpos + i]) % 256;
      i := i + 1;
    }
    assert d[..lenf] == d;
    i := 0;
    while i < rest
      invariant 0 <= i <= rest && db[..dblen + lenf] == d0 + d
      invariant eb[..eblen + i] == e0 + e[..i]
    {
      assert eb[..eblen + i] == e0 + e[..i] && e[..i + 1] == e[..i] + [e[i]];
      eb[eblen + i] := target[lastscan + lenf + i];
      i := i + 1;
    }
    assert e[..rest] == e;
  }

  /** The streams of one more round that writes a triple still rebuild what they should. */
  lemma EmitRound(text: seq<Byte>, target: seq<Byte>, c: seq<Byte>, d: seq<Byte>, e: seq<Byte>, r: Round)
    requires InBounds(text, target, r) && r.emits && r.at.lastscan < |target|
    requires Emitted(text, target, c, d, e, r.at.lastscan, r.at.lastpos) && Triples.Fits(|text|) && |target| < INT_LIMIT
    ensures Emitted(text, target, c + CtrlOf(r), d + DiffOf(text, target, r), e + ExtraOf(text, target, r),
                    r.scan - r.lenb, r.pos - r.lenb)
  {
    hide Emitted, Triple, Added;
    var dd := Differences(text, target, r.at.lastscan, r.at.lastpos, r.lenf);
    hide Differences;
    EmitTriple(text, target, c, d, e, r.at.lastscan, r.at.lastpos, r.lenf,
               (r.scan - r.lenb) - (r.at.lastscan + r.lenf), (r.pos - r.lenb) - (r.at.lastpos + r.lenf), dd,
               target[r.at.lastscan + r.lenf..r.scan - r.lenb]);
  }

  /** One round of emission: pieces, control triple, and the new reference points. */
  method Emit(db: array<Byte>, dblen: nat, eb: array<Byte>, eblen: nat, text: seq<Byte>, target: seq<Byte>,
              lastscan: nat, lastpos: nat, scan: nat, pos: nat, ctrl: seq<Byte>, ghost r0: Round)
      returns (ctrl': seq<Byte>, dblen': nat, eblen': nat, lastscan': nat, lastpos': nat, ghost r: Round)
    requires db != eb && db.Length == eb.Length == |target| + 1 && dblen <= db.Length && eblen <= eb.Length
    requires lastscan <= scan <= |target| && lastscan < |target| && lastpos <= |text| && pos <= |text|
    requires Triples.Fits(|text|) && |target| < INT_LIMIT
    requires Emitted(text, target, ctrl, db[..dblen], eb[..eblen], lastscan, lastpos)
    requires r0.at.lastscan == lastscan && r0.at.lastpos == lastpos && r0.scan == scan && r0.pos == pos && r0.emits
    modifies db, eb
    ensures dblen' <= db.Length && eblen' <= eb.Length && lastscan' <= scan && lastpos' <= |text|
    ensures scan == |target| ==> lastscan' == |target|
    ensures r == r0.(lenf := r.lenf, lenb := r.lenb) && InBounds(text, target, r)
    ensures BestExtents(text, target, lastscan, lastpos, scan, pos, r.lenf, r.lenb)
    ensures lastscan' == scan - r.lenb && lastpos' == pos - r.lenb && ctrl' == ctrl + CtrlOf(r)
    ensures db[..dblen'] == old(db[..dblen]) + DiffOf(text, target, r)
    ensures eb[..eblen'] == old(eb[..eblen]) + ExtraOf(text, target, r)
    ensures Emitted(text, target, ctrl', db[..dblen'], eb[..eblen'], lastscan', lastpos') && |ctrl'| == |ctrl| + 24
  {
    hide Emitted, Triple, Differences, Added, BestExtents;
    EmittedSize(text, target, ctrl, db[..dblen], eb[..eblen], lastscan, lastpos);
    var lenf, lenb := Extents(text, target, lastscan, lastpos, scan, pos);
    r := r0.(lenf := lenf, lenb := lenb);
    var rest := (scan - lenb) - (lastscan + lenf);
    EmitRound(text, target, ctrl, db[..dblen], eb[..eblen], r);
    Append(db, dblen, eb, eblen, text, target, lastscan, lastpos, lenf, rest);
    ctrl' := ctrl + Triple(lenf, rest, (pos - lenb) - (lastpos + lenf));
    dblen' := dblen + lenf;
    eblen' := eblen + rest;
    lastscan' := scan - lenb;
    lastpos' := pos - lenb;
  }

  /**
   bsdiff's main loop: the streams are those of the run that there is for these data; they rebuild `target` from `text`,
   and are used up doing so.
   */
  method Differ(I: array<int>, text: seq<Byte>, target: seq<Byte>)
      returns (ctrl: seq<Byte>, diff: seq<Byte>, extra: seq<Byte>, ghost rounds: seq<Round>)
    requires IsSuffixArray(text, I[..]) && Triples.Fits(|text|) && |target| < INT_LIMIT
    ensures IsWholeRun(text, I[..], target, rounds) && StreamsOf(text, target, rounds, ctrl, diff, extra)
    ensures Replay(text, Streams(ctrl, diff, extra), |target|, 0, 0) == Played(target, Streams([], [], []))
    ensures |diff| + |extra| == |target| && |ctrl| <= 24 * (|target| + 1)
  {
    hide IsSuffixArray, Emitted, IsMatchLen, Hits, IsRun, BestExtents, Stops, PassesOver, OldScore, LastFound, Found,
         StreamsOf, DiffOf, ExtraOf, CtrlOf;
    var db, eb := new Byte[|target| + 1], new Byte[|target| + 1];
    var dblen: nat, eblen: nat := 0, 0;
    ctrl, rounds := [], [];
    NothingEmitted(text, target);
    NoRounds(text, I[..], target);
    var scan: nat, len: nat, pos: nat := 0, 0, 0;
    var lastscan: nat, lastpos: nat, lastoffset := 0, 0, 0;
    assert db[..0] == [] && eb[..0] == [];
    while scan < |target|
      invariant dblen <= db.Length && eblen <= eb.Length
      invariant lastscan <= scan <= |target| && lastpos <= |text| && pos <= |text|
      invariant scan == |target| ==> lastscan == |target|
      invariant scan < |target| ==> scan + len <= |target| && (scan > 0 ==> len > 0)
      invariant scan + lastoffset >= 0
      invariant |ctrl| <= 24 * if scan < |target| then scan + len else |target| + 1
      invariant Emitted(text, target, ctrl, db[..dblen], eb[..eblen], lastscan, lastpos)
      invariant IsRun(text, I[..], target, rounds)
      invariant PlaceAt(rounds, |rounds|) == Place(scan, len, pos, lastscan, lastpos, lastoffset)
      invariant StreamsOf(text, target, rounds, ctrl, db[..dblen], eb[..eblen])
      decreases if scan < |target| then |target| - (scan + len) + 1 else 0
    {
      ghost var at, c, d, e := PlaceAt(rounds, |rounds|), ctrl, db[..dblen], eb[..eblen];
      var oldscore: nat;
      scan, len, pos, oldscore := FindMatch(I, text, target, scan, len, pos, lastoffset);
      ghost var r := Round(at, scan, len, pos, false, 0, 0);
      if len != oldscore || scan == |target| {
        r := r.(emits := true);
        ctrl, dblen, eblen, lastscan, lastpos, r :=
          Emit(db, dblen, eb, eblen, text, target, lastscan, lastpos, scan, pos, ctrl, r);
        lastoffset := pos - scan;
      } else {
        SilentRound(text, target, r, c, d, e);
      }
      OneMoreRound(text, I[..], target, rounds, r, c, d, e);
      rounds := rounds + [r];
    }
    diff, extra := db[..dblen], eb[..eblen];
    AllEmitted(text, target, ctrl, diff, extra, lastpos);
    EmittedSize(text, target, ctrl, diff, extra, lastscan, lastpos);
  }

  lemma NoRounds(text: seq<Byte>, a: seq<int>, target: seq<Byte>)
    requires IsSuffixArray(text, a)
    ensures IsRun(text, a, target, []) && StreamsOf(text, target, [], [], [], [])
  {
  }

  lemma SilentRound(text: seq<Byte>, target: seq<Byte>, r: Round, c: seq<Byte>, d: seq<Byte>, e: seq<Byte>)
    requires !r.emits
    ensures c + CtrlOf(r) == c && d + DiffOf(text, target, r) == d && e + ExtraOf(text, target, r) == e
  {
  }

  lemma EmittedSize(text: seq<Byte>, target: seq<Byte>, c: seq<Byte>, d: seq<Byte>, e: seq<Byte>,
                    lastscan: nat, lastpos: int)
    requires Emitted(text, target, c, d, e, lastscan, lastpos)
    ensures |d| + |e| == lastscan
  {
  }

  /**
   What is assumed of bzip2: a compressed stream delimits itself, decompresses to what was compressed, and is not much
   longer than that.
   */
  ghost predicate Bzip2(zip: seq<Byte> -> seq<Byte>, unzip: seq<Byte> -> seq<Byte>) {
    && (forall x: seq<Byte>, rest: seq<Byte> :: unzip(zip(x) + rest) == x)
    && (forall x: seq<Byte> :: |zip(x)| <= 2 * |x| + 600)
  }

  /** Wherever `patch` lies inside a larger file, applying it to `text` yields `target`. */
  ghost predicate IsPatch(unzip: seq<Byte> -> seq<Byte>, text: seq<Byte>, target: seq<Byte>, patch: seq<Byte>) {
    forall before: seq<Byte>, after: seq<Byte> ::
      PatchMem(unzip, text, before + patch + after, |before|) == Done(target)
  }

  function PatchFile(zip: seq<Byte> -> seq<Byte>, ctrl: seq<Byte>, diff: seq<Byte>, extra: seq<Byte>, size: nat)
      : (patch: seq<Byte>)
    ensures |patch| == HEADER_SIZE + |zip(ctrl)| + |zip(diff)| + |zip(extra)|
  {
    Header(|zip(ctrl)|, |zip(diff)|, size) + zip(ctrl) + zip(diff) + zip(extra)
  }

  function Header(ctrlSize: nat, diffSize: nat, size: nat): (h: seq<Byte>)
    ensures |h| == HEADER_SIZE
  {
    MAGIC + OffTOut(ctrlSize) + OffTOut(diffSize) + OffTOut(size)
  }

  lemma HeaderParts(h: seq<Byte>, ctrlSize: nat, diffSize: nat, size: nat, rest: seq<Byte>)
    requires h == Header(ctrlSize, diffSize, size) + rest
    requires Triples.Fits(ctrlSize) && Triples.Fits(diffSize) && Triples.Fits(size)
    ensures |h| >= HEADER_SIZE && h[..8] == MAGIC
    ensures OffTIn(h[8..16]) == ctrlSize && OffTIn(h[16..24]) == diffSize && OffTIn(h[24..32]) == size
    ensures h[HEADER_SIZE..] == rest
  {
    hide OffTOut, OffTIn;
    assert h == MAGIC + (OffTOut(ctrlSize) + (OffTOut(diffSize) + (OffTOut(size) + rest)));
    assert h[8..16] == OffTOut(ctrlSize) && h[16..24] == OffTOut(diffSize) && h[24..32] == OffTOut(size);
  }

  lemma SliceThree<T>(h: seq<T>, n: nat, a: seq<T>, b: seq<T>, c: seq<T>)
    requires n <= |h| && h[n..] == a + b + c
    ensures n + |a| + |b| <= |h|
    ensures h[n..n + |a|] == a && h[n + |a|..n + |a| + |b|] == b && h[n + |a| + |b|..] == c
  {
    assert h[n..n + |a|] == h[n..][..|a|];
    assert h[n + |a|..n + |a| + |b|] == h[n..][|a|..|a| + |b|];
    assert h[n + |a| + |b|..] == h[n..][|a| + |b|..];
  }

  lemma OpenFile(zip: seq<Byte> -> seq<Byte>, unzip: seq<Byte> -> seq<Byte>, ctrl: seq<Byte>, diff: seq<Byte>,
                 extra: seq<Byte>, size: nat, before: seq<Byte>, after: seq<Byte>)
    requires Bzip2(zip, unzip) && Triples.Fits(size) && Triples.Fits(|PatchFile(zip, ctrl, diff, extra, size)|)
    ensures Open(unzip, before + PatchFile(zip, ctrl, diff, extra, size) + after, |before|)
            == Opened(Streams(ctrl, diff, extra), size)
  {
    hide Header, OffTIn, OffTOut;
    var c, d, e := zip(ctrl), zip(diff), zip(extra);
    var p := before + PatchFile(zip, ctrl, diff, extra, size) + after;
    var h := p[|before|..];
    assert h == Header(|c|, |d|, size) + (c + d + (e + after));
    HeaderParts(h, |c|, |d|, size, c + d + (e + after));
    SliceThree(h, HEADER_SIZE, c, d, e + after);
    assert unzip(c + []) == ctrl && unzip(d + []) == diff && unzip(e + after) == extra;
    assert c + [] == c && d + [] == d;
  }

  lemma PatchFileFits(zip: seq<Byte> -> seq<Byte>, unzip: seq<Byte> -> seq<Byte>, ctrl: seq<Byte>, diff: seq<Byte>,
                      extra: seq<Byte>, size: nat)
    requires Bzip2(zip, unzip) && size < INT_LIMIT && |diff| + |extra| == size && |ctrl| <= 24 * (size + 1)
    ensures Triples.Fits(|PatchFile(zip, ctrl, diff, extra, size)|)
  {
  }

  /** The patch holds the streams of the run that there is for these data. */
  ghost predicate IsDiff(text: seq<Byte>, a: seq<int>, target: seq<Byte>, zip: seq<Byte> -> seq<Byte>,
                         patch: seq<Byte>)
    requires IsSuffixArray(text, a)
  {
    exists rounds ::
      && IsWholeRun(text, a, target, rounds)
      && patch == PatchFile(zip, Ctrl(rounds), Diff(text, target, rounds), Extra(text, target, rounds), |target|)
  }

  /** The patch is what bsdiff writes for these data. */
  ghost predicate IsDiffOf(text: seq<Byte>, target: seq<Byte>, zip: seq<Byte> -> seq<Byte>, patch: seq<Byte>) {
    exists a :: IsSuffixArray(text, a) && IsDiff(text, a, target, zip, patch)
  }

  /** There is one such patch. */
  lemma DiffOnce(text: seq<Byte>, target: seq<Byte>, zip: seq<Byte> -> seq<Byte>, x: seq<Byte>, y: seq<Byte>)
    requires IsDiffOf(text, target, zip, x) && IsDiffOf(text, target, zip, y)
    ensures x == y
  {
    hide IsSuffixArray, IsWholeRun, Diff, Extra, Ctrl, PatchFile;
    var a :| IsSuffixArray(text, a) && IsDiff(text, a, target, zip, x);
    var b :| IsSuffixArray(text, b) && IsDiff(text, b, target, zip, y);
    SameOrder(text, a, b);
    var r :| IsWholeRun(text, a, target, r)
             && x == PatchFile(zip, Ctrl(r), Diff(text, target, r), Extra(text, target, r), |target|);
    var r' :| IsWholeRun(text, b, target, r')
              && y == PatchFile(zip, Ctrl(r'), Diff(text, target, r'), Extra(text, target, r'), |target|);
    Rounds.RunOnce(text, a, target, r, r');
  }

  lemma SameOrder(text: seq<Byte>, a: seq<int>, b: seq<int>)
    requires IsSuffixArray(text, a) && IsSuffixArray(text, b)
    ensures a == b
  {
    OrderOnce(text, a, b, |a|);
    assert a[..|a|] == a && b[..|b|] == b;
  }

  /** Data that have not changed are not written again. */
  lemma UnchangedIsDiff(text: seq<Byte>, zip: seq<Byte> -> seq<Byte>, patch: seq<Byte>)
    requires IsDiffOf(text, text, zip, patch)
    ensures exists ctrl: seq<Byte> ::
              && |ctrl| == (if text == [] then 0 else 24)
              && patch == PatchFile(zip, ctrl, Zeros(|text|), [], |text|)
  {
    hide IsSuffixArray, IsWholeRun, Diff, Extra, Ctrl, PatchFile;
    var a :| IsSuffixArray(text, a) && IsDiff(text, a, text, zip, patch);
    var rounds :| IsWholeRun(text, a, text, rounds)
                  && patch == PatchFile(zip, Ctrl(rounds), Diff(text, text, rounds), Extra(text, text, rounds), |text|);
    UnchangedData(text, a, rounds);
    assert Diff(text, text, rounds) == Zeros(|text|);
  }

  function Zeros(n: nat): (s: seq<Byte>)
    ensures |s| == n && forall i :: 0 <= i < n ==> s[i] == 0
  {
    seq(n, _ => 0)
  }

  /**
   bsdiff: the patch file, which rebuilds `target` from `text`.  `ip` is the suffix array kept by the caller from an
   earlier call with the same old data, or null.
   */
  method BsDiff(text: seq<Byte>, ip: array?<int>, target: seq<Byte>, zip: seq<Byte> -> seq<Byte>,
                ghost unzip: seq<Byte> -> seq<Byte>)
      returns (patch: seq<Byte>, I: array<int>)
    requires ip != null ==> IsSuffixArray(text, ip[..])
    requires Triples.Fits(|text|) && |target| < INT_LIMIT && Bzip2(zip, unzip)
    ensures if ip != null then I == ip else fresh(I)
    ensures IsSuffixArray(text, I[..])
    ensures IsPatch(unzip, text, target, patch) && Triples.Fits(|patch|)
    ensures IsDiffOf(text, target, zip, patch)
  {
    hide IsSuffixArray, Replay, Open, PatchFile, Bzip2, IsWholeRun, Ctrl, Diff, Extra;
    if ip == null {
      I := new int[|text| + 1];
      var V := new int[|text| + 1];
      QSufSort.QSufSort(I, V, text);
    } else {
      I := ip;
    }
    var ctrl, diff, extra, rounds := Differ(I, text, target);
    patch := PatchFile(zip, ctrl, diff, extra, |target|);
    PatchFileFits(zip, unzip, ctrl, diff, extra, |target|);
    assert IsDiff(text, I[..], target, zip, patch);
    forall before: seq<Byte>, after: seq<Byte>
      ensures PatchMem(unzip, text, before + patch + after, |before|) == Done(target)
    {
      OpenFile(zip, unzip, ctrl, diff, extra, |target|, before, after);
    }
  }
}
