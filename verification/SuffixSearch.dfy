/** matchlen and search of applypatch/bsdiff.c. */
module SuffixSearch {
  import opened Common
  import opened SuffixOrder

  /** `n` is the length of the longest common prefix of `a` and `b`. */
  predicate IsMatchLen(a: seq<Byte>, b: seq<Byte>, n: nat) {
    n <= |a| && n <= |b| && a[..n] == b[..n] && (n < |a| && n < |b| ==> a[n] != b[n])
  }

  function Lcp(a: seq<Byte>, b: seq<Byte>): (n: nat)
    ensures IsMatchLen(a, b, n)
  {
    if a == [] || b == [] || a[0] != b[0] then 0
    else
      var n := Lcp(a[1..], b[1..]);
      assert a[..n + 1] == [a[0]] + a[1..][..n] && b[..n + 1] == [b[0]] + b[1..][..n];
      n + 1
  }

  lemma LcpUnique(a: seq<Byte>, b: seq<Byte>, n: nat)
    requires IsMatchLen(a, b, n)
    ensures n == Lcp(a, b)
  {
    var m := Lcp(a, b);
    assert forall i :: 0 <= i < n ==> a[i] == a[..n][i] == b[..n][i] == b[i];
    assert forall i :: 0 <= i < m ==> a[i] == a[..m][i] == b[..m][i] == b[i];
  }

  method MatchLen(a: seq<Byte>, b: seq<Byte>) returns (i: nat)
    ensures i == Lcp(a, b)
  {
    i := 0;
    while i < |a| && i < |b|
      invariant i <= |a| && i <= |b| && a[..i] == b[..i]
    {
      if a[i] != b[i] {
        break;
      }
      i := i + 1;
    }
    LcpUnique(a, b, i);
  }

  /** The sign of memcmp over the length of the shorter string. */
  function MemCmp(a: seq<Byte>, b: seq<Byte>): (r: int) {
    if a == [] || b == [] then 0
    else if a[0] < b[0] then -1
    else if a[0] > b[0] then 1
    else MemCmp(a[1..], b[1..])
  }

  /** The suffix listed at place `k`. */
  ghost function Suffix(text: seq<Byte>, a: seq<int>, k: int): (x: seq<Byte>)
    requires IsSuffixArray(text, a) && 0 <= k <= |text|
  {
    text[a[k]..]
  }

  /** Where the bisection between `st` and `en` ends: the length of a match, and the suffix. */
  ghost function Found(text: seq<Byte>, a: seq<int>, target: seq<Byte>, st: nat, en: nat): (r: (nat, nat))
    requires IsSuffixArray(text, a) && st <= en <= |text|
    ensures r.1 <= |text| && r.0 == Lcp(text[r.1..], target)
    decreases en - st
  {
    if en - st < 2 then
      var x, y := Lcp(Suffix(text, a, st), target), Lcp(Suffix(text, a, en), target);
      if x > y then (x, a[st]) else (y, a[en])
    else
      var x := st + (en - st) / 2;
      if MemCmp(Suffix(text, a, x), target) < 0 then Found(text, a, target, x, en) else Found(text, a, target, st, x)
  }

  /**
   The places where the bisection goes the wrong way: the suffix there is a proper prefix of the target, and so comes
   before it, but memcmp does not see a difference.
   */
  ghost function Blind(text: seq<Byte>, a: seq<int>, target: seq<Byte>, st: nat, en: nat): (places: seq<nat>)
    requires IsSuffixArray(text, a) && st <= en <= |text|
    ensures forall i :: 0 <= i < |places| ==> st < places[i] < en && Suffix(text, a, places[i]) < target
    decreases en - st
  {
    if en - st < 2 then []
    else
      var x := st + (en - st) / 2;
      if MemCmp(Suffix(text, a, x), target) < 0 then Blind(text, a, target, x, en)
      else if Suffix(text, a, x) < target then [x] + Blind(text, a, target, st, x)
      else Blind(text, a, target, st, x)
  }

  lemma FirstBytes(x: seq<Byte>, y: seq<Byte>)
    requires LexLess(x, y)
    ensures y != [] && (x == [] || x[0] <= y[0])
  {
    var k: nat :| DiffersAt(x, y, k);
    if k > 0 {
      assert x[..k][0] == y[..k][0];
    }
  }

  /** memcmp sees that a string comes before the target, unless it is a proper prefix of the target. */
  lemma {:induction false} MemCmpIsLess(x: seq<Byte>, target: seq<Byte>)
    ensures LexLess(x, target) <==> MemCmp(x, target) < 0 || x < target
    ensures x < target ==> MemCmp(x, target) == 0
  {
    if x == [] || target == [] || x[0] != target[0] {
      if LexLess(x, target) {
        FirstBytes(x, target);
      }
      if target != [] && (x == [] || x[0] < target[0]) {
        assert DiffersAt(x, target, 0);
      }
    } else {
      MemCmpIsLess(x[1..], target[1..]);
      assert x == [x[0]] + x[1..] && target == [target[0]] + target[1..];
      assert x < target <==> x[1..] < target[1..];
      if k: nat :| DiffersAt(x, target, k) {
        DiffersAtTail(x, target, k - 1);
      }
      if k: nat :| DiffersAt(x[1..], target[1..], k) {
        DiffersAtTail(x, target, k);
      }
    }
  }

  lemma LcpAtLeast(x: seq<Byte>, target: seq<Byte>, n: nat)
    requires n <= |x| && n <= |target| && x[..n] == target[..n]
    ensures Lcp(x, target) >= n
  {
    assert forall i :: 0 <= i < n ==> x[i] == x[..n][i] == target[..n][i] == target[i];
  }

  lemma LcpTo(x: seq<Byte>, target: seq<Byte>, k: nat)
    requires DiffersAt(x, target, k)
    ensures Lcp(x, target) == k
  {
    LcpUnique(x, target, k);
  }

  /** Of two strings before the target, the later one matches at least as far. */
  lemma LcpBefore(x: seq<Byte>, y: seq<Byte>, target: seq<Byte>)
    requires LexLess(x, y) && LexLess(y, target)
    ensures Lcp(x, target) <= Lcp(y, target)
  {
    var k: nat :| DiffersAt(x, y, k);
    var l: nat :| DiffersAt(y, target, l);
    LcpTo(y, target, l);
    if k < l {
      DiffersSooner(x, y, target, k, l);
      LcpTo(x, target, k);
    } else if l < |x| && l < |target| {
      DiffersLater(x, y, target, k, l);
      LcpTo(x, target, l);
    }
  }

  lemma DiffersSooner(x: seq<Byte>, y: seq<Byte>, target: seq<Byte>, k: nat, n: nat)
    requires DiffersAt(x, y, k) && k < n <= |y| && n <= |target| && y[..n] == target[..n]
    ensures DiffersAt(x, target, k)
  {
    assert target[..k] == target[..n][..k] == y[..n][..k] == y[..k];
    assert target[k] == target[..n][k] == y[..n][k] == y[k];
  }

  lemma DiffersLater(x: seq<Byte>, y: seq<Byte>, target: seq<Byte>, k: nat, l: nat)
    requires DiffersAt(x, y, k) && DiffersAt(y, target, l) && l <= k && l < |x|
    ensures DiffersAt(x, target, l)
  {
    assert x[..l] == x[..k][..l] == y[..k][..l] == y[..l];
    if l < k {
      assert x[l] == x[..k][l] == y[..k][l] == y[l];
    }
  }

  /** Of two strings not before the target, the earlier one matches at least as far. */
  lemma LcpAfter(x: seq<Byte>, y: seq<Byte>, target: seq<Byte>)
    requires LexLess(x, y) && !LexLess(x, target)
    ensures Lcp(y, target) <= Lcp(x, target)
  {
    var k: nat :| DiffersAt(x, y, k);
    var m := Lcp(y, target);
    if k < m {
      DiffersSooner(x, y, target, k, m);
      assert false;
    } else {
      assert x[..m] == x[..k][..m] == y[..k][..m] == y[..m];
      LcpAtLeast(x, target, m);
    }
  }

  /**
   search: bisection in the suffix array between `st` and `en`.  What it returns is a true match; SearchIsLongest says
   when it is a longest one.
   */
  method Search(I: array<int>, text: seq<Byte>, target: seq<Byte>, st: nat, en: nat) returns (len: nat, pos: nat)
    requires IsSuffixArray(text, I[..]) && st <= en <= |text|
    ensures (len, pos) == Found(text, I[..], target, st, en)
    ensures pos <= |text| && IsMatchLen(text[pos..], target, len)
    decreases en - st
  {
    hide Less, Lcp, MemCmp, IsMatchLen;
    assert forall k :: 0 <= k <= |text| ==> I[k] == I[..][k];
    if en - st < 2 {
      var x := MatchLen(text[I[st]..], target);
      var y := MatchLen(text[I[en]..], target);
      if x > y {
        return x, I[st];
      } else {
        return y, I[en];
      }
    }
    var x := st + (en - st) / 2;
    if MemCmp(text[I[x]..], target) < 0 {
      len, pos := Search(I, text, target, x, en);
    } else {
      len, pos := Search(I, text, target, st, x);
    }
  }

  /** Listed suffixes are in dictionary order. */
  lemma SuffixesAscend(text: seq<Byte>, a: seq<int>, j: nat, k: nat)
    requires IsSuffixArray(text, a) && j < k <= |text|
    ensures LexLess(Suffix(text, a, j), Suffix(text, a, k))
  {
    LessIsLexicographic(text, a[j], a[k]);
  }

  /** What a step of the bisection leaves out does not match further than what it keeps. */
  lemma StepKeepsBest(text: seq<Byte>, a: seq<int>, target: seq<Byte>, x: nat, k: nat)
    requires IsSuffixArray(text, a) && x <= |text| && k <= |text|
    requires LexLess(Suffix(text, a, x), target) ==> k <= x
    requires !LexLess(Suffix(text, a, x), target) ==> x <= k
    ensures Lcp(Suffix(text, a, k), target) <= Lcp(Suffix(text, a, x), target)
  {
    hide IsSuffixArray, Suffix, LexLess;
    if k < x {
      SuffixesAscend(text, a, k, x);
      LcpBefore(Suffix(text, a, k), Suffix(text, a, x), target);
    } else if x < k {
      SuffixesAscend(text, a, x, k);
      LcpAfter(Suffix(text, a, x), Suffix(text, a, k), target);
    }
  }

  /** A bisection that does not go the wrong way ends at a longest match. */
  lemma {:induction false} FoundWhenNotBlind(text: seq<Byte>, a: seq<int>, target: seq<Byte>, st: nat, en: nat, k: nat)
    requires IsSuffixArray(text, a) && st <= k <= en <= |text| && Blind(text, a, target, st, en) == []
    ensures Lcp(Suffix(text, a, k), target) <= Found(text, a, target, st, en).0
    decreases en - st
  {
    hide IsSuffixArray, Suffix, LexLess, Lcp, MemCmp;
    if en - st < 2 {
    } else {
      var x := st + (en - st) / 2;
      MemCmpIsLess(Suffix(text, a, x), target);
      if MemCmp(Suffix(text, a, x), target) < 0 {
        if k < x { StepKeepsBest(text, a, target, x, k); }
        FoundWhenNotBlind(text, a, target, x, en, if k < x then x else k);
      } else {
        if k > x { StepKeepsBest(text, a, target, x, k); }
        FoundWhenNotBlind(text, a, target, st, x, if k > x then x else k);
      }
    }
  }

  lemma LcpOfPrefix(x: seq<Byte>, target: seq<Byte>)
    requires x <= target
    ensures Lcp(x, target) == |x|
  {
    LcpUnique(x, target, |x|);
  }

  /** Even so the match is not empty if some suffix matches at all, for the bisection never looks at the empty one. */
  lemma {:induction false} FoundNotEmpty(text: seq<Byte>, a: seq<int>, target: seq<Byte>, st: nat, en: nat, k: nat)
    requires IsSuffixArray(text, a) && st <= k <= en <= |text| && Lcp(Suffix(text, a, k), target) > 0
    ensures Found(text, a, target, st, en).0 > 0
    decreases en - st
  {
    hide IsSuffixArray, LexLess, Lcp, MemCmp, Suffix;
    if en - st < 2 {
    } else {
      var x := st + (en - st) / 2;
      MemCmpIsLess(Suffix(text, a, x), target);
      if Suffix(text, a, x) < target {
        LcpOfPrefix(Suffix(text, a, x), target);
        OnlyFirstIsEmpty(text, a, x);
        FoundNotEmpty(text, a, target, st, x, if k > x then x else k);
      } else if MemCmp(Suffix(text, a, x), target) < 0 {
        if k < x { StepKeepsBest(text, a, target, x, k); }
        FoundNotEmpty(text, a, target, x, en, if k < x then x else k);
      } else {
        if k > x { StepKeepsBest(text, a, target, x, k); }
        FoundNotEmpty(text, a, target, st, x, if k > x then x else k);
      }
    }
  }

  lemma OnlyFirstIsEmpty(text: seq<Byte>, a: seq<int>, k: nat)
    requires IsSuffixArray(text, a) && 0 < k <= |text|
    ensures Suffix(text, a, k) != []
  {
    assert Less(text, a[0], a[k]);
  }

  /** After a step the wrong way the match is that suffix, or shorter if there is another such step. */
  lemma {:induction false} AfterBlind(text: seq<Byte>, a: seq<int>, target: seq<Byte>, st: nat, en: nat)
    requires IsSuffixArray(text, a) && st < en <= |text| && Suffix(text, a, en) < target
    ensures Found(text, a, target, st, en).0 <= |Suffix(text, a, en)|
    ensures Found(text, a, target, st, en).0 == |Suffix(text, a, en)| <==> Blind(text, a, target, st, en) == []
    decreases en - st
  {
    hide IsSuffixArray, Suffix, LexLess, Lcp, MemCmp;
    LcpOfPrefix(Suffix(text, a, en), target);
    MemCmpIsLess(Suffix(text, a, en), target);
    if en - st < 2 {
      StepKeepsBest(text, a, target, en, st);
    } else {
      var x := st + (en - st) / 2;
      MemCmpIsLess(Suffix(text, a, x), target);
      LcpOfPrefixes(text, a, target, x, en);
      if MemCmp(Suffix(text, a, x), target) < 0 {
        AfterBlind(text, a, target, x, en);
      } else {
        AfterBlind(text, a, target, st, x);
      }
    }
  }

  /** Below a proper prefix of the target memcmp sees a difference, or finds a shorter prefix. */
  lemma LcpOfPrefixes(text: seq<Byte>, a: seq<int>, target: seq<Byte>, x: nat, en: nat)
    requires IsSuffixArray(text, a) && x < en <= |text| && Suffix(text, a, en) < target
    ensures MemCmp(Suffix(text, a, x), target) < 0 || Suffix(text, a, x) < target
    ensures Suffix(text, a, x) < target ==> |Suffix(text, a, x)| < |Suffix(text, a, en)|
  {
    SuffixesAscend(text, a, x, en);
    var u, v := Suffix(text, a, x), Suffix(text, a, en);
    LessThrough(u, v, target);
    MemCmpIsLess(u, target);
    if u < target {
      EarlierPrefix(u, v, target);
    }
  }

  lemma LessThrough(u: seq<Byte>, v: seq<Byte>, target: seq<Byte>)
    requires LexLess(u, v) && v < target
    ensures LexLess(u, target)
  {
    var k: nat :| DiffersAt(u, v, k);
    assert target[..k] == v[..k] && target[k] == v[k];
    assert DiffersAt(u, target, k);
  }

  lemma EarlierPrefix(u: seq<Byte>, v: seq<Byte>, target: seq<Byte>)
    requires LexLess(u, v) && u < target && v < target
    ensures |u| < |v|
  {
    var k: nat :| DiffersAt(u, v, k);
    assert v[k] == target[k] && (k < |u| ==> u[k] == target[k]);
  }

  /** The first step the wrong way bounds the match, and it is reached exactly if there is no second one. */
  lemma {:induction false} BlindBounds(text: seq<Byte>, a: seq<int>, target: seq<Byte>, st: nat, en: nat)
    requires IsSuffixArray(text, a) && st <= en <= |text| && Blind(text, a, target, st, en) != []
    ensures var b := Suffix(text, a, Blind(text, a, target, st, en)[0]);
            && Found(text, a, target, st, en).0 <= |b|
            && (Found(text, a, target, st, en).0 == |b| <==> |Blind(text, a, target, st, en)| == 1)
    decreases en - st
  {
    hide IsSuffixArray, Suffix, LexLess, Lcp, MemCmp;
    var x := st + (en - st) / 2;
    if MemCmp(Suffix(text, a, x), target) < 0 {
      BlindBounds(text, a, target, x, en);
    } else if Suffix(text, a, x) < target {
      AfterBlind(text, a, target, st, x);
    } else {
      BlindBounds(text, a, target, st, x);
    }
  }

  /** No suffix of the text matches the target further than by `n` bytes. */
  ghost predicate Longest(text: seq<Byte>, target: seq<Byte>, n: nat) {
    forall i :: 0 <= i <= |text| ==> Lcp(text[i..], target) <= n
  }

  /** `w` stands somewhere in the text. */
  ghost predicate Occurs(text: seq<Byte>, w: seq<Byte>) {
    exists i :: 0 <= i <= |text| && w <= text[i..]
  }

  /**
   Looked for in the whole array, the match is a longest one exactly if the bisection never goes the wrong way, or does
   so once, at a suffix that does not occur anywhere with the target's next byte behind it.
   */
  lemma SearchIsLongest(text: seq<Byte>, a: seq<int>, target: seq<Byte>)
    requires IsSuffixArray(text, a)
    ensures var places := Blind(text, a, target, 0, |text|);
            Longest(text, target, Found(text, a, target, 0, |text|).0) <==>
              || places == []
              || (|places| == 1 && !Occurs(text, target[..|Suffix(text, a, places[0])| + 1]))
  {
    hide Suffix, LexLess, Lcp, MemCmp;
    var places, n := Blind(text, a, target, 0, |text|), Found(text, a, target, 0, |text|).0;
    if places == [] {
      forall i | 0 <= i <= |text| ensures Lcp(text[i..], target) <= n {
        var k := PlaceOf(a, i);
        SuffixIs(text, a, k);
        FoundWhenNotBlind(text, a, target, 0, |text|, k);
      }
    } else {
      BlindBounds(text, a, target, 0, |text|);
      var b := Suffix(text, a, places[0]);
      LongestAt(text, a, target, places[0]);
      if n < |b| {
        LcpOfPrefix(b, target);
        SuffixIs(text, a, places[0]);
      }
    }
  }

  lemma SuffixIs(text: seq<Byte>, a: seq<int>, k: nat)
    requires IsSuffixArray(text, a) && k <= |text|
    ensures 0 <= a[k] <= |text| && Suffix(text, a, k) == text[a[k]..]
  {
  }

  /** A suffix that is a proper prefix of the target is a longest match unless it occurs with the next byte. */
  lemma LongestAt(text: seq<Byte>, a: seq<int>, target: seq<Byte>, k: nat)
    requires IsSuffixArray(text, a) && k <= |text| && Suffix(text, a, k) < target
    ensures Longest(text, target, |Suffix(text, a, k)|) <==> !Occurs(text, target[..|Suffix(text, a, k)| + 1])
  {
    var n := |Suffix(text, a, k)|;
    forall i | 0 <= i <= |text| ensures Lcp(text[i..], target) > n <==> target[..n + 1] <= text[i..] {
      LongerIsPrefix(text[i..], target, n + 1);
    }
  }

  lemma LongerIsPrefix(x: seq<Byte>, target: seq<Byte>, n: nat)
    requires n <= |target|
    ensures Lcp(x, target) >= n <==> target[..n] <= x
  {
    if target[..n] <= x {
      LcpAtLeast(x, target, n);
    } else if Lcp(x, target) >= n {
      assert x[..n] == x[..Lcp(x, target)][..n] == target[..Lcp(x, target)][..n] == target[..n];
    }
  }

  /** No non-empty suffix of the text is a proper prefix of the target. */
  ghost predicate NoBorder(text: seq<Byte>, target: seq<Byte>) {
    forall i :: 0 <= i < |text| ==> !(text[i..] < target)
  }

  lemma BlindIsBorder(text: seq<Byte>, a: seq<int>, target: seq<Byte>, k: nat)
    requires IsSuffixArray(text, a) && 0 < k <= |text| && Suffix(text, a, k) < target
    ensures !NoBorder(text, target)
  {
    OnlyFirstIsEmpty(text, a, k);
    assert text[a[k]..] < target;
  }

  /** So the match is always a longest one if no non-empty suffix of the text is a proper prefix of the target. */
  lemma LongestWithoutBorder(text: seq<Byte>, a: seq<int>, target: seq<Byte>)
    requires IsSuffixArray(text, a) && NoBorder(text, target)
    ensures Longest(text, target, Found(text, a, target, 0, |text|).0)
  {
    var places := Blind(text, a, target, 0, |text|);
    if places != [] {
      BlindIsBorder(text, a, target, places[0]);
      assert false;
    }
    SearchIsLongest(text, a, target);
  }

  /** Old and new data both `aa`: a match of one byte is found where two bytes match. */
  lemma NotLongest(c: Byte)
    ensures IsSuffixArray([c, c], [2, 1, 0]) && Lcp([c, c][0..], [c, c]) == 2
    ensures Found([c, c], [2, 1, 0], [c, c], 0, 2) == (1, 1)
  {
    var text, a := [c, c], [2, 1, 0];
    assert Suffix(text, a, 0) == [] && Suffix(text, a, 1) == [c] && text[0..] == text;
    assert text[1..] == [c] && [c][1..] == [] && Lcp([c], text) == 1 && MemCmp([c], text) == 0;
    assert Found(text, a, text, 0, 1) == (1, 1);
  }

  /** Looked for in the whole array, a byte that occurs is always matched. */
  lemma OccursIsFound(text: seq<Byte>, a: seq<int>, target: seq<Byte>)
    requires IsSuffixArray(text, a) && target != [] && target[0] in text
    ensures Found(text, a, target, 0, |text|).0 > 0
  {
    var i :| 0 <= i < |text| && text[i] == target[0];
    var k := PlaceOf(a, i);
    FoundNotEmpty(text, a, target, 0, |text|, k);
  }
}
