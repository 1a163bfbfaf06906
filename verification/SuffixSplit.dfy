/**
 qsufsort and split of applypatch/bsdiff.c: prefix doubling that keeps, in one array, both
 the unsorted suffixes and (as negative numbers) the lengths of the runs already sorted.

 The proofs follow two ghost sequences: `p`, the order the suffixes are in at the moment, and `w`,
 the rank `V[p[k]]` of the suffix at each position.  A group is a maximal stretch of equal ranks;
 the rank is the index where the stretch ends.
 */
module SuffixSplit {
  import opened Common
  import opened SuffixOrder

  /**
   Groups are contiguous, a smaller rank means a smaller suffix, and suffixes of equal rank share
   their first `h` bytes.
   */
  ghost predicate Ranked(s: seq<Byte>, p: seq<int>, w: seq<int>, h: nat) {
    && |p| == |w| == |s| + 1
    && Perm(p)
    && (forall k :: 0 <= k < |w| ==> k <= w[k] < |w|)
    && (forall k, j :: 0 <= k <= j < |w| && j <= w[k] ==> w[j] == w[k])
    && (forall i, j :: 0 <= i < |w| && 0 <= j < |w| && w[i] < w[j] ==> Less(s, p[i], p[j]))
    && (forall i, j :: 0 <= i < |w| && 0 <= j < |w| && i != j && w[i] == w[j] ==> Share(s, p[i], p[j], h))
  }

  /** The array V holds the ranks. */
  ghost predicate Holds(v: seq<int>, p: seq<int>, w: seq<int>) {
    && |v| == |p| == |w|
    && Perm(p)
    && forall k :: 0 <= k < |p| ==> v[p[k]] == w[k]
  }

  /** A group begins at `k` (or the array ends there). */
  predicate Starts(w: seq<int>, k: int) {
    0 <= k <= |w| && (k == 0 || w[k - 1] == k - 1)
  }

  /** The group at `k` has one member. */
  predicate Single(w: seq<int>, k: int) {
    0 <= k < |w| && w[k] == k && Starts(w, k)
  }

  /** Every suffix at `[lo, mid)` is smaller than every one at `[mid, hi)`. */
  ghost predicate LessAcross(s: seq<Byte>, p: seq<int>, lo: int, mid: int, hi: int)
    requires |p| == |s| + 1 && Perm(p) && 0 <= lo <= mid <= hi <= |p|
  {
    forall i, j :: lo <= i < mid <= j < hi ==> Less(s, p[i], p[j])
  }

  /** The suffixes at `[lo, hi)` agree on `g` bytes. */
  ghost predicate ShareWithin(s: seq<Byte>, p: seq<int>, lo: int, hi: int, g: nat)
    requires Perm(p) && 0 <= lo <= hi <= |p|
  {
    forall i, j :: lo <= i < hi && lo <= j < hi && i != j ==> Share(s, p[i], p[j], g)
  }

  /** `[lo, hi)` is the front of the group `[lo, e]`; it is smaller than the rest of that group. */
  ghost predicate Block(s: seq<Byte>, p: seq<int>, w: seq<int>, lo: int, hi: int, e: int, h: nat)
    requires |p| == |w| == |s| + 1 && Perm(p)
  {
    && 0 <= lo <= hi <= e + 1 <= |p|
    && Starts(w, lo)
    && (forall k :: lo <= k <= e ==> w[k] == e)
    && (forall k :: lo <= k < hi ==> p[k] + h <= |s|)
    && LessAcross(s, p, lo, hi, e + 1)
  }

  /** `[lo, hi)` is a union of groups that share `2*h` bytes; a single suffix is marked by -1 or left in place. */
  ghost predicate Done(s: seq<Byte>, p: seq<int>, w: seq<int>, a: seq<int>, lo: int, hi: int, h: nat)
    requires |p| == |w| == |a| == |s| + 1 && Perm(p) && 0 <= lo <= hi <= |p|
  {
    && (forall k :: lo <= k < hi ==> w[k] < hi)
    && (forall k :: lo <= k < hi ==> (a[k] == -1 && Single(w, k)) || (a[k] == p[k] && p[k] + 2 * h <= |s|))
    && (forall i, j :: lo <= i < hi && lo <= j < hi && i != j && w[i] == w[j] ==> Share(s, p[i], p[j], 2 * h))
  }

  /** Nothing outside `[lo, hi)` differs. */
  predicate SameOutside(a: seq<int>, b: seq<int>, lo: int, hi: int) {
    |a| == |b| && 0 <= lo <= hi <= |a| && a[..lo] == b[..lo] && a[hi..] == b[hi..]
  }

  lemma RankOf(p: seq<int>, w: seq<int>, v: seq<int>, x: int) returns (k: nat)
    requires Holds(v, p, w) && 0 <= x < |v|
    ensures k < |p| && p[k] == x && v[x] == w[k]
  {
    k := PlaceOf(p, x);
  }

  lemma InRange(s: seq<Byte>, p: seq<int>, w: seq<int>, v: seq<int>, h: nat, i: int, j: int)
    requires Ranked(s, p, w, h) && Holds(v, p, w) && 0 <= i < |p| && 0 <= j < |p|
    ensures |p| == |w| == |v| == |s| + 1 && 0 <= p[i] < |p| && 0 <= p[j] < |p|
    ensures i != j ==> p[i] != p[j]
  {
  }

  lemma RankOrders(s: seq<Byte>, p: seq<int>, w: seq<int>, h: nat, i: int, j: int)
    requires Ranked(s, p, w, h) && 0 <= i < |p| && 0 <= j < |p| && w[i] < w[j]
    ensures Less(s, p[i], p[j])
  {
  }

  lemma SameRankShares(s: seq<Byte>, p: seq<int>, w: seq<int>, h: nat, i: int, j: int)
    requires Ranked(s, p, w, h) && 0 <= i < |p| && 0 <= j < |p| && i != j && w[i] == w[j]
    ensures Share(s, p[i], p[j], h)
  {
  }

  /** Within a group, a smaller key `V[suffix + h]` means a smaller suffix. */
  lemma KeyOrders(s: seq<Byte>, p: seq<int>, w: seq<int>, v: seq<int>, h: nat, i: int, j: int)
    requires Ranked(s, p, w, h) && Holds(v, p, w) && 0 <= i < |p| && 0 <= j < |p| && w[i] == w[j]
    requires p[i] + h <= |s| && p[j] + h <= |s|
    requires v[p[i] + h] < v[p[j] + h]
    ensures Less(s, p[i], p[j])
  {
    hide Ranked, Holds, Perm, Share, Less;
    InRange(s, p, w, v, h, i, j);
    var ki := RankOf(p, w, v, p[i] + h);
    var kj := RankOf(p, w, v, p[j] + h);
    RankOrders(s, p, w, h, ki, kj);
    SameRankShares(s, p, w, h, i, j);
    LessAfterShared(s, p[i], p[j], h);
  }

  /** Within a group, equal keys mean that twice as many bytes are shared. */
  lemma KeyEquals(s: seq<Byte>, p: seq<int>, w: seq<int>, v: seq<int>, h: nat, i: int, j: int)
    requires Ranked(s, p, w, h) && Holds(v, p, w) && 0 <= i < |p| && 0 <= j < |p| && i != j && w[i] == w[j]
    requires p[i] + h <= |s| && p[j] + h <= |s|
    requires v[p[i] + h] == v[p[j] + h]
    ensures Share(s, p[i], p[j], 2 * h)
  {
    hide Ranked, Holds, Perm;
    InRange(s, p, w, v, h, i, j);
    var ki := RankOf(p, w, v, p[i] + h);
    var kj := RankOf(p, w, v, p[j] + h);
    SameRankShares(s, p, w, h, ki, kj);
    SameRankShares(s, p, w, h, i, j);
    ShareTwice(s, p[i], p[j], h);
  }

  /** The ranks once `[lo, m]` has become a group of its own. */
  function Carved(w: seq<int>, lo: int, m: int): (result: seq<int>) {
    seq(|w|, k requires 0 <= k < |w| => if lo <= k <= m then m else w[k])
  }

  lemma CarveOrders(s: seq<Byte>, p: seq<int>, w: seq<int>, lo: int, m: int, hi: int, e: int, h: nat, i: nat, j: nat)
    requires Ranked(s, p, w, h) && Block(s, p, w, lo, hi, e, h) && lo <= m < hi && LessAcross(s, p, lo, m + 1, hi)
    requires i < |p| && j < |p| && Carved(w, lo, m)[i] < Carved(w, lo, m)[j]
    ensures Less(s, p[i], p[j])
  {
    if w[i] < w[j] {
      RankOrders(s, p, w, h, i, j);
    } else {
      assert j >= lo;
    }
  }

  /** Ranking the front `[lo, m]` of a group below the rest of it refines the ranking. */
  lemma Carve(s: seq<Byte>, p: seq<int>, w: seq<int>, lo: int, m: int, hi: int, e: int, h: nat)
    requires Ranked(s, p, w, h) && Block(s, p, w, lo, hi, e, h) && lo <= m < hi
    requires LessAcross(s, p, lo, m + 1, hi)
    ensures Ranked(s, p, Carved(w, lo, m), h) && Block(s, p, Carved(w, lo, m), m + 1, hi, e, h)
    ensures Single(Carved(w, lo, m), lo) <==> lo == m
  {
    CarveRanks(s, p, w, lo, m, hi, e, h);
    CarveBlock(s, p, w, lo, m, hi, e, h);
  }

  lemma CarveRanks(s: seq<Byte>, p: seq<int>, w: seq<int>, lo: int, m: int, hi: int, e: int, h: nat)
    requires Ranked(s, p, w, h) && Block(s, p, w, lo, hi, e, h) && lo <= m < hi
    requires LessAcross(s, p, lo, m + 1, hi)
    ensures Ranked(s, p, Carved(w, lo, m), h)
  {
    var w' := Carved(w, lo, m);
    forall i, j | 0 <= i < |p| && 0 <= j < |p| && w'[i] < w'[j] ensures Less(s, p[i], p[j]) {
      CarveOrders(s, p, w, lo, m, hi, e, h, i, j);
    }
    forall i, j | 0 <= i < |p| && 0 <= j < |p| && i != j && w'[i] == w'[j] ensures Share(s, p[i], p[j], h) {
      CarveShares(s, p, w, lo, m, hi, e, h, i, j);
    }
    CarveGroups(s, p, w, lo, m, hi, e, h);
  }

  lemma CarveShares(s: seq<Byte>, p: seq<int>, w: seq<int>, lo: int, m: int, hi: int, e: int, h: nat, i: nat, j: nat)
    requires Ranked(s, p, w, h) && Block(s, p, w, lo, hi, e, h) && lo <= m < hi
    requires i < |p| && j < |p| && i != j && Carved(w, lo, m)[i] == Carved(w, lo, m)[j]
    ensures Share(s, p[i], p[j], h)
  {
    hide Share, Less, LessAcross;
    assert w[i] == w[j];
  }

  lemma CarveGroups(s: seq<Byte>, p: seq<int>, w: seq<int>, lo: int, m: int, hi: int, e: int, h: nat)
    requires Ranked(s, p, w, h) && Block(s, p, w, lo, hi, e, h) && lo <= m < hi
    ensures var w' := Carved(w, lo, m);
            && (forall k :: 0 <= k < |w'| ==> k <= w'[k] < |w'|)
            && (forall k, j :: 0 <= k <= j < |w'| && j <= w'[k] ==> w'[j] == w'[k])
  {
    hide Share, Less, LessAcross;
  }

  lemma CarveBlock(s: seq<Byte>, p: seq<int>, w: seq<int>, lo: int, m: int, hi: int, e: int, h: nat)
    requires Ranked(s, p, w, h) && Block(s, p, w, lo, hi, e, h) && lo <= m < hi
    requires LessAcross(s, p, lo, m + 1, hi)
    ensures Block(s, p, Carved(w, lo, m), m + 1, hi, e, h)
    ensures Single(Carved(w, lo, m), lo) <==> lo == m
  {
    hide Less, Share;
  }

  /** The loop that gives the suffixes at `[lo, m]` their rank. */
  method SetRanks(I: array<int>, V: array<int>, lo: nat, m: nat, ghost p: seq<int>, ghost w: seq<int>)
    requires I != V && Holds(V[..], p, w) && I.Length == V.Length && lo <= m < |p|
    requires forall k :: lo <= k <= m ==> I[k] == p[k]
    modifies V
    ensures Holds(V[..], p, Carved(w, lo, m))
  {
    var i := 0;
    while i < m + 1 - lo
      invariant 0 <= i <= m + 1 - lo
      invariant forall k :: 0 <= k < |p| ==> V[p[k]] == if lo <= k < lo + i then m else w[k]
    {
      V[I[lo + i]] := m;
      i := i + 1;
    }
  }

  lemma GroupDone(s: seq<Byte>, p: seq<int>, w: seq<int>, a: seq<int>, lo: int, m: int, h: nat)
    requires |p| == |w| == |a| == |s| + 1 && Perm(p) && 0 <= lo <= m < |p|
    requires Starts(w, lo) && forall k :: lo <= k <= m ==> w[k] == m
    requires if lo == m then a[lo] == -1 else forall k :: lo <= k <= m ==> a[k] == p[k]
    requires ShareWithin(s, p, lo, m + 1, 2 * h)
    ensures Done(s, p, w, a, lo, m + 1, h)
  {
    if lo < m {
      forall k | lo <= k <= m ensures p[k] + 2 * h <= |s| {
        assert Share(s, p[k], p[if k == lo then m else lo], 2 * h);
      }
    }
  }

  /** What the step that makes `[lo, m]` a group has achieved. */
  lemma GroupSet(s: seq<Byte>, p: seq<int>, w: seq<int>, a: seq<int>, lo: int, m: int, hi: int, e: int, h: nat)
    requires Ranked(s, p, w, h) && Block(s, p, w, lo, hi, e, h) && lo <= m < hi && |a| == |p|
    requires LessAcross(s, p, lo, m + 1, hi) && ShareWithin(s, p, lo, m + 1, 2 * h)
    requires if lo == m then a[lo] == -1 else forall k :: lo <= k <= m ==> a[k] == p[k]
    ensures Ranked(s, p, Carved(w, lo, m), h) && Block(s, p, Carved(w, lo, m), m + 1, hi, e, h)
    ensures Done(s, p, Carved(w, lo, m), a, lo, m + 1, h)
  {
    Carve(s, p, w, lo, m, hi, e, h);
    assert Starts(w, lo);
    hide Ranked, LessAcross, ShareWithin, Block, Done;
    GroupDone(s, p, Carved(w, lo, m), a, lo, m, h);
  }

  lemma GroupRange(s: seq<Byte>, p: seq<int>, w: seq<int>, lo: int, hi: int, e: int, h: nat)
    requires Ranked(s, p, w, h) && Block(s, p, w, lo, hi, e, h)
    ensures |p| == |w| == |s| + 1 && Perm(p) && 0 <= lo <= hi <= |p|
  {
  }

  lemma HoldsAll(v: seq<int>, p: seq<int>, w: seq<int>)
    requires Holds(v, p, w)
    ensures |v| == |p|
  {
  }

  /** The step that makes `I[lo..m]` a group: rank it, and mark it when it is a single suffix. */
  method SetGroup(I: array<int>, V: array<int>, lo: nat, m: nat, ghost s: seq<Byte>, ghost p: seq<int>,
                  ghost w: seq<int>, ghost hi: nat, ghost e: nat, ghost h: nat)
    requires I != V && Holds(V[..], p, w) && I.Length == V.Length
    requires Ranked(s, p, w, h) && Block(s, p, w, lo, hi, e, h) && lo <= m < hi
    requires I[lo..m + 1] == p[lo..m + 1]
    requires LessAcross(s, p, lo, m + 1, hi)
    requires ShareWithin(s, p, lo, m + 1, 2 * h)
    modifies I, V
    ensures Holds(V[..], p, Carved(w, lo, m))
    ensures Ranked(s, p, Carved(w, lo, m), h) && Block(s, p, Carved(w, lo, m), m + 1, hi, e, h)
    ensures Done(s, p, Carved(w, lo, m), I[..], lo, m + 1, h)
    ensures SameOutside(old(I[..]), I[..], lo, m + 1)
  {
    hide Ranked, LessAcross, ShareWithin, Block, Done, Carved, Holds, Perm;
    HoldsAll(V[..], p, w);
    GroupRange(s, p, w, lo, hi, e, h);
    assert forall k :: lo <= k <= m ==> I[k] == I[lo..m + 1][k - lo] == p[k];
    SetRanks(I, V, lo, m, p, w);
    if lo == m {
      I[lo] := -1;
    }
    GroupSet(s, p, w, I[..], lo, m, hi, e, h);
  }

  /** How a key compares with the pivot: -1 below, 0 equal, 1 above. */
  function Side(key: int, x: int): (r: int) {
    if key < x then -1 else if key == x then 0 else 1
  }

  function Count(keys: seq<int>, x: int, side: int): (n: nat) {
    if keys == [] then 0
    else Count(keys[..|keys| - 1], x, side) + if Side(keys[|keys| - 1], x) == side then 1 else 0
  }

  lemma {:induction false} CountUpdate(keys: seq<int>, x: int, side: int, i: nat, key: int)
    requires i < |keys|
    ensures Count(keys[i := key], x, side) ==
            Count(keys, x, side) - (if Side(keys[i], x) == side then 1 else 0) + (if Side(key, x) == side then 1 else 0)
  {
    var n := |keys| - 1;
    if i == n {
      assert keys[i := key][..n] == keys[..n];
    } else {
      CountUpdate(keys[..n], x, side, i, key);
      assert keys[i := key][..n] == keys[..n][i := key];
    }
  }

  lemma CountSwap(keys: seq<int>, x: int, side: int, i: nat, j: nat)
    requires i < |keys| && j < |keys|
    ensures Count(Swapped(keys, i, j), x, side) == Count(keys, x, side)
  {
    CountUpdate(keys, x, side, i, keys[j]);
    CountUpdate(keys[i := keys[j]], x, side, j, keys[i]);
  }

  lemma {:induction false} CountTotal(keys: seq<int>, x: int)
    ensures Count(keys, x, -1) + Count(keys, x, 0) + Count(keys, x, 1) == |keys|
  {
    if keys == [] {
    } else {
      CountTotal(keys[..|keys| - 1], x);
    }
  }

  /** A stretch of one side is no longer than the count of that side. */
  lemma {:induction false} CountStretch(keys: seq<int>, x: int, side: int, lo: nat, hi: nat)
    requires lo <= hi <= |keys| && forall k :: lo <= k < hi ==> Side(keys[k], x) == side
    ensures hi - lo <= Count(keys, x, side)
  {
    if keys == [] {
    } else {
      CountStretch(keys[..|keys| - 1], x, side,
                   if lo == |keys| then lo - 1 else lo, if hi == |keys| then hi - 1 else hi);
    }
  }

  /** One more of that side outside the stretch makes it strictly shorter. */
  lemma CountOutside(keys: seq<int>, x: int, side: int, lo: nat, hi: nat, i: nat)
    requires lo <= hi <= |keys| && forall k :: lo <= k < hi ==> Side(keys[k], x) == side
    requires i < |keys| && !(lo <= i < hi) && Side(keys[i], x) == side
    ensures hi - lo < Count(keys, x, side)
  {
    var other := if side == 0 then x + 1 else x;
    CountUpdate(keys, x, side, i, other);
    CountStretch(keys[i := other], x, side, lo, hi);
  }

  /** Every suffix in `a` has `h` bytes, so its key may be read. */
  predicate Readable(a: seq<int>, v: seq<int>, h: nat) {
    forall k :: 0 <= k < |a| ==> 0 <= a[k] && a[k] + h < |v|
  }

  function Keys(a: seq<int>, v: seq<int>, h: nat): (keys: seq<int>)
    requires Readable(a, v, h)
    ensures |keys| == |a| && forall k :: 0 <= k < |a| ==> keys[k] == v[a[k] + h]
  {
    seq(|a|, k requires 0 <= k < |a| => v[a[k] + h])
  }

  /** `b` holds what `a` holds, in some order. */
  ghost predicate Rearranged(a: seq<int>, b: seq<int>) {
    multiset(a) == multiset(b)
  }

  lemma RearrangedNot(a: seq<int>)
    ensures Rearranged(a, a)
  {
  }

  lemma RearrangedTwice(a: seq<int>, b: seq<int>, c: seq<int>)
    requires Rearranged(a, b) && Rearranged(b, c)
    ensures Rearranged(a, c)
  {
  }

  function Swapped(a: seq<int>, i: nat, j: nat): (b: seq<int>)
    requires i < |a| && j < |a|
    ensures |b| == |a| && Rearranged(a, b)
  {
    a[i := a[j]][j := a[i]]
  }

  /** `split` swaps two entries of the stretch `a` it is working on, which begins at `|pre|`. */
  method Swap(I: array<int>, i: nat, j: nat, ghost pre: seq<int>, ghost a: seq<int>, ghost post: seq<int>)
    requires I[..] == pre + a + post
    requires |pre| <= i < |pre| + |a| && |pre| <= j < |pre| + |a|
    modifies I
    ensures I[..] == pre + Swapped(a, i - |pre|, j - |pre|) + post
  {
    I[i], I[j] := I[j], I[i];
  }

  ghost predicate Stretch(keys: seq<int>, x: int, side: int, lo: int, hi: int) {
    0 <= lo <= hi <= |keys| && forall k :: lo <= k < hi ==> Side(keys[k], x) == side
  }

  /** The pivot's classes have the sizes that fix where they must end up. */
  ghost predicate Sized(keys: seq<int>, x: int, jj: int, kk: int) {
    Count(keys, x, -1) == jj && Count(keys, x, 0) == kk - jj && Count(keys, x, 1) == |keys| - kk
  }

  /**
   What the partition loops have placed so far: smaller keys in `[0, i)`, equal ones in `[jj, jj + j)`, greater ones
   in `[kk, kk + k)`.
   */
  ghost predicate Laid(keys: seq<int>, x: int, i: int, jj: int, j: int, kk: int, k: int) {
    && Sized(keys, x, jj, kk)
    && i <= jj && jj + j <= kk
    && Stretch(keys, x, -1, 0, i)
    && Stretch(keys, x, 0, jj, jj + j)
    && Stretch(keys, x, 1, kk, kk + k)
  }

  /** The same for the keys of the stretch `a` that begins at index `n`. */
  ghost predicate Placed(a: seq<int>, v: seq<int>, h: nat, x: int, n: nat,
                         i: int, jj: int, j: int, kk: int, k: int)
  {
    Readable(a, v, h) && Laid(Keys(a, v, h), x, i - n, jj - n, j, kk - n, k)
  }

  lemma SwapKeys(a: seq<int>, v: seq<int>, h: nat, i: nat, j: nat)
    requires Readable(a, v, h) && i < |a| && j < |a|
    ensures Readable(Swapped(a, i, j), v, h)
    ensures Keys(Swapped(a, i, j), v, h) == Swapped(Keys(a, v, h), i, j)
  {
    var keys := Keys(a, v, h);
    assert Keys(Swapped(a, i, j), v, h) == Swapped(keys, i, j);
  }

  lemma PlacedBounds(a: seq<int>, v: seq<int>, h: nat, x: int, n: nat, i: int, jj: int, j: int, kk: int, k: int)
    requires Placed(a, v, h, x, n, i, jj, j, kk, k)
    ensures n <= i <= jj <= jj + j <= kk <= kk + k <= n + |a|
    ensures Readable(a, v, h)
  {
  }

  /** An entry below the pivot is where it belongs. */
  lemma PlaceLess(a: seq<int>, v: seq<int>, h: nat, x: int, n: nat, i: nat, jj: nat, j: nat, kk: nat, k: nat)
    requires Placed(a, v, h, x, n, i, jj, j, kk, k) && n <= i < jj && v[a[i - n] + h] < x
    ensures Placed(a, v, h, x, n, i + 1, jj, j, kk, k)
  {
  }

  /** Swapping an entry with the first one past a stretch extends the stretch and disturbs none beside it. */
  lemma SwapExtends(keys: seq<int>, x: int, side: int, lo: nat, hi: nat, q: nat)
    requires Stretch(keys, x, side, lo, hi) && hi < |keys| && q < |keys| && !(lo <= q < hi)
    requires Side(keys[q], x) == side
    ensures Stretch(Swapped(keys, q, hi), x, side, lo, hi + 1)
  {
  }

  lemma SwapKeeps(keys: seq<int>, x: int, side: int, lo: nat, hi: nat, p: nat, q: nat)
    requires Stretch(keys, x, side, lo, hi) && p < |keys| && q < |keys| && !(lo <= q < hi) && !(lo <= p < hi)
    ensures 0 <= lo <= hi <= |keys| && Stretch(Swapped(keys, q, p), x, side, lo, hi)
  {
  }

  lemma SwapSized(keys: seq<int>, x: int, jj: int, kk: int, i: nat, j: nat)
    requires i < |keys| && j < |keys| && Sized(keys, x, jj, kk)
    ensures Sized(Swapped(keys, i, j), x, jj, kk)
  {
    CountSwap(keys, x, -1, i, j);
    CountSwap(keys, x, 0, i, j);
    CountSwap(keys, x, 1, i, j);
  }

  /** By counting: the block a misplaced key belongs to is not full yet. */
  lemma RoomFor(keys: seq<int>, x: int, side: int, lo: nat, hi: nat, q: nat)
    requires Stretch(keys, x, side, lo, hi) && q < |keys| && !(lo <= q < hi) && Side(keys[q], x) == side
    ensures hi - lo < Count(keys, x, side)
  {
    CountOutside(keys, x, side, lo, hi, q);
  }

  lemma LayEqual(keys: seq<int>, x: int, i: nat, jj: nat, j: nat, kk: nat, k: nat)
    requires Laid(keys, x, i, jj, j, kk, k) && i < jj <= |keys| && keys[i] == x
    ensures jj + j < kk <= |keys| && Laid(Swapped(keys, i, jj + j), x, i, jj, j + 1, kk, k)
  {
    hide Swapped, Stretch, Count;
    RoomFor(keys, x, 0, jj, jj + j, i);
    hide Sized;
    SwapKeeps(keys, x, -1, 0, i, jj + j, i);
    SwapKeeps(keys, x, 1, kk, kk + k, jj + j, i);
    SwapExtends(keys, x, 0, jj, jj + j, i);
    SwapSized(keys, x, jj, kk, i, jj + j);
  }

  lemma LayGreater(keys: seq<int>, x: int, i: nat, jj: nat, j: nat, kk: nat, k: nat, q: nat)
    requires Laid(keys, x, i, jj, j, kk, k) && i <= q < kk <= |keys| && !(jj <= q < jj + j) && keys[q] > x
    ensures kk + k < |keys| && Laid(Swapped(keys, q, kk + k), x, i, jj, j, kk, k + 1)
  {
    hide Swapped, Stretch, Count;
    RoomFor(keys, x, 1, kk, kk + k, q);
    assert kk + k < |keys|;
    hide Sized;
    SwapKeeps(keys, x, -1, 0, i, kk + k, q);
    SwapKeeps(keys, x, 0, jj, jj + j, kk + k, q);
    SwapExtends(keys, x, 1, kk, kk + k, q);
    SwapSized(keys, x, jj, kk, q, kk + k);
  }

  /** An entry equal to the pivot finds room in the middle block. */
  lemma PlaceEqual(a: seq<int>, v: seq<int>, h: nat, x: int, n: nat, i: nat, jj: nat, j: nat, kk: nat, k: nat)
    requires Placed(a, v, h, x, n, i, jj, j, kk, k) && n <= i < jj && v[a[i - n] + h] == x
    ensures jj + j < kk && Placed(Swapped(a, i - n, jj + j - n), v, h, x, n, i, jj, j + 1, kk, k)
  {
    hide Laid, Swapped;
    PlacedBounds(a, v, h, x, n, i, jj, j, kk, k);
    LayEqual(Keys(a, v, h), x, i - n, jj - n, j, kk - n, k);
    SwapKeys(a, v, h, i - n, jj + j - n);
  }

  /** An entry above the pivot finds room in the last block. */
  lemma PlaceGreater(a: seq<int>, v: seq<int>, h: nat, x: int, n: nat, i: nat, jj: nat, j: nat, kk: nat, k: nat,
                     q: nat)
    requires Placed(a, v, h, x, n, i, jj, j, kk, k) && i <= q < kk && !(jj <= q < jj + j) && v[a[q - n] + h] > x
    ensures kk + k < n + |a| && Placed(Swapped(a, q - n, kk + k - n), v, h, x, n, i, jj, j, kk, k + 1)
  {
    hide Laid, Swapped;
    PlacedBounds(a, v, h, x, n, i, jj, j, kk, k);
    LayGreater(Keys(a, v, h), x, i - n, jj - n, j, kk - n, k, q - n);
    SwapKeys(a, v, h, q - n, kk + k - n);
  }

  /** Once the first block is full, what is left of the middle block holds no smaller key. */
  lemma MiddleHasNoLess(a: seq<int>, v: seq<int>, h: nat, x: int, n: nat, jj: nat, j: nat, kk: nat, k: nat)
    requires Placed(a, v, h, x, n, jj, jj, j, kk, k) && jj + j < kk
    ensures v[a[jj + j - n] + h] >= x
    ensures v[a[jj + j - n] + h] == x ==> Placed(a, v, h, x, n, jj, jj, j + 1, kk, k)
  {
    if v[a[jj + j - n] + h] < x {
      CountOutside(Keys(a, v, h), x, -1, 0, jj - n, jj + j - n);
    }
  }

  lemma RestIsGreater(keys: seq<int>, x: int, jj: nat, kk: nat)
    requires jj <= kk <= |keys| && Sized(keys, x, jj, kk)
    requires Stretch(keys, x, -1, 0, jj) && Stretch(keys, x, 0, jj, kk)
    ensures Stretch(keys, x, 1, kk, |keys|)
  {
    forall q | kk <= q < |keys| ensures Side(keys[q], x) == 1 {
      if Side(keys[q], x) == -1 {
        CountOutside(keys, x, -1, 0, jj, q);
      } else if Side(keys[q], x) == 0 {
        CountOutside(keys, x, 0, jj, kk, q);
      }
    }
  }

  lemma KeyAt(a: seq<int>, v: seq<int>, h: nat, k: nat)
    requires Readable(a, v, h) && k < |a|
    ensures 0 <= a[k] && a[k] + h < |v| && Keys(a, v, h)[k] == v[a[k] + h]
  {
  }

  lemma CountNothing(keys: seq<int>, x: int)
    ensures Count(keys[..0], x, -1) == 0 && Count(keys[..0], x, 0) == 0
  {
  }

  lemma CountNext(keys: seq<int>, x: int, k: nat)
    requires k < |keys|
    ensures Count(keys[..k + 1], x, -1) == Count(keys[..k], x, -1) + if keys[k] < x then 1 else 0
    ensures Count(keys[..k + 1], x, 0) == Count(keys[..k], x, 0) + if keys[k] == x then 1 else 0
  {
    assert keys[..k + 1][..k] == keys[..k];
  }

  /** split's counting loop: how many keys are below the pivot, and how many are equal to it. */
  method CountSides(I: array<int>, V: array<int>, start: nat, len: nat, h: nat, x: int) returns (jj: nat, kk: nat)
    requires start + len <= I.Length && Readable(I[start..start + len], V[..], h)
    ensures jj == Count(Keys(I[start..start + len], V[..], h), x, -1)
    ensures kk == Count(Keys(I[start..start + len], V[..], h), x, 0)
  {
    hide Count, Keys, Readable;
    ghost var a := I[start..start + len];
    ghost var keys := Keys(a, V[..], h);
    jj, kk := 0, 0;
    CountNothing(keys, x);
    var i := start;
    while i < start + len
      invariant start <= i <= start + len
      invariant jj == Count(keys[..i - start], x, -1) && kk == Count(keys[..i - start], x, 0)
    {
      assert I[i] == a[i - start];
      KeyAt(a, V[..], h, i - start);
      CountNext(keys, x, i - start);
      if V[I[i] + h] < x { jj := jj + 1; }
      if V[I[i] + h] == x { kk := kk + 1; }
      i := i + 1;
    }
    assert keys[..len] == keys;
  }

  lemma InMiddle(all: seq<int>, pre: seq<int>, a: seq<int>, post: seq<int>, i: nat)
    requires all == pre + a + post && |pre| <= i < |pre| + |a|
    ensures i < |all| && all[i] == a[i - |pre|]
  {
  }

  /** split's first partition loop: everything below the pivot goes to the front. */
  method SweepLess(I: array<int>, V: array<int>, start: nat, h: nat, x: int, jj: nat, kk: nat,
                   ghost pre: seq<int>, ghost a0: seq<int>, ghost post: seq<int>)
      returns (j: nat, k: nat, ghost a: seq<int>)
    requires I != V && I[..] == pre + a0 + post && |pre| == start
    requires Placed(a0, V[..], h, x, start, start, jj, 0, kk, 0)
    modifies I
    ensures I[..] == pre + a + post && Rearranged(a0, a)
    ensures Placed(a, V[..], h, x, start, jj, jj, j, kk, k)
  {
    hide Placed, Swapped, Rearranged;
    a := a0;
    RearrangedNot(a);
    PlacedBounds(a, V[..], h, x, start, start, jj, 0, kk, 0);
    var i := start;
    j, k := 0, 0;
    while i < jj
      invariant I[..] == pre + a + post && Rearranged(a0, a)
      invariant start <= i <= jj && jj + j <= kk && kk + k <= start + |a|
      invariant Placed(a, V[..], h, x, start, i, jj, j, kk, k)
      decreases (jj - i) + (kk - jj - j) + (start + |a| - kk - k)
    {
      PlacedBounds(a, V[..], h, x, start, i, jj, j, kk, k);
      InMiddle(I[..], pre, a, post, i);
      if V[I[i] + h] < x {
        PlaceLess(a, V[..], h, x, start, i, jj, j, kk, k);
        i := i + 1;
      } else if V[I[i] + h] == x {
        PlaceEqual(a, V[..], h, x, start, i, jj, j, kk, k);
        Swap(I, i, jj + j, pre, a, post);
        RearrangedTwice(a0, a, Swapped(a, i - start, jj + j - start));
        a := Swapped(a, i - start, jj + j - start);
        j := j + 1;
      } else {
        PlaceGreater(a, V[..], h, x, start, i, jj, j, kk, k, i);
        Swap(I, i, kk + k, pre, a, post);
        RearrangedTwice(a0, a, Swapped(a, i - start, kk + k - start));
        a := Swapped(a, i - start, kk + k - start);
        k := k + 1;
      }
    }
  }

  /** split's second partition loop: the middle block keeps the keys equal to the pivot. */
  method SweepEqual(I: array<int>, V: array<int>, start: nat, h: nat, x: int, jj: nat, kk: nat, j0: nat, k0: nat,
                    ghost pre: seq<int>, ghost a0: seq<int>, ghost post: seq<int>)
      returns (ghost k: nat, ghost a: seq<int>)
    requires I != V && I[..] == pre + a0 + post && |pre| == start
    requires Placed(a0, V[..], h, x, start, jj, jj, j0, kk, k0)
    modifies I
    ensures I[..] == pre + a + post && Rearranged(a0, a)
    ensures Placed(a, V[..], h, x, start, jj, jj, kk - jj, kk, k)
  {
    hide Placed, Swapped, Rearranged;
    a := a0;
    RearrangedNot(a);
    PlacedBounds(a, V[..], h, x, start, jj, jj, j0, kk, k0);
    var j, c := j0, k0;
    while jj + j < kk
      invariant I[..] == pre + a + post && Rearranged(a0, a)
      invariant jj + j <= kk && kk + c <= start + |a|
      invariant Placed(a, V[..], h, x, start, jj, jj, j, kk, c)
      decreases (kk - jj - j) + (start + |a| - kk - c)
    {
      PlacedBounds(a, V[..], h, x, start, jj, jj, j, kk, c);
      InMiddle(I[..], pre, a, post, jj + j);
      MiddleHasNoLess(a, V[..], h, x, start, jj, j, kk, c);
      if V[I[jj + j] + h] == x {
        j := j + 1;
      } else {
        PlaceGreater(a, V[..], h, x, start, jj, jj, j, kk, c, jj + j);
        Swap(I, jj + j, kk + c, pre, a, post);
        RearrangedTwice(a0, a, Swapped(a, jj + j - start, kk + c - start));
        a := Swapped(a, jj + j - start, kk + c - start);
        c := c + 1;
      }
    }
    k := c;
  }

  /** A permutation stays one when a stretch of it is rearranged. */
  lemma RearrangePerm(p: seq<int>, q: seq<int>)
    requires Perm(p) && Rearranged(p, q)
    ensures Perm(q)
  {
    assert |p| == |multiset(p)| == |multiset(q)| == |q|;
    forall k | 0 <= k < |q| ensures 0 <= q[k] < |q| {
      assert q[k] in multiset(q);
      assert q[k] in multiset(p);
    }
    forall i, j | 0 <= i < j < |q| ensures q[i] != q[j] {
      if q[i] == q[j] {
        TwiceInMultiset(q, i, j);
        OnceInMultiset(p, q[i]);
      }
    }
  }

  lemma TwiceInMultiset(q: seq<int>, i: nat, j: nat)
    requires i < j < |q| && q[i] == q[j]
    ensures multiset(q)[q[i]] >= 2
  {
    assert q == q[..j] + q[j..];
    assert multiset(q) == multiset(q[..j]) + multiset(q[j..]);
    assert q[..j][i] == q[i] && q[j..][0] == q[i];
  }

  lemma {:induction false} OnceInMultiset(p: seq<int>, x: int)
    requires forall i, j :: 0 <= i < j < |p| ==> p[i] != p[j]
    ensures multiset(p)[x] <= 1
  {
    if p == [] {
    } else {
      var n := |p| - 1;
      OnceInMultiset(p[..n], x);
      assert p == p[..n] + [p[n]];
      if x == p[n] {
        assert x !in p[..n];
      }
    }
  }

  /** `q` is `p` with the stretch `[lo, hi)` replaced by `a`. */
  function Splice(p: seq<int>, lo: nat, a: seq<int>): (result: seq<int>)
    requires lo + |a| <= |p|
  {
    p[..lo] + a + p[lo + |a|..]
  }

  lemma SplicePerm(p: seq<int>, lo: nat, hi: nat, a: seq<int>)
    requires Perm(p) && lo <= hi <= |p| && Rearranged(p[lo..hi], a)
    ensures |a| == hi - lo && |Splice(p, lo, a)| == |p| && Perm(Splice(p, lo, a))
    ensures Splice(p, lo, a)[lo..hi] == a
  {
    assert |a| == |multiset(a)| == |multiset(p[lo..hi])| == hi - lo;
    assert p == p[..lo] + p[lo..hi] + p[hi..];
    RearrangePerm(p, Splice(p, lo, a));
  }

  /** Where the suffix now at `i` was before the stretch was rearranged. */
  lemma Origin(p: seq<int>, lo: nat, hi: nat, a: seq<int>, i: nat) returns (o: nat)
    requires Perm(p) && lo <= hi <= |p| && Rearranged(p[lo..hi], a) && |a| == hi - lo && i < |p|
    ensures o < |p| && Splice(p, lo, a)[i] == p[o] && (if lo <= i < hi then lo <= o < hi else o == i)
  {
    if lo <= i < hi {
      assert a[i - lo] in multiset(a);
      assert a[i - lo] in p[lo..hi];
      var k :| 0 <= k < hi - lo && p[lo..hi][k] == a[i - lo];
      o := lo + k;
    } else {
      o := i;
    }
  }

  lemma RearrangedRanked(s: seq<Byte>, p: seq<int>, w: seq<int>, h: nat, lo: nat, hi: nat, e: int, a: seq<int>)
    requires Ranked(s, p, w, h) && Block(s, p, w, lo, hi, e, h)
    requires Rearranged(p[lo..hi], a) && |a| == hi - lo && Perm(Splice(p, lo, a))
    ensures Ranked(s, Splice(p, lo, a), w, h)
  {
    var q := Splice(p, lo, a);
    hide Rearranged, Splice;
    assert |q| == |p|;
    forall i, j | 0 <= i < |q| && 0 <= j < |q| && w[i] < w[j] ensures Less(s, q[i], q[j]) {
      var i' := Origin(p, lo, hi, a, i);
      var j' := Origin(p, lo, hi, a, j);
    }
    forall i, j | 0 <= i < |q| && 0 <= j < |q| && i != j && w[i] == w[j] ensures Share(s, q[i], q[j], h) {
      var i' := Origin(p, lo, hi, a, i);
      var j' := Origin(p, lo, hi, a, j);
    }
  }

  lemma RearrangedBlock(s: seq<Byte>, p: seq<int>, w: seq<int>, h: nat, lo: nat, hi: nat, e: int, a: seq<int>)
    requires Ranked(s, p, w, h) && Block(s, p, w, lo, hi, e, h)
    requires Rearranged(p[lo..hi], a) && |a| == hi - lo && Perm(Splice(p, lo, a))
    ensures |Splice(p, lo, a)| == |p| && Block(s, Splice(p, lo, a), w, lo, hi, e, h)
  {
    var q := Splice(p, lo, a);
    assert |p| == |q| == |s| + 1;
    hide Ranked, Rearranged, Splice;
    forall k | lo <= k < hi ensures q[k] + h <= |s| {
      var k' := Origin(p, lo, hi, a, k);
    }
    forall i, j | lo <= i < hi <= j < e + 1 ensures Less(s, q[i], q[j]) {
      var i' := Origin(p, lo, hi, a, i);
      var j' := Origin(p, lo, hi, a, j);
    }
  }

  lemma RearrangedHolds(v: seq<int>, p: seq<int>, w: seq<int>, lo: nat, hi: nat, e: int, a: seq<int>)
    requires Holds(v, p, w) && lo <= hi <= |p| && forall k :: lo <= k < hi ==> w[k] == e
    requires Rearranged(p[lo..hi], a) && |a| == hi - lo && Perm(Splice(p, lo, a))
    ensures Holds(v, Splice(p, lo, a), w)
  {
    var q := Splice(p, lo, a);
    assert |q| == |p|;
    forall k | 0 <= k < |q| ensures v[q[k]] == w[k] {
      var k' := Origin(p, lo, hi, a, k);
    }
  }

  /** What split's selection loop has found in the first `i` entries: `j` of them have the least key, `x`. */
  ghost predicate Selected(a: seq<int>, v: seq<int>, h: nat, x: int, j: int, i: int) {
    && Readable(a, v, h)
    && j <= i
    && Stretch(Keys(a, v, h), x, 0, 0, j)
    && Stretch(Keys(a, v, h), x, 1, j, i)
  }

  lemma SelectFirst(a: seq<int>, v: seq<int>, h: nat)
    requires a != [] && Readable(a, v, h)
    ensures 0 <= a[0] && a[0] + h < |v| && Selected(a, v, h, v[a[0] + h], 1, 1)
  {
  }

  lemma SelectLess(a: seq<int>, v: seq<int>, h: nat, x: int, j: nat, i: nat)
    requires Selected(a, v, h, x, j, i) && i < |a| && v[a[i] + h] < x
    ensures Selected(a, v, h, v[a[i] + h], 0, i)
  {
  }

  lemma SelectEqual(a: seq<int>, v: seq<int>, h: nat, x: int, j: nat, i: nat)
    requires Selected(a, v, h, x, j, i) && i < |a| && v[a[i] + h] == x
    ensures Selected(Swapped(a, j, i), v, h, x, j + 1, i + 1)
  {
    SwapKeys(a, v, h, j, i);
  }

  lemma SelectGreater(a: seq<int>, v: seq<int>, h: nat, x: int, j: nat, i: nat)
    requires Selected(a, v, h, x, j, i) && i < |a| && v[a[i] + h] > x
    ensures Selected(a, v, h, x, j, i + 1)
  {
  }

  lemma SelectedRead(a: seq<int>, v: seq<int>, h: nat, x: int, j: int, i: nat)
    requires Selected(a, v, h, x, j, i) && i < |a|
    ensures 0 <= a[i] && a[i] + h < |v|
  {
  }

  /** split's inner loop for short stretches: bring the suffixes with the least key to the front. */
  method SelectLeast(I: array<int>, V: array<int>, k: nat, end: nat, h: nat,
                     ghost pre: seq<int>, ghost a0: seq<int>, ghost post: seq<int>)
      returns (j: nat, ghost x: int, ghost a: seq<int>)
    requires I != V && I[..] == pre + a0 + post && |pre| == k && end == k + |a0|
    requires a0 != [] && Readable(a0, V[..], h)
    modifies I
    ensures I[..] == pre + a + post && Rearranged(a0, a)
    ensures 0 < j <= |a| == |a0| && Selected(a, V[..], h, x, j, |a|)
  {
    hide Selected, Swapped, Rearranged, Readable;
    SelectFirst(a0, V[..], h);
    assert I[k] == I[..][k] == a0[0];
    var least := V[I[k] + h];
    j := 1;
    a := a0;
    RearrangedNot(a);
    var i := 1;
    while k + i < end
      invariant I[..] == pre + a + post && Rearranged(a0, a) && |a| == |a0|
      invariant 1 <= j <= i <= |a|
      invariant Selected(a, V[..], h, least, j, i)
    {
      SelectedRead(a, V[..], h, least, j, i);
      assert I[k + i] == I[..][k + i] == a[i];
      if V[I[k + i] + h] < least {
        SelectLess(a, V[..], h, least, j, i);
        least := V[I[k + i] + h];
        j := 0;
      }
      if V[I[k + i] + h] == least {
        SelectEqual(a, V[..], h, least, j, i);
        Swap(I, k + j, k + i, pre, a, post);
        RearrangedTwice(a0, a, Swapped(a, j, i));
        a := Swapped(a, j, i);
        j := j + 1;
      } else {
        SelectGreater(a, V[..], h, least, j, i);
      }
      i := i + 1;
    }
    x := least;
  }

  /** Inside a block, suffixes with keys up to `t` are smaller than suffixes with keys above `t`. */
  lemma KeysAscend(s: seq<Byte>, p: seq<int>, w: seq<int>, v: seq<int>, h: nat, lo: nat, i0: nat, mid: nat, hi: nat,
                   e: int, t: int)
    requires Ranked(s, p, w, h) && Holds(v, p, w) && Block(s, p, w, lo, hi, e, h) && lo <= i0 <= mid <= hi
    requires forall k :: i0 <= k < mid ==> v[p[k] + h] <= t
    requires forall k :: mid <= k < hi ==> v[p[k] + h] > t
    ensures LessAcross(s, p, i0, mid, hi)
  {
    forall i, j | i0 <= i < mid <= j < hi ensures Less(s, p[i], p[j]) {
      hide Ranked, Holds;
      KeyOrders(s, p, w, v, h, i, j);
    }
  }

  /** Inside a block, suffixes with the same key share `2*h` bytes. */
  lemma KeysAgree(s: seq<Byte>, p: seq<int>, w: seq<int>, v: seq<int>, h: nat, lo: nat, i0: nat, mid: nat, hi: nat,
                  e: int, x: int)
    requires Ranked(s, p, w, h) && Holds(v, p, w) && Block(s, p, w, lo, hi, e, h) && lo <= i0 <= mid <= hi
    requires forall k :: i0 <= k < mid ==> v[p[k] + h] == x
    ensures ShareWithin(s, p, i0, mid, 2 * h)
  {
    forall i, j | i0 <= i < mid && i0 <= j < mid && i != j ensures Share(s, p[i], p[j], 2 * h) {
      hide Ranked, Holds;
      KeyEquals(s, p, w, v, h, i, j);
    }
  }

  /** `q` and `u` are a ranking that the array V holds, and `[lo, hi)` is the front of the group that ends at `e`. */
  ghost predicate Front(s: seq<Byte>, p: seq<int>, w: seq<int>, v: seq<int>, lo: int, hi: int, e: int, h: nat) {
    Ranked(s, p, w, h) && Holds(v, p, w) && Block(s, p, w, lo, hi, e, h)
  }

  /** Rearranging the front of a group changes nothing but the order inside it. */
  lemma RearrangedFront(s: seq<Byte>, p: seq<int>, w: seq<int>, v: seq<int>, lo: nat, hi: nat, e: int, h: nat,
                        a: seq<int>)
    requires Front(s, p, w, v, lo, hi, e, h) && Rearranged(p[lo..hi], a)
    ensures |a| == hi - lo && Splice(p, lo, a)[lo..hi] == a
    ensures Front(s, Splice(p, lo, a), w, v, lo, hi, e, h)
    ensures SameOutside(p, Splice(p, lo, a), lo, hi)
  {
    SplicePerm(p, lo, hi, a);
    RearrangedRanked(s, p, w, h, lo, hi, e, a);
    RearrangedBlock(s, p, w, h, lo, hi, e, a);
    RearrangedHolds(v, p, w, lo, hi, e, a);
  }

  lemma StretchKeys(p: seq<int>, v: seq<int>, h: nat, lo: nat, hi: nat, x: int, side: int, i: nat, j: nat)
    requires lo <= hi <= |p| && Readable(p[lo..hi], v, h) && Stretch(Keys(p[lo..hi], v, h), x, side, i, j)
    ensures forall k :: lo + i <= k < lo + j ==> 0 <= p[k] && p[k] + h < |v| && Side(v[p[k] + h], x) == side
  {
    forall k | lo + i <= k < lo + j ensures 0 <= p[k] && p[k] + h < |v| && Side(v[p[k] + h], x) == side {
      assert p[lo..hi][k - lo] == p[k];
      assert Keys(p[lo..hi], v, h)[k - lo] == v[p[k] + h];
    }
  }

  lemma SelectedDecides(s: seq<Byte>, p: seq<int>, w: seq<int>, v: seq<int>, lo: nat, hi: nat, e: int, h: nat,
                        x: int, j: nat)
    requires Front(s, p, w, v, lo, hi, e, h) && j <= hi - lo && Selected(p[lo..hi], v, h, x, j, hi - lo)
    ensures LessAcross(s, p, lo, lo + j, hi) && ShareWithin(s, p, lo, lo + j, 2 * h)
  {
    assert |p| == |s| + 1 && Perm(p) && hi <= |p|;
    hide Ranked, Holds, Block, Stretch, Keys, Readable, Perm;
    StretchKeys(p, v, h, lo, hi, x, 0, 0, j);
    StretchKeys(p, v, h, lo, hi, x, 1, j, hi - lo);
    KeysAscend(s, p, w, v, h, lo, lo, lo + j, hi, e, x);
    KeysAgree(s, p, w, v, h, lo, lo, lo + j, hi, e, x);
  }

  lemma PlacedDecides(s: seq<Byte>, p: seq<int>, w: seq<int>, v: seq<int>, lo: nat, hi: nat, e: int, h: nat,
                      x: int, jj: nat, kk: nat)
    requires Front(s, p, w, v, lo, hi, e, h) && lo <= jj <= kk <= hi && Readable(p[lo..hi], v, h)
    requires Stretch(Keys(p[lo..hi], v, h), x, -1, 0, jj - lo)
    requires Stretch(Keys(p[lo..hi], v, h), x, 0, jj - lo, kk - lo)
    requires Stretch(Keys(p[lo..hi], v, h), x, 1, kk - lo, hi - lo)
    ensures LessAcross(s, p, lo, jj, hi) && LessAcross(s, p, jj, kk, hi) && ShareWithin(s, p, jj, kk, 2 * h)
  {
    assert |p| == |s| + 1 && Perm(p) && hi <= |p|;
    hide Ranked, Holds, Block, Stretch, Keys, Readable, Perm;
    StretchKeys(p, v, h, lo, hi, x, -1, 0, jj - lo);
    StretchKeys(p, v, h, lo, hi, x, 0, jj - lo, kk - lo);
    StretchKeys(p, v, h, lo, hi, x, 1, kk - lo, hi - lo);
    KeysAscend(s, p, w, v, h, lo, lo, jj, hi, e, x - 1);
    KeysAscend(s, p, w, v, h, lo, jj, kk, hi, e, x);
    KeysAgree(s, p, w, v, h, lo, jj, kk, hi, e, x);
  }

  /** `split` has dealt with `[lo, mid)` of the stretch `[lo, hi)`: from `p`, `w`, `a` to `q`, `u`, `b`. */
  ghost predicate Settled(s: seq<Byte>, p: seq<int>, w: seq<int>, a: seq<int>, q: seq<int>, u: seq<int>, b: seq<int>,
                          lo: int, mid: int, hi: int, h: nat)
  {
    && |p| == |w| == |a| == |s| + 1 && Perm(q)
    && SameOutside(p, q, lo, hi) && SameOutside(w, u, lo, mid) && SameOutside(a, b, lo, hi)
    && lo <= mid <= hi
    && Done(s, q, u, b, lo, mid, h)
  }

  /** Settling `[mid, to)` next, without touching anything outside `[mid, hi)`, settles `[lo, to)`. */
  lemma SettledMore(s: seq<Byte>, p: seq<int>, w: seq<int>, a: seq<int>, q: seq<int>, u: seq<int>, b: seq<int>,
                    q': seq<int>, u': seq<int>, b': seq<int>, lo: int, mid: int, to: int, hi: int, h: nat)
    requires Settled(s, p, w, a, q, u, b, lo, mid, hi, h)
    requires Settled(s, q, u, b, q', u', b', mid, to, hi, h)
    requires forall k :: mid <= k < to ==> u'[k] >= k
    ensures Settled(s, p, w, a, q', u', b', lo, to, hi, h)
  {
    SameOutsideTwice(p, q, q', lo, hi, mid, hi);
    SameOutsideTwice(w, u, u', lo, mid, mid, to);
    SameOutsideTwice(a, b, b', lo, hi, mid, hi);
    DoneKept(s, q, u, b, q', u', b', lo, mid, h);
    hide SameOutside;
  }

  lemma SameOutsideTwice(a: seq<int>, b: seq<int>, c: seq<int>, lo: int, hi: int, lo': int, hi': int)
    requires SameOutside(a, b, lo, hi) && SameOutside(b, c, lo', hi') && lo <= lo' && hi <= hi'
    ensures SameOutside(a, c, lo, hi')
  {
    assert a[..lo] == b[..lo] == b[..lo'][..lo] == c[..lo'][..lo] == c[..lo];
    assert a[hi'..] == a[hi..][hi' - hi..] == b[hi..][hi' - hi..] == b[hi'..] == c[hi'..];
  }

  lemma DoneKept(s: seq<Byte>, p: seq<int>, w: seq<int>, a: seq<int>, p': seq<int>, w': seq<int>, a': seq<int>,
                 lo: int, hi: int, h: nat)
    requires |p| == |w| == |a| == |p'| == |w'| == |a'| == |s| + 1 && Perm(p) && Perm(p') && 0 <= lo <= hi <= |p|
    requires p[..hi] == p'[..hi] && w[..hi] == w'[..hi] && a[..hi] == a'[..hi]
    requires Done(s, p, w, a, lo, hi, h)
    ensures Done(s, p', w', a', lo, hi, h)
  {
    assert forall k :: 0 <= k < hi ==> p'[k] == p[..hi][k] == p[k];
    assert forall k :: 0 <= k < hi ==> w'[k] == w[..hi][k] == w[k];
    assert forall k :: 0 <= k < hi ==> a'[k] == a[..hi][k] == a[k];
  }

  lemma CarvedOutside(w: seq<int>, lo: nat, m: nat)
    requires lo <= m < |w|
    ensures SameOutside(w, Carved(w, lo, m), lo, m + 1)
  {
  }

  /** As far as split has come in `[lo, hi)`: `[lo, mid)` is settled, `[mid, hi)` is still the front of a group. */
  ghost predicate Progress(s: seq<Byte>, p: seq<int>, w: seq<int>, a: seq<int>, q: seq<int>, u: seq<int>, b: seq<int>,
                         v: seq<int>, lo: int, mid: int, hi: int, e: int, h: nat)
  {
    && Front(s, q, u, v, mid, hi, e, h)
    && Settled(s, p, w, a, q, u, b, lo, mid, hi, h)
    && b[mid..hi] == q[mid..hi]
  }

  /** Giving the least keys their group settles them. */
  method SettleGroup(I: array<int>, V: array<int>, lo: nat, m: nat, ghost s: seq<Byte>, ghost p: seq<int>,
                     ghost w: seq<int>, ghost hi: nat, ghost e: nat, ghost h: nat)
      returns (ghost u: seq<int>)
    requires I != V && I.Length == V.Length && Front(s, p, w, V[..], lo, hi, e, h) && lo <= m < hi
    requires I.Length == |p| && hi <= |p| && I[lo..hi] == p[lo..hi]
    requires LessAcross(s, p, lo, m + 1, hi) && ShareWithin(s, p, lo, m + 1, 2 * h)
    modifies I, V
    ensures Progress(s, p, w, old(I[..]), p, u, I[..], V[..], lo, m + 1, hi, e, h)
  {
    assert |w| == |p| && Perm(p);
    hide Ranked, LessAcross, ShareWithin, Block, Holds, Done, Carved, SameOutside;
    ghost var a := I[..];
    SameParts(a, p, lo, m + 1, hi);
    SetGroup(I, V, lo, m, s, p, w, hi, e, h);
    u := Carved(w, lo, m);
    CarvedOutside(w, lo, m);
    OutsideItself(p, lo, hi);
    TailSame(a, I[..], lo, m + 1, hi);
  }

  lemma FrontFacts(s: seq<Byte>, p: seq<int>, w: seq<int>, v: seq<int>, lo: int, hi: int, e: int, h: nat)
    requires Front(s, p, w, v, lo, hi, e, h)
    ensures |p| == |w| == |v| == |s| + 1 && 0 <= lo <= hi <= |p| && Perm(p)
    ensures Readable(p[lo..hi], v, h)
    ensures forall k :: 0 <= k < |w| ==> k <= w[k] < |w|
  {
  }

  /** An array of which only the stretch `a` was rewritten. */
  lemma OnlyMiddle(a: seq<int>, b: seq<int>, lo: nat, hi: nat, m: seq<int>)
    requires lo <= hi <= |a| && b == a[..lo] + m + a[hi..] && |m| == hi - lo
    ensures SameOutside(a, b, lo, hi) && b[lo..hi] == m
  {
  }

  lemma NothingSettled(s: seq<Byte>, p: seq<int>, w: seq<int>, a: seq<int>, q: seq<int>, b: seq<int>,
                       lo: int, hi: int, h: nat)
    requires |p| == |w| == |a| == |s| + 1 && Perm(q) && SameOutside(p, q, lo, hi) && SameOutside(a, b, lo, hi)
    ensures Settled(s, p, w, a, q, w, b, lo, lo, hi, h)
  {
  }

  lemma OutsideItself(a: seq<int>, lo: nat, hi: nat)
    requires lo <= hi <= |a|
    ensures SameOutside(a, a, lo, hi)
  {
  }

  /** One round of split's loop for short stretches. */
  method SelectGroup(I: array<int>, V: array<int>, k: nat, end: nat, h: nat,
                     ghost s: seq<Byte>, ghost p: seq<int>, ghost w: seq<int>, ghost e: nat)
      returns (j: nat, ghost q: seq<int>, ghost u: seq<int>)
    requires I != V && I.Length == V.Length == |s| + 1 && Front(s, p, w, V[..], k, end, e, h) && k < end <= |p| == |w|
    requires end <= I.Length && I[k..end] == p[k..end]
    modifies I, V
    ensures 0 < j <= end - k
    ensures Progress(s, p, w, old(I[..]), q, u, I[..], V[..], k, k + j, end, e, h)
  {
    hide Front, Ranked, Selected, Rearranged, SameOutside, Settled, Splice;
    FrontFacts(s, p, w, V[..], k, end, e, h);
    ghost var a0 := I[..];
    ghost var pre, post := I[..k], I[end..];
    assert I[..] == pre + p[k..end] + post;
    ghost var x, a;
    j, x, a := SelectLeast(I, V, k, end, h, pre, p[k..end], post);
    RearrangedFront(s, p, w, V[..], k, end, e, h, a);
    q := Splice(p, k, a);
    FrontFacts(s, q, w, V[..], k, end, e, h);
    OnlyMiddle(a0, I[..], k, end, a);
    SelectedDecides(s, q, w, V[..], k, end, e, h, x, j);
    NothingSettled(s, p, w, a0, q, I[..], k, end, h);
    ghost var a1 := I[..];
    u := SettleGroup(I, V, k, k + j - 1, s, q, w, end, e, h);
    FrontFacts(s, q, u, V[..], k + j, end, e, h);
    SettledMore(s, p, w, a0, q, w, a1, q, u, I[..], k, k, k + j, end, h);
  }

  /** split for fewer than 16 suffixes: repeatedly settle those with the least key. */
  method SplitShort(I: array<int>, V: array<int>, start: nat, end: nat, h: nat,
                    ghost s: seq<Byte>, ghost p: seq<int>, ghost w: seq<int>, ghost e: nat)
      returns (ghost q: seq<int>, ghost u: seq<int>)
    requires I != V && I.Length == V.Length == |s| + 1 && Front(s, p, w, V[..], start, end, e, h) && start <= end
    requires end <= I.Length && end <= |p| == |w| && I[start..end] == p[start..end]
    modifies I, V
    ensures Progress(s, p, w, old(I[..]), q, u, I[..], V[..], start, end, end, e, h)
  {
    hide Front, Ranked, SameOutside, Settled;
    FrontFacts(s, p, w, V[..], start, end, e, h);
    q, u := p, w;
    OutsideItself(p, start, end);
    OutsideItself(I[..], start, end);
    NothingSettled(s, p, w, I[..], q, I[..], start, end, h);
    var k := start;
    while k < end
      invariant start <= k <= end
      invariant Progress(s, p, w, old(I[..]), q, u, I[..], V[..], start, k, end, e, h)
    {
      FrontFacts(s, q, u, V[..], k, end, e, h);
      ghost var b := I[..];
      ghost var q', u';
      var j;
      j, q', u' := SelectGroup(I, V, k, end, h, s, q, u, e);
      FrontFacts(s, q', u', V[..], k + j, end, e, h);
      SettledMore(s, p, w, old(I[..]), q, u, b, q', u', I[..], start, k, k + j, end, h);
      q, u := q', u';
      k := k + j;
    }
  }

  /** After the sweeps the whole stretch is laid out by sides. */
  lemma PlacedAll(a: seq<int>, v: seq<int>, h: nat, x: int, n: nat, jj: nat, kk: nat, k: nat)
    requires Placed(a, v, h, x, n, jj, jj, kk - jj, kk, k)
    ensures Readable(a, v, h) && n <= jj <= kk <= n + |a|
    ensures Stretch(Keys(a, v, h), x, -1, 0, jj - n)
    ensures Stretch(Keys(a, v, h), x, 0, jj - n, kk - n)
    ensures Stretch(Keys(a, v, h), x, 1, kk - n, |a|)
  {
    RestIsGreater(Keys(a, v, h), x, jj - n, kk - n);
  }

  lemma PlacedNone(a: seq<int>, v: seq<int>, h: nat, x: int, n: nat, jj: nat, kk: nat, i: nat)
    requires Readable(a, v, h) && i < |a| && x == v[a[i] + h]
    requires jj == n + Count(Keys(a, v, h), x, -1) && kk == jj + Count(Keys(a, v, h), x, 0)
    ensures Placed(a, v, h, x, n, n, jj, 0, kk, 0) && jj < kk
  {
    CountTotal(Keys(a, v, h), x);
    RoomFor(Keys(a, v, h), x, 0, 0, 0, i);
  }

  lemma ReadableAt(a: seq<int>, v: seq<int>, h: nat, i: nat)
    requires Readable(a, v, h) && i < |a|
    ensures 0 <= a[i] && a[i] + h < |v|
  {
  }

  /** The key of the middle entry, and where the sides around it begin. */
  method Pivot(I: array<int>, V: array<int>, start: nat, len: nat, h: nat, ghost mid: seq<int>)
      returns (x: int, jj: nat, kk: nat)
    requires 0 < len && start + len <= I.Length && I[start..start + len] == mid && Readable(mid, V[..], h)
    ensures Placed(mid, V[..], h, x, start, start, jj, 0, kk, 0) && start <= jj < kk
  {
    hide Placed, Count;
    assert I[start + len / 2] == mid[len / 2];
    ReadableAt(mid, V[..], h, len / 2);
    x := V[I[start + len / 2] + h];
    jj, kk := CountSides(I, V, start, len, h, x);
    jj := jj + start;
    kk := kk + jj;
    PlacedNone(mid, V[..], h, x, start, jj, kk, len / 2);
  }

  /** split's partition of 16 suffixes or more around the key of the middle one. */
  method Partition(I: array<int>, V: array<int>, start: nat, len: nat, h: nat,
                   ghost s: seq<Byte>, ghost p: seq<int>, ghost w: seq<int>, ghost e: nat)
      returns (jj: nat, kk: nat, ghost q: seq<int>)
    requires I != V && I.Length == V.Length == |s| + 1 && 0 < len && start + len <= I.Length == |p| == |w|
    requires Front(s, p, w, V[..], start, start + len, e, h) && I[start..start + len] == p[start..start + len]
    modifies I
    ensures start <= jj < kk <= start + len && |q| == |p| && Perm(q)
    ensures Front(s, q, w, V[..], start, start + len, e, h) && I[start..start + len] == q[start..start + len]
    ensures SameOutside(p, q, start, start + len) && SameOutside(old(I[..]), I[..], start, start + len)
    ensures LessAcross(s, q, start, jj, start + len) && LessAcross(s, q, jj, kk, start + len)
    ensures ShareWithin(s, q, jj, kk, 2 * h)
  {
    hide Front, Ranked, Placed, Rearranged, SameOutside, Splice, Stretch, LessAcross, ShareWithin, Readable, Count;
    ghost var end := start + len;
    FrontFacts(s, p, w, V[..], start, end, e, h);
    ghost var a0 := I[..];
    ghost var pre, mid, post := I[..start], p[start..end], I[end..];
    assert I[..] == pre + mid + post;
    var x;
    x, jj, kk := Pivot(I, V, start, len, h, mid);
    var j, k;
    ghost var a1, a2, k2;
    j, k, a1 := SweepLess(I, V, start, h, x, jj, kk, pre, mid, post);
    k2, a2 := SweepEqual(I, V, start, h, x, jj, kk, j, k, pre, a1, post);
    RearrangedTwice(mid, a1, a2);
    assert a0 == pre + mid + post;
    q := Splice(p, start, a2);
    Partitioned(s, p, w, V[..], start, end, e, h, x, jj, kk, k2, a2);
    OnlyMiddle(a0, I[..], start, end, a2);
  }

  /** What the two sweeps have made of the group. */
  lemma Partitioned(s: seq<Byte>, p: seq<int>, w: seq<int>, v: seq<int>, start: nat, end: nat, e: nat, h: nat, x: int,
                    jj: nat, kk: nat, k: nat, a: seq<int>)
    requires Front(s, p, w, v, start, end, e, h) && Rearranged(p[start..end], a)
    requires Placed(a, v, h, x, start, jj, jj, kk - jj, kk, k)
    ensures |a| == end - start && start <= jj <= kk <= end
    ensures var q := Splice(p, start, a);
            && |q| == |p| && Perm(q) && q[start..end] == a && SameOutside(p, q, start, end)
            && Front(s, q, w, v, start, end, e, h)
            && LessAcross(s, q, start, jj, end) && LessAcross(s, q, jj, kk, end) && ShareWithin(s, q, jj, kk, 2 * h)
  {
    hide Front, Ranked, Placed, Rearranged, SameOutside, Splice, Stretch, LessAcross, ShareWithin, Readable;
    FrontFacts(s, p, w, v, start, end, e, h);
    PlacedAll(a, v, h, x, start, jj, kk, k);
    RearrangedFront(s, p, w, v, start, end, e, h, a);
    var q := Splice(p, start, a);
    FrontFacts(s, q, w, v, start, end, e, h);
    PlacedDecides(s, q, w, v, start, end, e, h, x, jj, kk);
  }

  /** The smaller front of a group is a front too. */
  lemma FrontShrink(s: seq<Byte>, p: seq<int>, w: seq<int>, v: seq<int>, lo: int, mid: int, hi: int, e: int, h: nat)
    requires Front(s, p, w, v, lo, hi, e, h) && lo <= mid <= hi && LessAcross(s, p, lo, mid, hi)
    ensures Front(s, p, w, v, lo, mid, e, h)
  {
  }

  lemma SameParts(a: seq<int>, b: seq<int>, lo: nat, mid: nat, hi: nat)
    requires lo <= mid <= hi <= |a| && hi <= |b| && a[lo..hi] == b[lo..hi]
    ensures a[lo..mid] == b[lo..mid] && a[mid..hi] == b[mid..hi]
  {
    SliceParts(a, lo, mid, hi);
    SliceParts(b, lo, mid, hi);
  }

  lemma SliceParts(a: seq<int>, lo: nat, mid: nat, hi: nat)
    requires lo <= mid <= hi <= |a|
    ensures a[lo..hi][..mid - lo] == a[lo..mid] && a[lo..hi][mid - lo..] == a[mid..hi]
  {
  }

  lemma TailSame(a: seq<int>, b: seq<int>, lo: int, mid: int, hi: int)
    requires SameOutside(a, b, lo, mid) && mid <= hi <= |a|
    ensures SameOutside(a, b, lo, hi) && a[mid..hi] == b[mid..hi]
    ensures forall k :: mid <= k < |a| ==> a[k] == b[k]
  {
    assert a[hi..] == a[mid..][hi - mid..] && b[hi..] == b[mid..][hi - mid..];
    assert a[mid..hi] == a[mid..][..hi - mid] && b[mid..hi] == b[mid..][..hi - mid];
    assert forall k :: mid <= k < |a| ==> a[k] == a[mid..][k - mid] == b[mid..][k - mid] == b[k];
  }

  /** What is left of a group after part of its front was settled. */
  lemma FrontRest(s: seq<Byte>, p: seq<int>, w: seq<int>, v: seq<int>, q: seq<int>, u: seq<int>, v': seq<int>,
                  mid: int, lo: int, hi: int, e: int, h: nat)
    requires Front(s, p, w, v, lo, hi, e, h) && lo <= mid <= hi && Front(s, q, u, v', mid, mid, e, h)
    requires forall k :: mid <= k < |p| ==> q[k] == p[k]
    ensures Front(s, q, u, v', mid, hi, e, h)
  {
    FrontFacts(s, p, w, v, lo, hi, e, h);
    FrontFacts(s, q, u, v', mid, mid, e, h);
    hide Ranked, Holds;
    assert e + 1 <= |q|;
    assert LessAcross(s, q, mid, hi, e + 1);
  }

  lemma DecisionsKept(s: seq<Byte>, p: seq<int>, q: seq<int>, lo: int, mid: int, hi: int, g: nat)
    requires |p| == |q| == |s| + 1 && Perm(p) && Perm(q) && 0 <= lo <= mid <= hi <= |p|
    requires LessAcross(s, p, lo, mid, hi) && ShareWithin(s, p, lo, mid, g)
    requires forall k :: lo <= k < |p| ==> q[k] == p[k]
    ensures LessAcross(s, q, lo, mid, hi) && ShareWithin(s, q, lo, mid, g)
  {
  }

  /** Once `[lo, mid)` is settled, the rest of the stretch is the front of what is left of the group. */
  lemma ProgressRest(s: seq<Byte>, p: seq<int>, w: seq<int>, v: seq<int>, a: seq<int>,
                     q: seq<int>, u: seq<int>, v': seq<int>, b: seq<int>,
                     lo: int, mid: int, kk: int, hi: int, e: int, h: nat)
    requires Front(s, p, w, v, lo, hi, e, h) && lo <= mid <= kk <= hi <= |p| == |a| && a[lo..hi] == p[lo..hi]
    requires |p| == |s| + 1 && Perm(p) && 0 <= lo
    requires LessAcross(s, p, mid, kk, hi) && ShareWithin(s, p, mid, kk, 2 * h)
    requires Progress(s, p, w, a, q, u, b, v', lo, mid, mid, e, h)
    ensures Progress(s, p, w, a, q, u, b, v', lo, mid, hi, e, h)
    ensures |q| == |p| && Perm(q) && LessAcross(s, q, mid, kk, hi) && ShareWithin(s, q, mid, kk, 2 * h)
  {
    hide Front, LessAcross, ShareWithin, Done, SameOutside, Perm;
    FrontFacts(s, p, w, v, lo, hi, e, h);
    TailSame(p, q, lo, mid, hi);
    TailSame(a, b, lo, mid, hi);
    assert |w| == |p|;
    FrontRest(s, p, w, v, q, u, v', mid, lo, hi, e, h);
    FrontFacts(s, q, u, v', mid, hi, e, h);
    DecisionsKept(s, p, q, mid, kk, hi, 2 * h);
    SameParts(a, p, lo, mid, hi);
  }

  /**
   split: order the suffixes at `[start, start + len)`, which share `h` bytes, by the rank of what follows those
   bytes, and give each new group its rank.
   */
  method Split(I: array<int>, V: array<int>, start: nat, len: nat, h: nat,
               ghost s: seq<Byte>, ghost p: seq<int>, ghost w: seq<int>, ghost e: nat)
      returns (ghost q: seq<int>, ghost u: seq<int>)
    requires I != V && I.Length == V.Length == |s| + 1 && start + len <= I.Length == |p| == |w|
    requires Front(s, p, w, V[..], start, start + len, e, h) && I[start..start + len] == p[start..start + len]
    modifies I, V
    ensures Progress(s, p, w, old(I[..]), q, u, I[..], V[..], start, start + len, start + len, e, h)
    decreases len
  {
    hide Front, Ranked, LessAcross, ShareWithin, SameOutside, Done;
    ghost var end := start + len;
    ghost var a0 := I[..];
    if len < 16 {
      q, u := SplitShort(I, V, start, start + len, h, s, p, w, e);
    } else {
      var jj, kk;
      ghost var q0, q1, u1, u2;
      jj, kk, q0 := Partition(I, V, start, len, h, s, p, w, e);
      NothingSettled(s, p, w, a0, q0, I[..], start, end, h);
      FrontFacts(s, q0, w, V[..], start, end, e, h);
      ghost var a1, v1 := I[..], V[..];
      if jj > start {
        FrontShrink(s, q0, w, V[..], start, jj, end, e, h);
        SameParts(I[..], q0, start, jj, end);
        q1, u1 := Split(I, V, start, jj - start, h, s, q0, w, e);
        ProgressRest(s, q0, w, v1, a1, q1, u1, V[..], I[..], start, jj, kk, end, e, h);
      } else {
        q1, u1 := q0, w;
        OutsideItself(q0, start, end);
        OutsideItself(a1, start, end);
        NothingSettled(s, q0, w, a1, q1, I[..], start, end, h);
      }
      FrontFacts(s, q1, u1, V[..], jj, end, e, h);
      SettledMore(s, p, w, a0, q0, w, a1, q1, u1, I[..], start, start, jj, end, h);
      ghost var a2 := I[..];
      u2 := SettleGroup(I, V, jj, kk - 1, s, q1, u1, end, e, h);
      FrontFacts(s, q1, u2, V[..], kk, end, e, h);
      SettledMore(s, p, w, a0, q1, u1, a2, q1, u2, I[..], start, jj, kk, end, h);
      q, u := q1, u2;
      if start + len > kk {
        ghost var a3 := I[..];
        q, u := Split(I, V, kk, start + len - kk, h, s, q1, u2, e);
        FrontFacts(s, q, u, V[..], end, end, e, h);
        SettledMore(s, p, w, a0, q1, u2, a3, q, u, I[..], start, kk, end, end, h);
      }
    }
  }
}
