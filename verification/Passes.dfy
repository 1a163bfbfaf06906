/**
 The doubling passes of qsufsort (applypatch/bsdiff.c), on top of split.
 */
module Passes {
  import opened Common
  import opened SuffixOrder
  import opened SuffixSplit

  /**
   What the entry of I at `k` says: a negative entry counts single suffixes in a row, any other entry is the suffix
   itself, whose first `g` bytes exist.
   */
  ghost predicate Encodes(s: seq<Byte>, p: seq<int>, w: seq<int>, a: seq<int>, k: int, g: nat)
    requires |p| == |w| == |a| && 0 <= k < |a|
  {
    if a[k] < 0 then
      k - a[k] <= |a| && forall j :: k <= j < k - a[k] ==> Single(w, j) && a[j] < 0
    else
      a[k] == p[k] && p[k] + g <= |s|
  }

  /** A pass has dealt with the groups before `i`; the last `len` suffixes before `i` are single ones. */
  ghost predicate Passed(s: seq<Byte>, p: seq<int>, w: seq<int>, a: seq<int>, i: int, len: int, h: nat) {
    && |a| == |s| + 1 && Ranked(s, p, w, h)
    && 0 <= len <= i <= |a| && Starts(w, i)
    && (forall k :: 0 <= k < i ==> Encodes(s, p, w, a, k, 2 * h))
    && (forall k :: i <= k < |a| ==> Encodes(s, p, w, a, k, h))
    && (forall k, j :: 0 <= k < i && 0 <= j < i && k != j && w[k] == w[j] ==> Share(s, p[k], p[j], 2 * h))
    && (forall k :: i - len <= k < i ==> Single(w, k) && a[k] < 0)
  }

  predicate AllMarked(a: seq<int>) {
    forall k :: 0 <= k < |a| ==> a[k] < 0
  }

  lemma RunSingle(s: seq<Byte>, p: seq<int>, w: seq<int>, a: seq<int>, k: int, g: nat)
    requires |p| == |w| == |a| && 0 <= k < |a| && a[k] < 0 && Encodes(s, p, w, a, k, g)
    ensures k - a[k] <= |a| && Starts(w, k - a[k])
    ensures forall j :: k <= j < k - a[k] ==> a[j] < 0 && w[j] == j && Single(w, j)
  {
    forall j | k <= j < k - a[k] ensures a[j] < 0 && w[j] == j && Single(w, j) {
      assert a[j] == a[j];
    }
    assert w[k - a[k] - 1] == k - a[k] - 1;
  }

  /** Stepping over a run of single suffixes. */
  lemma PassRun(s: seq<Byte>, p: seq<int>, w: seq<int>, a: seq<int>, i: int, len: int, h: nat)
    requires Passed(s, p, w, a, i, len, h) && i < |a| && a[i] < 0
    ensures i - a[i] <= |a| && Passed(s, p, w, a, i - a[i], len - a[i], h)
  {
    RunSingle(s, p, w, a, i, h);
    assert forall k :: 0 <= k < i ==> w[k] < i;
    forall k | i <= k < i - a[i] ensures Encodes(s, p, w, a, k, 2 * h) {
      assert Encodes(s, p, w, a, k, h);
    }
  }

  /** Recording the length of the run that has just ended. */
  lemma MarkRun(s: seq<Byte>, p: seq<int>, w: seq<int>, a: seq<int>, i: int, len: int, h: nat)
    requires Passed(s, p, w, a, i, len, h) && 0 < len
    ensures Passed(s, p, w, a[i - len := -len], i, len, h) && Passed(s, p, w, a[i - len := -len], i, 0, h)
  {
    var b := a[i - len := -len];
    forall k | 0 <= k < i ensures Encodes(s, p, w, b, k, 2 * h) {
      assert Encodes(s, p, w, a, k, 2 * h);
    }
    forall k | i <= k < |a| ensures Encodes(s, p, w, b, k, h) {
      assert Encodes(s, p, w, a, k, h);
    }
  }

  /** The group at `i`, as split expects it. */
  lemma GroupAt(s: seq<Byte>, p: seq<int>, w: seq<int>, a: seq<int>, v: seq<int>, i: int, len: int, h: nat)
    requires Passed(s, p, w, a, i, len, h) && Holds(v, p, w) && i < |a| && a[i] >= 0
    ensures |p| == |w| == |v| == |a| && 0 <= a[i] < |a|
    ensures a[i] == p[i] && v[a[i]] == w[i] && i <= w[i] < |a|
    ensures forall k :: i <= k <= w[i] ==> a[k] >= 0
    ensures Front(s, p, w, v, i, w[i] + 1, w[i], h) && a[i..w[i] + 1] == p[i..w[i] + 1]
  {
    var e := w[i];
    assert Encodes(s, p, w, a, i, h);
    forall k | i <= k <= e ensures w[k] == e && p[k] + h <= |s| && a[k] == p[k] {
      assert Encodes(s, p, w, a, k, h);
      if i < e {
        assert Share(s, p[k], p[if k == i then e else i], h);
      }
    }
  }

  /** Splitting the group at `i` moves the pass beyond it. */
  lemma PassGroup(s: seq<Byte>, p: seq<int>, w: seq<int>, a: seq<int>, q: seq<int>, u: seq<int>, b: seq<int>,
                  v: seq<int>, i: int, len: int, h: nat)
    requires Passed(s, p, w, a, i, len, h) && i < |a| && a[i] >= 0
    requires Progress(s, p, w, a, q, u, b, v, i, w[i] + 1, w[i] + 1, w[i], h)
    requires forall k :: i <= k <= w[i] ==> a[k] >= 0
    ensures Passed(s, q, u, b, w[i] + 1, 0, h)
  {
    var n := w[i] + 1;
    FrontFacts(s, q, u, v, n, n, w[i], h);
    OutsideAt(p, q, i, n);
    OutsideAt(w, u, i, n);
    OutsideAt(a, b, i, n);
    assert Ranked(s, q, u, h) && Starts(u, n) && Done(s, q, u, b, i, n, h);
    hide Ranked, Front;
    GroupEncodes(s, p, w, a, q, u, b, i, n, h);
    GroupShares(s, p, w, a, q, u, b, i, len, n, h);
  }

  lemma GroupEncodes(s: seq<Byte>, p: seq<int>, w: seq<int>, a: seq<int>, q: seq<int>, u: seq<int>, b: seq<int>,
                     i: int, n: int, h: nat)
    requires |p| == |w| == |a| == |q| == |u| == |b| == |s| + 1 && Perm(q) && 0 <= i < n <= |a|
    requires forall k :: 0 <= k < |a| && !(i <= k < n) ==> u[k] == w[k] && b[k] == a[k] && q[k] == p[k]
    requires forall k :: i <= k < n ==> a[k] >= 0
    requires Starts(u, n) && Done(s, q, u, b, i, n, h)
    requires forall k :: 0 <= k < i ==> Encodes(s, p, w, a, k, 2 * h)
    requires forall k :: i <= k < |a| ==> Encodes(s, p, w, a, k, h)
    ensures forall k :: 0 <= k < n ==> Encodes(s, q, u, b, k, 2 * h)
    ensures forall k :: n <= k < |a| ==> Encodes(s, q, u, b, k, h)
  {
    forall k | 0 <= k < i ensures Encodes(s, q, u, b, k, 2 * h) {
      assert Encodes(s, p, w, a, k, 2 * h);
      if a[k] < 0 {
        RunKept(s, p, w, a, q, u, b, i, n, k, 2 * h);
      }
    }
    forall k | n <= k < |a| ensures Encodes(s, q, u, b, k, h) {
      assert Encodes(s, p, w, a, k, h);
      if a[k] < 0 {
        RunKept(s, p, w, a, q, u, b, i, n, k, h);
      }
    }
  }

  lemma GroupShares(s: seq<Byte>, p: seq<int>, w: seq<int>, a: seq<int>, q: seq<int>, u: seq<int>, b: seq<int>,
                    i: int, len: int, n: int, h: nat)
    requires Passed(s, p, w, a, i, len, h)
    requires |p| == |w| == |a| == |q| == |u| == |b| == |s| + 1 && Perm(q) && 0 <= i < n <= |a|
    requires forall k :: 0 <= k < |a| && !(i <= k < n) ==> u[k] == w[k] && q[k] == p[k]
    requires Done(s, q, u, b, i, n, h) && forall k :: 0 <= k < |u| ==> k <= u[k]
    ensures forall k, j :: 0 <= k < n && 0 <= j < n && k != j && u[k] == u[j] ==> Share(s, q[k], q[j], 2 * h)
  {
    assert forall k :: 0 <= k < i ==> u[k] < i;
  }

  lemma OutsideAt(a: seq<int>, b: seq<int>, lo: int, hi: int)
    requires SameOutside(a, b, lo, hi)
    ensures |a| == |b| && forall k :: 0 <= k < |a| && !(lo <= k < hi) ==> a[k] == b[k]
  {
    assert forall k :: 0 <= k < lo ==> a[k] == a[..lo][k] == b[..lo][k] == b[k];
    assert forall k :: hi <= k < |a| ==> a[k] == a[hi..][k - hi] == b[hi..][k - hi] == b[k];
  }

  lemma RunKept(s: seq<Byte>, p: seq<int>, w: seq<int>, a: seq<int>, q: seq<int>, u: seq<int>, b: seq<int>,
                lo: int, hi: int, k: int, g: nat)
    requires |p| == |w| == |a| == |q| == |u| == |b| && 0 <= lo < hi <= |a|
    requires forall j :: 0 <= j < |a| && !(lo <= j < hi) ==> u[j] == w[j] && b[j] == a[j]
    requires forall j :: lo <= j < hi ==> a[j] >= 0
    requires Starts(u, hi) && 0 <= k < |a| && !(lo <= k < hi) && Encodes(s, p, w, a, k, g) && a[k] < 0
    ensures forall g' :: Encodes(s, q, u, b, k, g')
  {
    forall j | k <= j < k - a[k] ensures Single(u, j) && b[j] < 0 {
      assert Single(w, j) && a[j] < 0;
    }
  }

  /** How far the passes still are from one single run. */
  ghost function Remaining(a: seq<int>, h: nat): (r: int) {
    if a != [] && a[0] == -|a| then 0 else if AllMarked(a) then 1 else |a| + 1 - h
  }

  /** The state between two passes. */
  ghost predicate Between(s: seq<Byte>, p: seq<int>, w: seq<int>, a: seq<int>, h: nat) {
    && |a| == |s| + 1 && Ranked(s, p, w, h)
    && forall k :: 0 <= k < |a| ==> Encodes(s, p, w, a, k, h)
  }

  lemma PassBegins(s: seq<Byte>, p: seq<int>, w: seq<int>, a: seq<int>, h: nat)
    requires Between(s, p, w, a, h)
    ensures Passed(s, p, w, a, 0, 0, h)
  {
  }

  /** A whole pass doubles what the groups share, and brings the array closer to one single run. */
  lemma PassEnds(s: seq<Byte>, p: seq<int>, w: seq<int>, a: seq<int>, a0: seq<int>, len: int, h: nat, p0: seq<int>,
                 w0: seq<int>)
    requires Passed(s, p, w, a, |a|, len, h) && (len > 0 ==> a[|a| - len] == -len)
    requires Between(s, p0, w0, a0, h) && h > 0 && a0[0] != -|a0|
    requires AllMarked(a0) ==> len == |a|
    ensures Between(s, p, w, a, 2 * h) && 0 <= Remaining(a, 2 * h) < Remaining(a0, h)
  {
    if !AllMarked(a0) {
      var k :| 0 <= k < |a0| && a0[k] >= 0;
      assert Encodes(s, p0, w0, a0, k, h);
      if !AllMarked(a) {
        var j :| 0 <= j < |a| && a[j] >= 0;
        assert Encodes(s, p, w, a, j, 2 * h);
      }
    }
  }

  /** One pass of qsufsort: split every group that is not yet single, and join the runs of single suffixes. */
  method Pass(I: array<int>, V: array<int>, h: nat, ghost s: seq<Byte>, ghost p0: seq<int>, ghost w0: seq<int>)
      returns (ghost p: seq<int>, ghost w: seq<int>)
    requires I != V && I.Length == V.Length == |s| + 1 && h > 0
    requires Between(s, p0, w0, I[..], h) && Holds(V[..], p0, w0) && I[0] != -(|s| + 1)
    modifies I, V
    ensures Between(s, p, w, I[..], 2 * h) && Holds(V[..], p, w)
    ensures 0 <= Remaining(I[..], 2 * h) < Remaining(old(I[..]), h)
  {
    hide Passed, Ranked, Holds, Settled, Block, Remaining;
    p, w := p0, w0;
    var len, i := 0, 0;
    PassBegins(s, p, w, I[..], h);
    while i < I.Length
      invariant 0 <= len <= i <= I.Length
      invariant Passed(s, p, w, I[..], i, len, h) && Holds(V[..], p, w)
      invariant AllMarked(old(I[..])) ==> len == i && I[..] == old(I[..])
    {
      ghost var a := I[..];
      assert a[i] == I[i];
      if I[i] < 0 {
        PassRun(s, p, w, a, i, len, h);
        len := len - I[i];
        i := i - I[i];
      } else {
        if len > 0 {
          MarkRun(s, p, w, a, i, len, h);
          I[i - len] := -len;
        }
        ghost var b, v := I[..], V[..];
        GroupAt(s, p, w, b, v, i, len, h);
        len := V[I[i]] + 1 - i;
        ghost var q, u;
        FrontFacts(s, p, w, v, i, w[i] + 1, w[i], h);
        q, u := Split(I, V, i, len, h, s, p, w, w[i]);
        PassGroup(s, p, w, b, q, u, I[..], V[..], i, 0, h);
        p, w := q, u;
        i := i + len;
        len := 0;
      }
    }
    if len > 0 {
      MarkRun(s, p, w, I[..], i, len, h);
      I[i - len] := -len;
    }
    PassEnds(s, p, w, I[..], old(I[..]), len, h, p0, w0);
  }
}
