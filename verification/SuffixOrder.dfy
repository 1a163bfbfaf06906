/**
 The order qsufsort sorts by, and what a suffix array is.
 Suffix `a` of `s` is `s[a..]`; suffix `|s|` is the empty one.
 */
module SuffixOrder {
  import opened Common

  /** Suffix `a` comes strictly before suffix `b`, byte by byte. */
  predicate Less(s: seq<Byte>, a: nat, b: nat)
    requires a <= |s| && b <= |s|
    decreases |s| - a
  {
    && b < |s|
    && (a == |s| || s[a] < s[b] || (s[a] == s[b] && Less(s, a + 1, b + 1)))
  }

  /** Suffixes `a` and `b` both have `h` bytes, and the same ones. */
  predicate Share(s: seq<Byte>, a: nat, b: nat, h: nat) {
    a + h <= |s| && b + h <= |s| && s[a..a + h] == s[b..b + h]
  }

  /** Byte strings `x` and `y` agree up to `k`, where `x` ends or has the smaller byte. */
  predicate DiffersAt(x: seq<Byte>, y: seq<Byte>, k: nat) {
    k <= |x| && k < |y| && x[..k] == y[..k] && (k == |x| || x[k] < y[k])
  }

  /** Dictionary order on byte strings, defined without reference to suffixes. */
  ghost predicate LexLess(x: seq<Byte>, y: seq<Byte>) {
    exists k :: DiffersAt(x, y, k)
  }

  /** `a` lists every number below its length exactly once. */
  ghost predicate Perm(a: seq<int>) {
    && (forall k :: 0 <= k < |a| ==> 0 <= a[k] < |a|)
    && (forall i, j :: 0 <= i < j < |a| ==> a[i] != a[j])
  }

  /** `a` lists all suffixes of `s`, the empty one included, in strictly increasing order. */
  ghost predicate IsSuffixArray(s: seq<Byte>, a: seq<int>) {
    && |a| == |s| + 1
    && Perm(a)
    && forall i, j :: 0 <= i < j < |a| ==> Less(s, a[i], a[j])
  }

  lemma DiffersAtTail(x: seq<Byte>, y: seq<Byte>, k: nat)
    requires |x| > 0 && |y| > 0 && x[0] == y[0]
    ensures DiffersAt(x, y, k + 1) <==> DiffersAt(x[1..], y[1..], k)
  {
    if k < |x| && k < |y| {
      assert x[..k + 1] == [x[0]] + x[1..][..k] && y[..k + 1] == [y[0]] + y[1..][..k];
      assert x[1..][..k] == x[..k + 1][1..] && y[1..][..k] == y[..k + 1][1..];
    }
  }

  lemma {:induction false} LessIsLexicographic(s: seq<Byte>, a: nat, b: nat)
    requires a <= |s| && b <= |s|
    ensures Less(s, a, b) <==> LexLess(s[a..], s[b..])
    decreases |s| - a
  {
    var x, y := s[a..], s[b..];
    if a < |s| && b < |s| && s[a] == s[b] {
      LessIsLexicographic(s, a + 1, b + 1);
      assert s[a + 1..] == x[1..] && s[b + 1..] == y[1..];
      if k: nat :| DiffersAt(x[1..], y[1..], k) {
        DiffersAtTail(x, y, k);
      }
      if k: nat :| DiffersAt(x, y, k) {
        assert x[0] == y[0];
        DiffersAtTail(x, y, k - 1);
      }
    } else {
      assert Less(s, a, b) ==> DiffersAt(x, y, 0);
      if k: nat :| DiffersAt(x, y, k) {
        if k > 0 {
          assert x[..k][0] == y[..k][0];
        }
      }
    }
  }

  /** Two suffixes that agree on `h` bytes are ordered as what follows those bytes. */
  lemma {:induction false} LessAfterShared(s: seq<Byte>, a: nat, b: nat, h: nat)
    requires Share(s, a, b, h) && Less(s, a + h, b + h)
    ensures Less(s, a, b)
    decreases h
  {
    if h == 0 {
    } else {
      assert s[a] == s[a..a + h][0] == s[b..b + h][0] == s[b];
      assert s[a + 1..a + h] == s[a..a + h][1..] && s[b + 1..b + h] == s[b..b + h][1..];
      LessAfterShared(s, a + 1, b + 1, h - 1);
    }
  }

  lemma ShareTwice(s: seq<Byte>, a: nat, b: nat, h: nat)
    requires Share(s, a, b, h) && Share(s, a + h, b + h, h)
    ensures Share(s, a, b, 2 * h)
  {
    assert s[a..a + 2 * h] == s[a..a + h] + s[a + h..a + 2 * h];
    assert s[b..b + 2 * h] == s[b..b + h] + s[b + h..b + 2 * h];
  }

  /** The place of `x` in a permutation. */
  lemma PlaceOf(a: seq<int>, x: int) returns (k: nat)
    requires Perm(a) && 0 <= x < |a|
    ensures k < |a| && a[k] == x
  {
    InPerm(a, x);
    k :| k < |a| && a[k] == x;
  }

  lemma InPerm(a: seq<int>, x: int)
    requires Perm(a) && 0 <= x < |a|
    ensures x in a
  {
    if x !in a {
      var seen := Values(a);
      assert |seen| == |a|;
      forall y | y in seen ensures y in Below(|a|) - {x} {
        var i :| 0 <= i < |a| && a[i] == y;
      }
      SubsetCard(seen, Below(|a|) - {x});
      assert false;
    }
  }

  ghost function Below(n: nat): (r: set<int>)
    ensures |r| == n && forall x :: x in r <==> 0 <= x < n
  {
    if n == 0 then {} else Below(n - 1) + {n - 1}
  }

  ghost function Values(a: seq<int>): (r: set<int>)
    ensures forall x :: x in r <==> x in a
    ensures (forall i, j :: 0 <= i < j < |a| ==> a[i] != a[j]) ==> |r| == |a|
  {
    if a == [] then {} else Values(a[..|a| - 1]) + {a[|a| - 1]}
  }

  lemma SubsetCard<T>(a: set<T>, b: set<T>)
    requires a <= b
    ensures |a| <= |b|
  {
    assert b == a + (b - a);
  }
}
