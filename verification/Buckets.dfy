/** The bucket sort by first byte with which qsufsort begins (applypatch/bsdiff.c). */
module Buckets {
  import opened Common
  import opened SuffixOrder
  import opened SuffixSplit
  import opened Passes

  /** How many bytes of `s` are `c`. */
  function Eq(s: seq<Byte>, c: int): (n: nat) {
    if s == [] then 0 else Eq(s[..|s| - 1], c) + if s[|s| - 1] == c then 1 else 0
  }

  /** How many bytes of `s` are below `c`. */
  function Lt(s: seq<Byte>, c: int): (n: nat)
    decreases if c < 0 then 0 else c
  {
    if c <= 0 then 0 else Lt(s, c - 1) + Eq(s, c - 1)
  }

  /** Where the bucket sort puts suffix `i`: after the smaller first bytes and the equal ones before it. */
  function Place(s: seq<Byte>, i: nat): (n: nat)
    requires i <= |s|
  {
    if i == |s| then 0 else 1 + Lt(s, s[i]) + Eq(s[..i], s[i])
  }

  lemma {:induction false} EqGrows(s: seq<Byte>, c: int, i: nat, j: nat)
    requires i <= j <= |s|
    ensures Eq(s[..i], c) <= Eq(s[..j], c)
    ensures i < j && s[i] == c ==> Eq(s[..i], c) < Eq(s[..j], c)
  {
    if i >= j {
    } else {
      EqGrows(s, c, i, j - 1);
      assert s[..j][..j - 1] == s[..j - 1];
    }
  }

  lemma {:induction false} LtGrows(s: seq<Byte>, c: int, d: int)
    requires c <= d
    ensures Lt(s, c) <= Lt(s, d)
    decreases d - c
  {
    if c >= d {
    } else {
      LtGrows(s, c, d - 1);
    }
  }

  lemma {:induction false} LtSnoc(s: seq<Byte>, c: int)
    requires s != []
    ensures Lt(s, c) == Lt(s[..|s| - 1], c) + if s[|s| - 1] < c then 1 else 0
    decreases if c < 0 then 0 else c
  {
    if c <= 0 {
    } else {
      LtSnoc(s, c - 1);
    }
  }

  lemma {:induction false} LtAll(s: seq<Byte>)
    ensures Lt(s, 256) == |s|
  {
    if s == [] {
      LtNothing(256);
    } else {
      LtSnoc(s, 256);
      LtAll(s[..|s| - 1]);
    }
  }

  lemma {:induction false} LtNothing(c: int)
    ensures Lt([], c) == 0
    decreases if c < 0 then 0 else c
  {
    if c <= 0 {
    } else {
      LtNothing(c - 1);
    }
  }

  /** A suffix lands inside the bucket of its first byte. */
  lemma PlaceInBucket(s: seq<Byte>, i: nat)
    requires i < |s|
    ensures Lt(s, s[i]) < Place(s, i) <= Lt(s, s[i] as int + 1) <= |s|
  {
    EqGrows(s, s[i], i, |s|);
    assert s[..|s|] == s;
    LtGrows(s, s[i] as int + 1, 256);
    LtAll(s);
  }

  lemma PlaceDistinct(s: seq<Byte>, i: nat, j: nat)
    requires i < j <= |s|
    ensures Place(s, i) != Place(s, j)
  {
    PlaceInBucket(s, i);
    if j < |s| {
      PlaceInBucket(s, j);
      if s[i] == s[j] {
        EqGrows(s, s[i], i, j);
      } else if s[i] < s[j] {
        LtGrows(s, s[i] as int + 1, s[j]);
      } else {
        LtGrows(s, s[j] as int + 1, s[i]);
      }
    }
  }

  /** `p` has every suffix at its place. */
  ghost predicate InPlace(s: seq<Byte>, p: seq<int>) {
    |p| == |s| + 1 && forall i :: 0 <= i <= |s| ==> 0 <= Place(s, i) < |p| && p[Place(s, i)] == i
  }

  /** Every index is the place of a suffix. */
  lemma PlaceOnto(s: seq<Byte>, p: seq<int>, k: nat)
    requires InPlace(s, p) && k < |p|
    ensures 0 <= p[k] <= |s| && Place(s, p[k]) == k
  {
    var places := seq(|s| + 1, i requires 0 <= i <= |s| => Place(s, i));
    forall i, j | 0 <= i < j < |places| ensures places[i] != places[j] {
      PlaceDistinct(s, i, j);
    }
    var i := SuffixOrder.PlaceOf(places, k);
    assert p[Place(s, i)] == i;
  }

  lemma InPlacePerm(s: seq<Byte>, p: seq<int>)
    requires InPlace(s, p)
    ensures Perm(p)
  {
    forall k | 0 <= k < |p| ensures 0 <= p[k] < |p| && Place(s, p[k]) == k {
      PlaceOnto(s, p, k);
    }
  }

  /** The rank of a suffix after the bucket sort: the last place of its bucket. */
  function FirstRank(s: seq<Byte>, i: nat): (n: nat)
    requires i <= |s|
  {
    if i == |s| then 0 else Lt(s, s[i] as int + 1)
  }

  lemma FirstRankOrders(s: seq<Byte>, i: nat, j: nat)
    requires i <= |s| && j <= |s|
    ensures FirstRank(s, i) < FirstRank(s, j) ==> Less(s, i, j)
    ensures FirstRank(s, i) == FirstRank(s, j) && i != j ==> Share(s, i, j, 1)
    ensures Place(s, i) <= Place(s, j) <= FirstRank(s, i) ==> FirstRank(s, j) == FirstRank(s, i)
  {
    if i < |s| { PlaceInBucket(s, i); }
    if j < |s| { PlaceInBucket(s, j); }
    if i < |s| && j < |s| {
      if s[i] < s[j] {
        LtGrows(s, s[i] as int + 1, s[j]);
      } else if s[j] < s[i] {
        LtGrows(s, s[j] as int + 1, s[i]);
      } else {
        assert s[i..i + 1] == s[j..j + 1];
      }
    }
  }

  lemma BucketsRanked(s: seq<Byte>, p: seq<int>, w: seq<int>)
    requires InPlace(s, p) && |w| == |p|
    requires forall k :: 0 <= k < |p| ==> 0 <= p[k] <= |s| && w[k] == FirstRank(s, p[k])
    ensures Ranked(s, p, w, 1)
  {
    InPlacePerm(s, p);
    hide InPlace;
    forall k | 0 <= k < |p| ensures Place(s, p[k]) == k && k <= w[k] < |p| {
      PlaceOnto(s, p, k);
      if p[k] < |s| { PlaceInBucket(s, p[k]); }
    }
    forall i, j | 0 <= i < |p| && 0 <= j < |p|
      ensures w[i] < w[j] ==> Less(s, p[i], p[j])
      ensures w[i] == w[j] && i != j ==> Share(s, p[i], p[j], 1)
      ensures i <= j <= w[i] ==> w[j] == w[i]
    {
      FirstRankOrders(s, p[i], p[j]);
    }
  }

  /** A bucket of one suffix is a group of one. */
  lemma BucketSingle(s: seq<Byte>, p: seq<int>, w: seq<int>, c: Byte)
    requires InPlace(s, p) && |w| == |p|
    requires forall k :: 0 <= k < |p| ==> 0 <= p[k] <= |s| && w[k] == FirstRank(s, p[k])
    requires Lt(s, c + 1) == Lt(s, c) + 1
    ensures Lt(s, c + 1) < |p| && Single(w, Lt(s, c + 1))
  {
    hide Lt, Eq;
    var k := Lt(s, c + 1);
    LtGrows(s, c + 1, 256);
    LtAll(s);
    InBucket(s, p, k, c);
    if k > 1 {
      PlaceOnto(s, p, k - 1);
      var i := p[k - 1];
      PlaceInBucket(s, i);
      if s[i] >= c { LtGrows(s, c, s[i]); } else { LtGrows(s, s[i] as int + 1, c); }
      assert w[k - 1] == k - 1;
    } else {
      PlaceOnto(s, p, 0);
      assert w[0] == 0;
    }
    assert w[k] == k;
  }

  lemma InBucket(s: seq<Byte>, p: seq<int>, k: nat, c: Byte)
    requires InPlace(s, p) && Lt(s, c) < k <= Lt(s, c + 1) && k < |p|
    ensures 0 <= p[k] < |s| && s[p[k]] == c
  {
    PlaceOnto(s, p, k);
    var i := p[k];
    PlaceInBucket(s, i);
    if s[i] < c { LtGrows(s, s[i] as int + 1, c); } else if s[i] > c { LtGrows(s, c + 1, s[i]); }
  }

  /** The loops that count how often each byte occurs. */
  method CountBytes(s: seq<Byte>) returns (buckets: array<int>)
    ensures fresh(buckets) && buckets.Length == 256
    ensures forall c :: 0 <= c < 256 ==> buckets[c] == Eq(s, c)
  {
    hide Eq;
    buckets := new int[256];
    var i := 0;
    while i < 256
      invariant 0 <= i <= 256 && forall c :: 0 <= c < i ==> buckets[c] == 0
    {
      buckets[i] := 0;
      i := i + 1;
    }
    EqNothing(s);
    i := 0;
    while i < |s|
      invariant 0 <= i <= |s| && forall c :: 0 <= c < 256 ==> buckets[c] == Eq(s[..i], c)
    {
      NextByte(s, i);
      buckets[s[i]] := buckets[s[i]] + 1;
      i := i + 1;
    }
    assert s[..|s|] == s;
  }

  /** The loops that accumulate the counts and shift them, so that each entry ends just before its bucket. */
  method BucketStarts(s: seq<Byte>) returns (buckets: array<int>)
    ensures fresh(buckets) && buckets.Length == 256
    ensures forall c :: 0 <= c < 256 ==> buckets[c] == Lt(s, c)
  {
    buckets := CountBytes(s);
    hide Lt, Eq;
    LtNext(s, 0);
    var i := 1;
    while i < 256
      invariant 1 <= i <= 256
      invariant forall c :: 0 <= c < i ==> buckets[c] == Lt(s, c + 1)
      invariant forall c :: i <= c < 256 ==> buckets[c] == Eq(s, c)
    {
      LtNext(s, i);
      buckets[i] := buckets[i] + buckets[i - 1];
      i := i + 1;
    }
    i := 255;
    while i > 0
      invariant 0 <= i <= 255
      invariant forall c :: 0 <= c <= i ==> buckets[c] == Lt(s, c + 1)
      invariant forall c :: i < c < 256 ==> buckets[c] == Lt(s, c)
    {
      buckets[i] := buckets[i - 1];
      i := i - 1;
    }
    buckets[0] := 0;
  }

  lemma LtNext(s: seq<Byte>, c: nat)
    ensures Lt(s, 0) == 0 && Lt(s, c + 1) == Lt(s, c) + Eq(s, c)
  {
  }

  lemma NextByte(s: seq<Byte>, i: nat)
    requires i < |s|
    ensures forall c :: Eq(s[..i + 1], c) == Eq(s[..i], c) + if s[i] == c then 1 else 0
  {
    assert s[..i + 1][..i] == s[..i];
  }

  lemma NextPlace(s: seq<Byte>, i: nat)
    requires i < |s|
    ensures 0 < Place(s, i) == Lt(s, s[i]) + Eq(s[..i], s[i]) + 1 <= |s|
    ensures forall c :: Eq(s[..i + 1], c) == Eq(s[..i], c) + if s[i] == c then 1 else 0
    ensures forall j: nat :: j < i ==> Place(s, j) != Place(s, i)
  {
    PlaceInBucket(s, i);
    assert s[..i + 1][..i] == s[..i];
    forall j: nat | j < i ensures Place(s, j) != Place(s, i) {
      PlaceDistinct(s, j, i);
    }
  }

  lemma LtStep(s: seq<Byte>)
    ensures forall c :: 0 <= c < 256 ==> Lt(s, c + 1) == Lt(s, c) + Eq(s, c)
  {
  }

  lemma EqNothing(s: seq<Byte>)
    ensures forall c :: Eq(s[..0], c) == 0
  {
  }

  lemma LastPlace(s: seq<Byte>, p: seq<int>)
    requires |p| == |s| + 1 && p[0] == |s|
    requires forall j :: 0 <= j < |s| ==> 0 < Place(s, j) < |p| && p[Place(s, j)] == j
    ensures InPlace(s, p)
  {
  }

  /** The loop that puts every suffix into its bucket; each bucket entry ends at the bucket's last place. */
  method Fill(I: array<int>, buckets: array<int>, s: seq<Byte>)
    requires I != buckets && I.Length == |s| + 1 && buckets.Length == 256
    requires forall c :: 0 <= c < 256 ==> buckets[c] == Lt(s, c)
    modifies I, buckets
    ensures InPlace(s, I[..])
    ensures forall c :: 0 <= c < 256 ==> buckets[c] == Lt(s, c + 1)
  {
    hide Place, Eq, Lt, InPlace;
    var i := 0;
    EqNothing(s);
    while i < |s|
      invariant 0 <= i <= |s|
      invariant forall c :: 0 <= c < 256 ==> buckets[c] == Lt(s, c) + Eq(s[..i], c)
      invariant forall j :: 0 <= j < i ==> 0 < Place(s, j) < I.Length && I[Place(s, j)] == j
    {
      NextPlace(s, i);
      buckets[s[i]] := buckets[s[i]] + 1;
      I[buckets[s[i]]] := i;
      i := i + 1;
    }
    assert s[..|s|] == s;
    LtStep(s);
    I[0] := |s|;
    LastPlace(s, I[..]);
  }

  /** The loop that marks the buckets of one suffix.  It starts at 1: the bucket of byte 0 is never marked here. */
  method MarkSingles(I: array<int>, buckets: array<int>, ghost s: seq<Byte>, ghost p: seq<int>, ghost w: seq<int>)
    requires I != buckets && I.Length == |s| + 1 && buckets.Length == 256 && I[..] == p
    requires InPlace(s, p) && |w| == |p|
    requires forall k :: 0 <= k < |p| ==> 0 <= p[k] <= |s| && w[k] == FirstRank(s, p[k])
    requires forall c :: 0 <= c < 256 ==> buckets[c] == Lt(s, c + 1)
    modifies I
    ensures forall k :: 0 <= k < |p| ==> I[k] == p[k] || (I[k] == -1 && Single(w, k))
  {
    var i := 1;
    while i < 256
      invariant 1 <= i <= 256
      invariant forall k :: 0 <= k < |p| ==> I[k] == p[k] || (I[k] == -1 && Single(w, k))
    {
      if buckets[i] == buckets[i - 1] + 1 {
        BucketSingle(s, p, w, i);
        I[buckets[i]] := -1;
      }
      i := i + 1;
    }
  }
}
