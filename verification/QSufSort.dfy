/** qsufsort of applypatch/bsdiff.c: bucket sort, doubling passes, and the inversion of the ranks. */
module QSufSort {
  import opened Common
  import opened SuffixOrder
  import opened SuffixSplit
  import opened Passes
  import opened Buckets

  lemma FirstState(s: seq<Byte>, p: seq<int>, w: seq<int>, v: seq<int>, a: seq<int>)
    requires InPlace(s, p) && |w| == |v| == |a| == |p| && p[0] == |s|
    requires forall k :: 0 <= k < |p| ==> 0 <= p[k] <= |s| && w[k] == FirstRank(s, p[k])
    requires forall i :: 0 <= i <= |s| ==> v[i] == FirstRank(s, i)
    requires forall k :: 0 < k < |p| ==> a[k] == p[k] || (a[k] == -1 && Single(w, k))
    requires a[0] == -1
    ensures Between(s, p, w, a, 1) && Holds(v, p, w) && Remaining(a, 1) >= 0
  {
    BucketsRanked(s, p, w);
    assert Single(w, 0);
    assert forall k :: 0 < k < |p| ==> p[k] != p[0];
  }

  /** When the whole array is one run, every suffix has its own rank. */
  lemma LastState(s: seq<Byte>, p: seq<int>, w: seq<int>, v: seq<int>, a: seq<int>, h: nat)
    requires Between(s, p, w, a, h) && Holds(v, p, w) && a[0] == -|a|
    ensures IsSuffixArray(s, p)
    ensures |v| == |p| == |s| + 1 && forall k :: 0 <= k < |p| ==> 0 <= p[k] < |p| && v[p[k]] == k
    ensures forall i :: 0 <= i < |v| ==> 0 <= v[i] < |v| && p[v[i]] == i
  {
    assert Encodes(s, p, w, a, 0, h);
    RunSingle(s, p, w, a, 0, h);
    forall i | 0 <= i < |v| ensures 0 <= v[i] < |v| && p[v[i]] == i {
      var k := SuffixOrder.PlaceOf(p, i);
    }
  }

  /** The final loop: I becomes the inverse of the ranks. */
  method Invert(I: array<int>, V: array<int>, ghost p: seq<int>)
    requires I != V && I.Length == V.Length == |p|
    requires forall i :: 0 <= i < |p| ==> 0 <= V[i] < |p| && p[V[i]] == i
    requires forall k :: 0 <= k < |p| ==> 0 <= p[k] < |p| && V[p[k]] == k
    modifies I
    ensures I[..] == p
  {
    var i := 0;
    while i < I.Length
      invariant 0 <= i <= I.Length
      invariant forall k :: 0 <= k < |p| && p[k] < i ==> I[k] == p[k]
    {
      I[V[i]] := i;
      i := i + 1;
    }
  }

  /** qsufsort up to its main loop: suffixes ranked by their first byte. */
  method BucketSort(I: array<int>, V: array<int>, text: seq<Byte>) returns (ghost p: seq<int>, ghost w: seq<int>)
    requires I != V && I.Length == V.Length == |text| + 1
    modifies I, V
    ensures Between(text, p, w, I[..], 1) && Holds(V[..], p, w) && Remaining(I[..], 1) >= 0
  {
    hide Between, Holds, Remaining, InPlace, FirstRank, Place, Lt, Single;
    var buckets := BucketStarts(text);
    Fill(I, buckets, text);
    p := I[..];
    FilledFacts(text, p);
    var i := 0;
    while i < |text|
      invariant 0 <= i <= |text| && I[..] == p
      invariant forall c :: 0 <= c < 256 ==> buckets[c] == Lt(text, c + 1)
      invariant forall j :: 0 <= j < i ==> V[j] == FirstRank(text, j)
    {
      FirstRankIs(text, i);
      V[i] := buckets[text[i]];
      i := i + 1;
    }
    FirstRankIs(text, |text|);
    V[|text|] := 0;
    w := seq(|p|, k requires 0 <= k < |p| => FirstRank(text, p[k]));
    MarkSingles(I, buckets, text, p, w);
    I[0] := -1;
    FirstState(text, p, w, V[..], I[..]);
  }

  /** qsufsort: I becomes the suffix array of `text`; V is working space. */
  method QSufSort(I: array<int>, V: array<int>, text: seq<Byte>)
    requires I != V && I.Length == V.Length == |text| + 1
    modifies I, V
    ensures IsSuffixArray(text, I[..])
  {
    hide Between, Holds, Remaining, IsSuffixArray;
    ghost var p, w := BucketSort(I, V, text);
    var h := 1;
    while I[0] != -(|text| + 1)
      invariant h > 0 && Between(text, p, w, I[..], h) && Holds(V[..], p, w) && Remaining(I[..], h) >= 0
      decreases Remaining(I[..], h)
    {
      p, w := Pass(I, V, h, text, p, w);
      h := h + h;
    }
    LastState(text, p, w, V[..], I[..], h);
    Invert(I, V, p);
  }

  lemma FilledFacts(s: seq<Byte>, p: seq<int>)
    requires InPlace(s, p)
    ensures p[0] == |s| && forall k :: 0 <= k < |p| ==> 0 <= p[k] <= |s|
  {
    InPlacePerm(s, p);
    assert Place(s, |s|) == 0;
  }

  lemma FirstRankIs(s: seq<Byte>, i: nat)
    requires i <= |s|
    ensures FirstRank(s, i) == if i == |s| then 0 else Lt(s, s[i] as int + 1)
  {
  }
}
