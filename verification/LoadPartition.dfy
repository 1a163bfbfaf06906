/** LoadPartitionContents of applypatch/applypatch.c: reading as much of a partition as one of the digests covers. */
module LoadPartition {
  import opened Common
  import opened Digests

  /**
   An incremental hash: `after(d)` is the state of a context that was given the data `d`, in pieces of any size.
   */
  datatype Hasher<!C> = Hasher(after: seq<Byte> -> C, update: (C, seq<Byte>) -> C, final: C -> seq<Byte>)
  {
    function Sha(data: seq<Byte>): (bytes: seq<Byte>) { final(after(data)) }

    ghost predicate Incremental() {
      forall a: seq<Byte>, b: seq<Byte> :: update(after(a), b) == after(a + b)
    }
  }

  /** A size and the digest that many bytes should have, as they are listed in the name. */
  datatype Pair = Pair(size: nat, sha1: string)

  /** Whether the pair describes the front of the partition. */
  ghost predicate Fits<C>(h: Hasher<C>, content: seq<Byte>, p: Pair) {
    p.size <= |content| && Parsed(p.sha1) == Some(h.Sha(content[..p.size]))
  }

  predicate InOrder(order: seq<nat>, pairs: seq<Pair>) {
    && (forall i :: 0 <= i < |order| ==> order[i] < |pairs|)
    && (forall i, j :: 0 <= i < j < |order| ==> pairs[order[i]].size <= pairs[order[j]].size)
  }

  lemma OrderFacts(order: seq<nat>, pairs: seq<Pair>)
    requires InOrder(order, pairs)
    ensures forall i :: 0 <= i < |order| ==> order[i] < |pairs|
    ensures forall i, j :: 0 <= i < j < |order| ==> pairs[order[i]].size <= pairs[order[j]].size
  {
  }

  /** qsort with compare_size_indices. */
  method SortIndex(pairs: seq<Pair>) returns (order: seq<nat>)
    ensures |order| == |pairs| && InOrder(order, pairs)
    ensures forall k :: 0 <= k < |pairs| ==> k in order
  {
    order := [];
    var k := 0;
    while k < |pairs|
      invariant 0 <= k <= |pairs| && |order| == k && InOrder(order, pairs)
      invariant forall i :: 0 <= i < k ==> i in order
    {
      order := Insert(order, k, pairs);
      k := k + 1;
    }
  }

  method Insert(order: seq<nat>, k: nat, pairs: seq<Pair>) returns (order': seq<nat>)
    requires InOrder(order, pairs) && k < |pairs|
    ensures InOrder(order', pairs) && |order'| == |order| + 1
    ensures k in order' && forall i :: i in order ==> i in order'
  {
    var at := 0;
    while at < |order| && pairs[order[at]].size <= pairs[k].size
      invariant 0 <= at <= |order|
      invariant forall i :: 0 <= i < at ==> pairs[order[i]].size <= pairs[k].size
    {
      at := at + 1;
    }
    order' := order[..at] + [k] + order[at..];
    Inserted(order, at, k, pairs);
  }

  lemma Inserted(order: seq<nat>, at: nat, k: nat, pairs: seq<Pair>)
    requires InOrder(order, pairs) && k < |pairs| && at <= |order|
    requires forall i :: 0 <= i < at ==> pairs[order[i]].size <= pairs[k].size
    requires at < |order| ==> pairs[k].size <= pairs[order[at]].size
    ensures var all := order[..at] + [k] + order[at..];
            InOrder(all, pairs) && k in all && forall i :: i in order ==> i in all
  {
    var all := order[..at] + [k] + order[at..];
    assert all[at] == k;
    assert order == order[..at] + order[at..];
    forall i, j | 0 <= i < j < |all| ensures pairs[all[i]].size <= pairs[all[j]].size {
      InsertedAt(order, at, k, i);
      InsertedAt(order, at, k, j);
    }
  }

  lemma InsertedAt(order: seq<nat>, at: nat, k: nat, i: nat)
    requires at <= |order| && i <= |order|
    ensures (order[..at] + [k] + order[at..])[i] == if i < at then order[i] else if i == at then k else order[i - 1]
  {
  }

  /** The next bytes of the partition, into the buffer behind the `size` bytes that are there; false on a short read. */
  method ReadMore(content: seq<Byte>, data: array<Byte>, size: nat, next: nat) returns (ok: bool)
    requires size <= |content| && size + next <= data.Length && data[..size] == content[..size]
    modifies data
    ensures ok <==> size + next <= |content|
    ensures ok ==> data[..size + next] == content[..size + next]
    ensures ok ==> data[size..size + next] == content[size..size + next]
  {
    if size + next > |content| {
      return false;
    }
    forall i | 0 <= i < next {
      data[size + i] := content[size + i];
    }
    assert content[..size + next] == content[..size] + content[size..size + next];
    assert data[..size + next] == data[..size] + data[size..size + next];
    return true;
  }

  /** SHA_update with the bytes just read. */
  method Feed<C>(h: Hasher<C>, ghost content: seq<Byte>, ctx: C, size: nat, data: seq<Byte>) returns (ctx': C)
    requires h.Incremental() && size + |data| <= |content|
    requires ctx == h.after(content[..size]) && data == content[size..size + |data|]
    ensures ctx' == h.after(content[..size + |data|])
  {
    assert content[..size] + data == content[..size + |data|];
    ctx' := h.update(ctx, data);
  }

  /** What has been read and hashed is the front of the partition. */
  ghost predicate Running<C>(h: Hasher<C>, content: seq<Byte>, front: seq<Byte>, ctx: C) {
    front <= content && ctx == h.after(front)
  }

  /** Read enough additional bytes to get up to the next size; false on a short read. */
  method Extend<C>(h: Hasher<C>, content: seq<Byte>, data: array<Byte>, size: nat, target: nat, ctx: C)
      returns (ok: bool, ctx': C)
    requires h.Incremental() && size <= target <= data.Length && Running(h, content, data[..size], ctx)
    modifies data
    ensures ok <==> target <= |content|
    ensures ok ==> Running(h, content, data[..target], ctx')
  {
    assert data[..size] == content[..size];
    var next := target - size;
    ok, ctx' := true, ctx;
    if next > 0 {
      ok := ReadMore(content, data, size, next);
      if ok {
        ctx' := Feed(h, content, ctx, size, data[size..target]);
        assert data[..target] == content[..target];
      }
    }
  }

  lemma RunningStart<C>(h: Hasher<C>, content: seq<Byte>)
    ensures Running(h, content, [], h.after([]))
  {
  }

  lemma RunningFits<C>(h: Hasher<C>, content: seq<Byte>, front: seq<Byte>, ctx: C, p: Pair)
    requires Running(h, content, front, ctx) && p.size == |front|
    ensures Fits(h, content, p) <==> Parsed(p.sha1) == Some(h.final(ctx))
    ensures h.final(ctx) == h.Sha(front) && front <= content
  {
    hide Parsed;
    assert content[..p.size] == front;
  }

  /**
   `content` is what can be read from the partition.  The sizes are tried in ascending order, each time reading only the
   additional bytes and adding only those to the hash.  On success the data are the first bytes of the partition, as
   many as the smallest listed size that has the digest listed with it.  `size` is how many bytes had been read.
   */
  method LoadPartitionContents<C>(h: Hasher<C>, content: seq<Byte>, pairs: seq<Pair>)
      returns (r: Option<(seq<Byte>, seq<Byte>)>, size: nat)
    requires h.Incremental() && pairs != []
    ensures r.Some? ==> r.value.0 <= content && r.value.1 == h.Sha(r.value.0)
    ensures r.Some? ==> exists k :: 0 <= k < |pairs| && Fits(h, content, pairs[k]) && pairs[k].size == |r.value.0|
    ensures r.Some? ==> forall k :: 0 <= k < |pairs| && pairs[k].size < |r.value.0| ==> !Fits(h, content, pairs[k])
    ensures (forall k :: 0 <= k < |pairs| ==> pairs[k].size > 0 && Parsed(pairs[k].sha1).Some?) ==>
              (r.Some? <==> exists k :: 0 <= k < |pairs| && Fits(h, content, pairs[k]))
    ensures r.Some? ==> size == |r.value.0|
    ensures r.None? && (forall k :: 0 <= k < |pairs| ==> pairs[k].size > 0) ==>
              (size > 0 <==> exists k :: 0 <= k < |pairs| && pairs[k].size <= |content|)
  {
    hide Parsed, Fits, InOrder, Running;
    RunningStart(h, content);
    size := 0;
    var i := 0;
    while i < |pairs|
      invariant 0 <= i <= |pairs|
    {
      if pairs[i].size == 0 {
        return None, size;
      }
      i := i + 1;
    }
    var index := SortIndex(pairs);
    OrderFacts(index, pairs);
    var ctx := h.after([]);
    var data := new Byte[pairs[index[|pairs| - 1]].size](_ => 0);
    assert data[..size] == [];
    i := 0;
    while i < |pairs|
      invariant 0 <= i <= |pairs| && 0 <= size <= data.Length
      invariant Running(h, content, data[..size], ctx)
      invariant i > 0 ==> size == pairs[index[i - 1]].size <= |content|
      invariant i == 0 ==> size == 0
      invariant forall j :: i <= j < |pairs| ==> size <= pairs[index[j]].size
      invariant forall j :: 0 <= j < i ==> !Fits(h, content, pairs[index[j]])
    {
      var read;
      read, ctx := Extend(h, content, data, size, pairs[index[i]].size, ctx);
      if !read {
        NothingFits(h, content, pairs, index, i);
        if i == 0 {
          LeastIsFirst(pairs, index);
        }
        return None, size;
      }
      size := pairs[index[i]].size;
      var shaSoFar := h.final(ctx);
      RunningFits(h, content, data[..size], ctx, pairs[index[i]]);
      var parsedSha := ParseSha1(pairs[index[i]].sha1);
      if parsedSha.None? {
        return None, size;
      }
      if shaSoFar == parsedSha.value {
        SmallerDoNotFit(h, content, pairs, index, i);
        break;
      }
      i := i + 1;
    }
    if i == |pairs| {
      NothingFits(h, content, pairs, index, i);
      return None, size;
    }
    return Some((data[..size], h.final(ctx))), size;
  }

  lemma LeastIsFirst(pairs: seq<Pair>, index: seq<nat>)
    requires |index| == |pairs| > 0 && InOrder(index, pairs) && forall k :: 0 <= k < |pairs| ==> k in index
    ensures forall k :: 0 <= k < |pairs| ==> pairs[index[0]].size <= pairs[k].size
  {
    forall k | 0 <= k < |pairs| ensures pairs[index[0]].size <= pairs[k].size {
      assert k in index;
      var j :| 0 <= j < |index| && index[j] == k;
    }
  }

  /** No pair fits if none of those tried does, and those left are too long. */
  lemma NothingFits<C>(h: Hasher<C>, content: seq<Byte>, pairs: seq<Pair>, index: seq<nat>, i: nat)
    requires i <= |index| == |pairs| && InOrder(index, pairs) && forall k :: 0 <= k < |pairs| ==> k in index
    requires forall j :: 0 <= j < i ==> !Fits(h, content, pairs[index[j]])
    requires i < |pairs| ==> pairs[index[i]].size > |content|
    ensures forall k :: 0 <= k < |pairs| ==> !Fits(h, content, pairs[k])
  {
    hide Parsed;
    forall k | 0 <= k < |pairs| ensures !Fits(h, content, pairs[k]) {
      assert k in index;
      var j :| 0 <= j < |index| && index[j] == k;
    }
  }

  /** No smaller pair fits if none of those tried before does. */
  lemma SmallerDoNotFit<C>(h: Hasher<C>, content: seq<Byte>, pairs: seq<Pair>, index: seq<nat>, i: nat)
    requires i < |index| == |pairs| && InOrder(index, pairs) && forall k :: 0 <= k < |pairs| ==> k in index
    requires forall j :: 0 <= j < i ==> !Fits(h, content, pairs[index[j]])
    ensures forall k :: 0 <= k < |pairs| && pairs[k].size < pairs[index[i]].size ==> !Fits(h, content, pairs[k])
  {
    hide Fits;
    forall k | 0 <= k < |pairs| && pairs[k].size < pairs[index[i]].size ensures !Fits(h, content, pairs[k]) {
      assert k in index;
      var j :| 0 <= j < |index| && index[j] == k;
    }
  }
}
