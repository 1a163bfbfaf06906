/**
 What the names of partitions list, and what that means for applypatch: the sizes and digests in a name decide what is
 found in the partition.
 */
module PartitionNames {
  import opened Common
  import opened Digests
  import opened Disk
  import opened ApplyPatch
  import opened LoadPartition
  import opened PartitionTarget
  import opened Updates

  /** Which names are those of partitions. */
  lemma NamesOfPartitions(rest: string)
    ensures IsPartition("MTD:" + rest) && IsPartition("EMMC:" + rest) && !IsPartition("/" + rest)
  {
    assert ("/" + rest)[0] == '/' && "MTD:"[0] == 'M' && "EMMC:"[0] == 'E';
  }

  /** The hash as a context that keeps what it was given. */
  function Hashed(sha: Sha): (h: Hasher<seq<Byte>>)
    ensures h.Incremental()
  {
    Hasher((data: seq<Byte>) => data, (front: seq<Byte>, more: seq<Byte>) => front + more, sha)
  }

  ghost predicate WellFormed(pairs: seq<Pair>) {
    pairs != [] && forall k :: 0 <= k < |pairs| ==> pairs[k].size > 0 && Parsed(pairs[k].sha1).Some?
  }

  ghost predicate FitsAt(sha: Sha, content: seq<Byte>, pairs: seq<Pair>, k: int) {
    0 <= k < |pairs| && LoadPartition.Fits(Hashed(sha), content, pairs[k])
  }

  /** What the search for the pairs in some contents comes to. */
  ghost predicate Finds(sha: Sha, content: seq<Byte>, pairs: seq<Pair>, found: Search) {
    match found
    case Match(data) =>
      && data <= content && (exists k :: FitsAt(sha, content, pairs, k) && pairs[k].size == |data|)
      && forall k :: FitsAt(sha, content, pairs, k) ==> |data| <= pairs[k].size
    case NoMatch(read) =>
      && (forall k :: !FitsAt(sha, content, pairs, k))
      && (read > 0 <==> exists k :: 0 <= k < |pairs| && pairs[k].size <= |content|)
  }

  /** LoadPartitionContents, as applypatch uses it. */
  method SearchPartition(sha: Sha, content: seq<Byte>, pairs: seq<Pair>) returns (found: Search)
    requires WellFormed(pairs)
    ensures Finds(sha, content, pairs, found)
  {
    hide Parsed, LoadPartition.Fits;
    var r, size := LoadPartitionContents(Hashed(sha), content, pairs);
    if r.None? {
      return NoMatch(size);
    }
    ghost var k :| 0 <= k < |pairs| && LoadPartition.Fits(Hashed(sha), content, pairs[k])
                   && pairs[k].size == |r.value.0|;
    assert FitsAt(sha, content, pairs, k);
    return Match(r.value.0);
  }

  /** The name lists these pairs, so that is what is found under it. */
  ghost predicate NameLists(lib: Libraries, name: Path, pairs: seq<Pair>) {
    WellFormed(pairs) && forall content: seq<Byte> :: Finds(lib.sha, content, pairs, lib.search(name, content))
  }

  /** The new version is listed, and none of the shorter versions listed is the front of it. */
  ghost predicate ListsApart(sha: Sha, pairs: seq<Pair>, after: seq<Byte>) {
    && (exists k :: FitsAt(sha, after, pairs, k) && pairs[k].size == |after|)
    && forall k :: FitsAt(sha, after, pairs, k) ==> pairs[k].size >= |after|
  }

  /** A pair that fits the front of some contents fits the contents, and the other way round. */
  lemma FitsFront(sha: Sha, front: seq<Byte>, content: seq<Byte>, pairs: seq<Pair>, k: int)
    requires front <= content && 0 <= k < |pairs| && pairs[k].size <= |front|
    ensures FitsAt(sha, front, pairs, k) <==> FitsAt(sha, content, pairs, k)
  {
    hide Parsed;
    assert front[..pairs[k].size] == content[..pairs[k].size];
  }

  /** Where the new version is, it is found, if the name lists it apart. */
  lemma FoundApart(lib: Libraries, name: Path, pairs: seq<Pair>, after: seq<Byte>, content: seq<Byte>)
    requires NameLists(lib, name, pairs) && ListsApart(lib.sha, pairs, after) && after <= content
    ensures lib.search(name, content) == Match(after)
  {
    hide LoadPartition.Fits, WellFormed;
    assert Finds(lib.sha, content, pairs, lib.search(name, content));
    var k :| FitsAt(lib.sha, after, pairs, k) && pairs[k].size == |after|;
    InPairs(lib.sha, after, pairs, k);
    FitsFront(lib.sha, after, content, pairs, k);
    var data := lib.search(name, content).data;
    var i :| FitsAt(lib.sha, content, pairs, i) && pairs[i].size == |data|;
    InPairs(lib.sha, content, pairs, i);
    FitsFront(lib.sha, after, content, pairs, i);
    assert data == content[..|data|] == after;
  }

  lemma InPairs(sha: Sha, content: seq<Byte>, pairs: seq<Pair>, k: int)
    requires FitsAt(sha, content, pairs, k)
    ensures 0 <= k < |pairs| && pairs[k].size <= |content|
  {
  }

  /**
   A partition that was written is found to hold the target exactly if its name lists the target and no shorter version
   listed there is the front of it.
   */
  lemma RecognisesExact(lib: Libraries, j: Job, pairs: seq<Pair>, after: seq<Byte>)
    requires NameLists(lib, j.Target(), pairs) && Unmistakable(lib.sha, after) && |after| <= j.targetSize
    requires Parsed(j.targetSha1) == Some(lib.sha(after))
    ensures Recognises(lib, j) <==> ListsApart(lib.sha, pairs, after)
  {
    hide Parsed, FitsAt, WellFormed;
    if Recognises(lib, j) {
      assert after[..|after|] == after;
      assert lib.search(j.Target(), after).Match? && lib.search(j.Target(), after).data == after;
      assert Finds(lib.sha, after, pairs, lib.search(j.Target(), after));
    }
    if ListsApart(lib.sha, pairs, after) {
      forall contents: seq<Byte>, n |
        0 <= n <= |contents| && n <= j.targetSize && Parsed(j.targetSha1) == Some(lib.sha(contents[..n]))
        ensures lib.search(j.Target(), contents).Match?
                && Parsed(j.targetSha1) == Some(lib.sha(lib.search(j.Target(), contents).data))
      {
        assert contents[..n] == after;
        FoundApart(lib, j.Target(), pairs, after, contents);
      }
    }
  }

  /** Otherwise the shorter version hides the target: the partition is never found to hold it. */
  lemma FrontHidesTarget(lib: Libraries, j: Job, pairs: seq<Pair>, after: seq<Byte>, k: int,
                         files: map<Path, seq<Byte>>)
    requires NameLists(lib, j.Target(), pairs) && Unmistakable(lib.sha, after) && IsPartition(j.Target())
    requires Parsed(j.targetSha1) == Some(lib.sha(after))
    requires FitsAt(lib.sha, after, pairs, k) && pairs[k].size < |after|
    requires j.Target() in files && after <= files[j.Target()]
    ensures !HasTarget(lib, j, files)
  {
    hide Parsed, FitsAt, WellFormed;
    var content := files[j.Target()];
    assert Finds(lib.sha, content, pairs, lib.search(j.Target(), content));
    InPairs(lib.sha, after, pairs, k);
    FitsFront(lib.sha, after, content, pairs, k);
  }

  /** A source is unread exactly if nothing listed is found, though the partition could hold the least of it. */
  lemma UnreadExact(lib: Libraries, j: Job, pairs: seq<Pair>, files: map<Path, seq<Byte>>)
    requires NameLists(lib, j.source, pairs) && IsPartition(j.source) && j.source in files
    ensures Unread(lib, j, files) <==>
              && (forall k :: !FitsAt(lib.sha, files[j.source], pairs, k))
              && (exists k :: 0 <= k < |pairs| && pairs[k].size <= |files[j.source]|)
  {
    hide FitsAt, WellFormed;
    assert Finds(lib.sha, files[j.source], pairs, lib.search(j.source, files[j.source]));
  }
}
