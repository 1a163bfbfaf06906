/** The mapping table as it is laid out in a block of the reservoir, and the mapping it is read as. */
module BmlTable {
  import opened Common
  import opened Flash
  import opened Bml

  /** A bad block and the block that takes its place, both counted from the begin of the device. */
  datatype Pair = Pair(bad: nat, spare: nat)

  /** An unsigned short, the low byte first. */
  function Word(w: nat): (bytes: seq<Byte>)
    requires w < 0x1_0000
    ensures |bytes| == 2
  {
    [w % 256, w / 256]
  }

  predicate Words(pairs: seq<Pair>) {
    forall k :: 0 <= k < |pairs| ==> pairs[k].bad < 0xffff && pairs[k].spare < 0x1_0000
  }

  function PairBytes(pairs: seq<Pair>): (bytes: seq<Byte>)
    requires Words(pairs)
    ensures |bytes| == 4 * |pairs|
  {
    if pairs == [] then []
    else
      var n := |pairs| - 1;
      PairBytes(pairs[..n]) + Word(pairs[n].bad) + Word(pairs[n].spare)
  }

  /**
   A block with the mark in front, and at 0x1000 the table: a dummy pair, the pairs, and 0xffff, unless the hundred
   places are all taken.
   */
  ghost predicate LaidOut(block: seq<Byte>, pairs: seq<Pair>) {
    && Words(pairs) && |pairs| <= 49 && |block| >= 0x2000
    && block[..4] == ['U' as int, 'P' as int, 'C' as int, 'H' as int]
    && exists between: seq<Byte>, rest: seq<Byte> ::
        && |between| == 0x1000 - 4
        && block == block[..4] + between + Word(0) + Word(0xffff) + PairBytes(pairs) + rest
        && (|pairs| < 49 ==> Word(0xffff) <= rest)
  }

  /** What takes the place of a block: the last pair for it counts. */
  function SpareFor(pairs: seq<Pair>, bad: nat): (spare: Option<nat>) {
    if pairs == [] then None
    else if pairs[|pairs| - 1].bad == bad then Some(pairs[|pairs| - 1].spare)
    else SpareFor(pairs[..|pairs| - 1], bad)
  }

  lemma {:induction false} PairBytesAt(pairs: seq<Pair>, k: nat)
    requires Words(pairs) && k < |pairs|
    ensures PairBytes(pairs)[4 * k..4 * k + 2] == Word(pairs[k].bad)
    ensures PairBytes(pairs)[4 * k + 2..4 * k + 4] == Word(pairs[k].spare)
    decreases |pairs|
  {
    hide Word;
    var n := |pairs| - 1;
    var front := PairBytes(pairs[..n]);
    if k < n {
      PairBytesAt(pairs[..n], k);
      assert PairBytes(pairs)[4 * k..4 * k + 2] == front[4 * k..4 * k + 2];
      assert PairBytes(pairs)[4 * k + 2..4 * k + 4] == front[4 * k + 2..4 * k + 4];
    }
  }

  lemma WordAt(block: seq<Byte>, e: nat, w: nat)
    requires TABLE_OFFSET + 2 * e + 2 <= |block| && w < 0x1_0000
    requires block[0x1000 + 2 * e..0x1000 + 2 * e + 2] == Word(w)
    ensures Entry(block, e) == w
  {
    var b := block[0x1000 + 2 * e..0x1000 + 2 * e + 2];
    assert block[0x1000 + 2 * e] == b[0] == w % 256 && block[0x1000 + 2 * e + 1] == b[1] == w / 256;
  }

  /** What a block is recognised by. */
  lemma HasTableExact(block: seq<Byte>)
    ensures HasTable(block) <==>
              && |block| >= 0x2000
              && block[..4] == ['U' as int, 'P' as int, 'C' as int, 'H' as int]
              && block[0x1000..0x1004] == [0, 0, 0xff, 0xff]
  {
    if |block| >= 0x2000 {
      var b := block[0x1000..0x1004];
      assert b[0] == block[0x1000] && b[1] == block[0x1001] && b[2] == block[0x1002] && b[3] == block[0x1003];
    }
  }

  /** The table is found, and each of its entries is what was laid out. */
  lemma EntriesRead(block: seq<Byte>, pairs: seq<Pair>)
    requires LaidOut(block, pairs)
    ensures HasTable(block)
    ensures forall k :: 0 <= k < |pairs| ==> PairIs(block, pairs[k], k)
    ensures |pairs| < 49 ==> Entry(block, 2 + 2 * |pairs|) == 0xffff
  {
    hide Word, PairBytes, Entry;
    var between, rest :| |between| == 0x1000 - 4
      && block == block[..4] + between + Word(0) + Word(0xffff) + PairBytes(pairs) + rest
      && (|pairs| < 49 ==> Word(0xffff) <= rest);
    var table := PairBytes(pairs);
    assert block[0x1000..0x1002] == Word(0) && block[0x1002..0x1004] == Word(0xffff);
    WordAt(block, 0, 0);
    WordAt(block, 1, 0xffff);
    assert block[0x1004..0x1004 + |table|] == table;
    forall k | 0 <= k < |pairs| ensures PairIs(block, pairs[k], k) {
      PairBytesAt(pairs, k);
      SliceAt(block, 0x1004, |table|, 4 * k, 4 * k + 2);
      SliceAt(block, 0x1004, |table|, 4 * k + 2, 4 * k + 4);
      WordAt(block, 2 + 2 * k, pairs[k].bad);
      WordAt(block, 3 + 2 * k, pairs[k].spare);
    }
    if |pairs| < 49 {
      var at := 0x1004 + |table|;
      assert block[at..] == rest;
      assert block[at..at + 2] == rest[..2] == Word(0xffff);
      WordAt(block, 2 + 2 * |pairs|, 0xffff);
    }
  }

  predicate PairIs(block: seq<Byte>, p: Pair, k: nat)
    requires |block| >= 0x2000 && k < 49
  {
    Entry(block, 2 + 2 * k) == p.bad && Entry(block, 3 + 2 * k) == p.spare
  }

  lemma SliceAt(b: seq<Byte>, at: nat, n: nat, lo: nat, hi: nat)
    requires at + n <= |b| && lo <= hi <= n
    ensures b[at + lo..at + hi] == b[at..at + n][lo..hi]
  {
    var all := b[at..at + n];
    forall k | 0 <= k < hi - lo ensures b[at + lo..at + hi][k] == all[lo..hi][k] {
      assert all[lo..hi][k] == all[lo + k] == b[at + (lo + k)];
    }
  }

  /** Every spare block lies in the reservoir before the block with the table. */
  predicate InReach(pairs: seq<Pair>, at: nat, l: Layout) {
    forall k :: 0 <= k < |pairs| ==> Usable(pairs[k], at, l)
  }

  predicate Usable(p: Pair, at: nat, l: Layout) {
    l.resStart <= p.spare < l.resStart + at
  }

  /** What the mapping says of a block of the partition: where its spare block is in the reservoir, or nothing. */
  predicate Maps(m: seq<nat>, pairs: seq<Pair>, l: Layout, i: nat, otherwise: nat)
    requires i < |m|
  {
    match SpareFor(pairs, l.srcStart + i)
    case Some(spare) => m[i] == spare - l.resStart
    case None => m[i] == otherwise
  }

  lemma {:induction false} SpareForFirst(p: Pair, rest: seq<Pair>, bad: nat)
    ensures SpareFor([p] + rest, bad) ==
              if SpareFor(rest, bad).Some? then SpareFor(rest, bad) else if p.bad == bad then Some(p.spare) else None
    decreases |rest|
  {
    if rest == [] {
      assert [p] + rest == [p];
    } else {
      var n := |rest| - 1;
      SpareForFirst(p, rest[..n], bad);
      assert ([p] + rest)[..n + 1] == [p] + rest[..n];
    }
  }

  /** The mapping with one pair more. */
  function Noted(p: Pair, l: Layout, mapping: seq<nat>): (m: seq<nat>)
    requires |mapping| == l.srcBlocks && l.resStart <= p.spare
    ensures |m| == l.srcBlocks
  {
    if l.srcStart <= p.bad < l.srcStart + l.srcBlocks then mapping[p.bad - l.srcStart := p.spare - l.resStart]
    else mapping
  }

  lemma MapsFirst(m: seq<nat>, p: Pair, rest: seq<Pair>, l: Layout, i: nat, mapping: seq<nat>)
    requires i < |m| == |mapping| == l.srcBlocks && l.resStart <= p.spare
    requires Maps(m, rest, l, i, Noted(p, l, mapping)[i])
    ensures Maps(m, [p] + rest, l, i, mapping[i])
  {
    hide SpareFor;
    SpareForFirst(p, rest, l.srcStart + i);
  }

  /** Where the table ends, and what one pair of it does. */
  lemma ReadStep(block: seq<Byte>, pairs: seq<Pair>, at: nat, l: Layout, k: nat, mapping: seq<nat>)
    requires LaidOut(block, pairs) && k <= |pairs| <= 49 && |block| >= 0x2000 && |mapping| == l.srcBlocks
    ensures ReadTable(block, at, l, 2 + 2 * k, mapping) ==
              if k == |pairs| then Some(mapping)
              else if !Usable(pairs[k], at, l) then None
              else ReadTable(block, at, l, 2 + 2 * (k + 1), Noted(pairs[k], l, mapping))
  {
    hide LaidOut, Entry, HasTable;
    EntriesRead(block, pairs);
    if k < |pairs| {
      assert PairIs(block, pairs[k], k);
      assert pairs[k].bad != 0xffff by { LaidOutSizes(block, pairs); }
    }
  }

  lemma ReachFirst(p: Pair, rest: seq<Pair>, at: nat, l: Layout)
    ensures InReach([p] + rest, at, l) <==> Usable(p, at, l) && InReach(rest, at, l)
  {
    hide Usable;
    var all := [p] + rest;
    assert all[0] == p && forall k :: 0 <= k < |rest| ==> rest[k] == all[k + 1];
    if Usable(p, at, l) && InReach(rest, at, l) {
      forall k | 0 <= k < |all| ensures Usable(all[k], at, l) {
        assert k > 0 ==> all[k] == rest[k - 1];
      }
    }
  }

  /** Reading on from pair `k`. */
  lemma {:induction false} ReadFrom(block: seq<Byte>, pairs: seq<Pair>, at: nat, l: Layout, k: nat, mapping: seq<nat>)
    requires LaidOut(block, pairs) && k <= |pairs| <= 49 && |block| >= 0x2000 && |mapping| == l.srcBlocks
    ensures InReach(pairs[k..], at, l) <==> ReadTable(block, at, l, 2 + 2 * k, mapping).Some?
    ensures InReach(pairs[k..], at, l) ==>
              forall i :: 0 <= i < l.srcBlocks ==>
                Maps(ReadTable(block, at, l, 2 + 2 * k, mapping).value, pairs[k..], l, i, mapping[i])
    decreases |pairs| - k
  {
    hide LaidOut, ReadTable, Maps, Noted;
    ReadStep(block, pairs, at, l, k, mapping);
    var r := ReadTable(block, at, l, 2 + 2 * k, mapping);
    if k == |pairs| {
      assert r.value == mapping;
      forall i | 0 <= i < l.srcBlocks ensures Maps(r.value, pairs[k..], l, i, mapping[i]) {
        NothingMaps(mapping, l, i);
        assert pairs[k..] == [];
      }
    } else {
      hide InReach;
      var p, rest := pairs[k], pairs[k + 1..];
      assert pairs[k..] == [p] + rest;
      ReachFirst(p, rest, at, l);
      if Usable(p, at, l) {
        ReadFrom(block, pairs, at, l, k + 1, Noted(p, l, mapping));
        forall i | InReach(pairs[k..], at, l) && 0 <= i < l.srcBlocks
          ensures Maps(r.value, pairs[k..], l, i, mapping[i])
        {
          MapsFirst(r.value, p, rest, l, i, mapping);
        }
      }
    }
  }

  lemma NothingMaps(mapping: seq<nat>, l: Layout, i: nat)
    requires i < |mapping|
    ensures Maps(mapping, [], l, i, mapping[i])
  {
  }

  lemma LaidOutSizes(block: seq<Byte>, pairs: seq<Pair>)
    requires LaidOut(block, pairs)
    ensures |block| >= 0x2000 && |pairs| <= 49 && Words(pairs)
  {
  }

  /**
   A table that was laid out is found, and read as the mapping it lists, last pairs first; unless a spare block lies
   outside the reservoir, or behind the table, when it is refused.
   */
  lemma TableReadBack(block: seq<Byte>, pairs: seq<Pair>, at: nat, l: Layout)
    requires LaidOut(block, pairs)
    ensures HasTable(block)
    ensures InReach(pairs, at, l) <==> ReadTable(block, at, l, 2, Unmapped(l.srcBlocks)).Some?
    ensures InReach(pairs, at, l) ==>
              forall i :: 0 <= i < l.srcBlocks ==>
                Maps(ReadTable(block, at, l, 2, Unmapped(l.srcBlocks)).value, pairs, l, i, 0xffff)
  {
    hide LaidOut, ReadTable, Entry;
    LaidOutSizes(block, pairs);
    EntriesRead(block, pairs);
    assert pairs[0..] == pairs;
    var none := Unmapped(l.srcBlocks);
    ReadFrom(block, pairs, at, l, 0, none);
    forall i | InReach(pairs, at, l) && 0 <= i < l.srcBlocks
      ensures Maps(ReadTable(block, at, l, 2, none).value, pairs, l, i, 0xffff)
    {
      assert Maps(ReadTable(block, at, l, 2, none).value, pairs[0..], l, i, none[i]);
    }
  }
}
