/** mtdutils/bml_over_mtd.c: partitions whose bad blocks are mapped to blocks of a reservoir. */
module Bml {
  import opened Common
  import opened Flash
  import opened Posix
  import opened Division
  import Mtd

  /** No mapping entry. */
  const NONE := 0xffff
  const MARK: seq<Byte> := [0x55, 0x50, 0x43, 0x48]  // "UPCH"
  const TABLE_OFFSET := 0x1000
  const TABLE_SIZE := 100
  const INT_MAX := 0x7fff_ffff

  /** The k-th unsigned short of the mapping table in a block of the reservoir. */
  function Entry(block: seq<Byte>, k: nat): (e: nat)
    requires TABLE_OFFSET + 2 * k + 2 <= |block|
    ensures e <= NONE
  {
    block[TABLE_OFFSET + 2 * k] as int + 256 * block[TABLE_OFFSET + 2 * k + 1] as int
  }

  predicate HasTable(block: seq<Byte>) {
    |block| >= 0x2000 && block[..4] == MARK && Entry(block, 0) == 0 && Entry(block, 1) == NONE
  }

  /** The last good block before `n` that holds a table. */
  function FindTable(blocks: Blocks, bad: set<int>, n: nat): (t: Option<nat>)
    requires n <= |blocks|
    ensures t.Some? ==> t.value < n && HasTable(blocks[t.value])
  {
    if n == 0 then None
    else if n - 1 !in bad && HasTable(blocks[n - 1]) then Some(n - 1)
    else FindTable(blocks, bad, n - 1)
  }

  /** Where the two partitions begin on the device, and how many blocks the source partition has. */
  datatype Layout = Layout(srcStart: nat, srcBlocks: nat, resStart: nat)

  /** The mapping once the pairs of the table from place `e` on are added; None if one leads out of the reservoir. */
  function ReadTable(block: seq<Byte>, at: nat, l: Layout, e: nat, mapping: seq<nat>): (r: Option<seq<nat>>)
    requires |block| >= 0x2000 && |mapping| == l.srcBlocks && e <= TABLE_SIZE + 1
    ensures r.Some? ==> |r.value| == l.srcBlocks
    decreases TABLE_SIZE - e
  {
    if e >= TABLE_SIZE || Entry(block, e) == NONE then Some(mapping)
    else
      var s, d := Entry(block, e), Entry(block, e + 1);
      if d < l.resStart || d >= l.resStart + at then None
      else
        ReadTable(block, at, l, e + 2,
                  if l.srcStart <= s < l.srcStart + l.srcBlocks then mapping[s - l.srcStart := d - l.resStart]
                  else mapping)
  }

  /** Mapped is exactly what is bad, and what it is mapped to is good. */
  predicate Sound(mapping: seq<nat>, srcFlagged: set<int>, resFlagged: set<int>, n: nat)
    requires n <= |mapping|
  {
    forall i :: 0 <= i < n ==>
      && (mapping[i] == NONE <==> i !in srcFlagged)
      && (mapping[i] != NONE ==> mapping[i] !in resFlagged)
  }

  function Unmapped(n: nat): (m: seq<nat>)
    ensures |m| == n
  {
    seq(n, _ => NONE)
  }

  /** Every value is a block before the table or no entry. */
  predicate InReservoir(mapping: seq<nat>, at: nat) {
    forall i :: 0 <= i < |mapping| ==> mapping[i] < at || mapping[i] == NONE
  }

  lemma {:induction false} TableInReservoir(block: seq<Byte>, at: nat, l: Layout, e: nat, mapping: seq<nat>)
    requires |block| >= 0x2000 && |mapping| == l.srcBlocks && e <= TABLE_SIZE + 1 && InReservoir(mapping, at)
    ensures var r := ReadTable(block, at, l, e, mapping); r.Some? ==> InReservoir(r.value, at)
    decreases TABLE_SIZE - e
  {
    hide Entry;
    if e < TABLE_SIZE && Entry(block, e) != NONE {
      var s, d := Entry(block, e), Entry(block, e + 1);
      if !(d < l.resStart || d >= l.resStart + at) {
        TableInReservoir(block, at, l, e + 2,
          if l.srcStart <= s < l.srcStart + l.srcBlocks then mapping[s - l.srcStart := d - l.resStart] else mapping);
      }
    }
  }

  /** The loop over the table. */
  method ParseTable(block: seq<Byte>, at: nat, l: Layout, mapping: array<nat>) returns (found: bool)
    requires |block| >= 0x2000 && mapping.Length == l.srcBlocks
    modifies mapping
    ensures var r := ReadTable(block, at, l, 2, old(mapping[..]));
            found == r.Some? && (found ==> mapping[..] == r.value)
  {
    hide Entry;
    var e := 2;
    while e < TABLE_SIZE && Entry(block, e) != NONE
      invariant 2 <= e <= TABLE_SIZE + 1
      invariant ReadTable(block, at, l, 2, old(mapping[..])) == ReadTable(block, at, l, e, mapping[..])
    {
      var s, d := Entry(block, e), Entry(block, e + 1);
      if d < l.resStart || d >= l.resStart + at {
        return false;
      }
      ghost var before := mapping[..];
      if l.srcStart <= s <= l.srcStart + l.srcBlocks - 1 {
        var target: nat := d - l.resStart;
        mapping[s - l.srcStart] := target;
        assert mapping[..] == before[s - l.srcStart := target];
      }
      e := e + 2;
    }
    return true;
  }

  /** The search for the table, from the end of the reservoir; None also if the table is not acceptable. */
  method SearchTable(res: Device, l: Layout, mapping: array<nat>) returns (found: bool)
    requires res.Valid() && mapping.Length == l.srcBlocks && mapping[..] == Unmapped(l.srcBlocks)
    modifies mapping
    ensures found <==> TableOf(res, l).Some?
    ensures found ==> mapping[..] == TableOf(res, l).value
  {
    hide ReadTable, Entry;
    var curr := |res.blocks|;
    while curr > 0
      invariant 0 <= curr <= |res.blocks| && mapping[..] == Unmapped(l.srcBlocks)
      invariant FindTable(res.blocks, res.Flagged(), |res.blocks|) == FindTable(res.blocks, res.Flagged(), curr)
    {
      curr := curr - 1;
      var bad := res.IsFlagged(curr);
      if bad {
        continue;
      }
      var outcome := res.TryRead(curr);
      if outcome.Fine? && HasTable(outcome.data) {
        found := ParseTable(outcome.data, curr, l, mapping);
        return;
      }
    }
    return false;
  }

  /** The mapping that the blocks of a reservoir describe. */
  function TableIn(blocks: Blocks, flagged: set<int>, l: Layout): (r: Option<seq<nat>>)
    ensures r.Some? ==> |r.value| == l.srcBlocks
  {
    match FindTable(blocks, flagged, |blocks|)
    case None => None
    case Some(at) => ReadTable(blocks[at], at, l, 2, Unmapped(l.srcBlocks))
  }

  ghost function TableOf(res: Device, l: Layout): (r: Option<seq<nat>>)
    reads res
    ensures r.Some? ==> |r.value| == l.srcBlocks
  {
    TableIn(res.blocks, res.Flagged(), l)
  }

  /** The reservoir's blocks and pages are like the source's, and its size fits an int. */
  predicate Suitable(src: Device, res: Device)
    reads res`blocks
  {
    res.blockSize == src.blockSize && res.writeSize == src.writeSize && |res.blocks| * res.blockSize <= INT_MAX
  }

  /**
   CreateBlockMapping: the mapping of the table in a suitable reservoir, given out exactly if there is one and it maps
   exactly the bad blocks, and to good ones.
   */
  method CreateBlockMapping(src: Device, srcStart: nat, res: Device, resStart: nat) returns (r: Option<array<nat>>)
    requires src.Valid() && res.Valid()
    ensures var t := TableOf(res, Layout(srcStart, |src.blocks|, resStart));
            && (r.Some? <==>
                  Suitable(src, res) && t.Some? && Sound(t.value, src.Flagged(), res.Flagged(), |src.blocks|))
            && (r.Some? ==> fresh(r.value) && r.value[..] == t.value)
    ensures r.Some? ==> InReservoir(r.value[..], |res.blocks|)
  {
    hide FindTable, ReadTable, Unmapped, HasTable, InReservoir;
    var l := Layout(srcStart, |src.blocks|, resStart);
    var mapping := new nat[l.srcBlocks](_ => NONE);
    assert mapping[..] == Unmapped(l.srcBlocks) by { EmptyMapping(mapping[..]); }
    if res.blockSize != src.blockSize || res.writeSize != src.writeSize {
      return None;
    }
    if |res.blocks| == 0 || |res.blocks| * res.blockSize > INT_MAX {
      if |res.blocks| == 0 {
        NoTable(res);
      }
      return None;
    }
    var found := SearchTable(res, l, mapping);
    if !found {
      return None;
    }
    TableBefore(res, l);
    var valid := true;
    var curr := 0;
    while curr < |src.blocks|
      invariant 0 <= curr <= |src.blocks|
      invariant mapping[..] == TableOf(res, l).value
      invariant valid <==> Sound(mapping[..], src.Flagged(), res.Flagged(), curr)
    {
      var bad := src.IsFlagged(curr);
      if !bad {
        if mapping[curr] != NONE {
          valid := false;
        }
      } else if mapping[curr] == NONE {
        valid := false;
      } else {
        var alsoBad := res.IsFlagged(mapping[curr]);
        if alsoBad {
          valid := false;
        }
      }
      curr := curr + 1;
    }
    r := if valid then Some(mapping) else None;
  }

  lemma EmptyMapping(m: seq<nat>)
    requires forall i :: 0 <= i < |m| ==> m[i] == NONE
    ensures m == Unmapped(|m|)
  {
  }

  lemma NoTable(res: Device)
    requires res.blocks == []
    ensures FindTable(res.blocks, res.Flagged(), |res.blocks|).None?
  {
  }

  lemma TableBefore(res: Device, l: Layout)
    requires TableOf(res, l).Some?
    ensures InReservoir(TableOf(res, l).value, |res.blocks|)
  {
    var at := FindTable(res.blocks, res.Flagged(), |res.blocks|).value;
    TableInReservoir(res.blocks[at], at, l, 2, Unmapped(l.srcBlocks));
  }

  /** The image cut into blocks, the last one filled up with 0xff. */
  function Cut(image: seq<Byte>, size: nat): (blocks: Blocks)
    requires size > 0
    ensures Uniform(blocks, size)
    decreases |image|
  {
    if image == [] then []
    else if |image| <= size then [image + Filled(0xff, size - |image|)]
    else [image[..size]] + Cut(image[size..], size)
  }

  lemma {:induction false} CutIsImage(image: seq<Byte>, size: nat)
    requires size > 0
    ensures image <= Flat(Cut(image, size)) && |Flat(Cut(image, size))| == Rounded(|image|, size)
    ensures forall i :: |image| <= i < |Flat(Cut(image, size))| ==> Flat(Cut(image, size))[i] == 0xff
    decreases |image|
  {
    if |image| > size {
      CutIsImage(image[size..], size);
      assert image == image[..size] + image[size..];
      assert Cut(image, size)[1..] == Cut(image[size..], size);
    } else if image != [] {
      assert Flat(Cut(image, size)) == image + Filled(0xff, size - |image|);
      assert Rounded(|image| - size, size) == 0;
    }
  }

  function Flat(blocks: Blocks): (bytes: seq<Byte>) {
    if blocks == [] then [] else blocks[0] + Flat(blocks[1..])
  }

  /** numBlocks, as flash_bml_partition computes it. */
  lemma {:induction false} CutCount(image: seq<Byte>, size: nat)
    requires size > 0
    ensures |Cut(image, size)| == (|image| + size - 1) / size
    decreases |image|
  {
    if |image| > size {
      CutCount(image[size..], size);
      assert |image| + size - 1 == (|image[size..]| + size - 1) + size;
      DivNext(|image[size..]| + size - 1, size);
    } else if image != [] {
      DivNext(|image| - 1, size);
    }
  }

  predicate Multiple(at: int, k: int, size: int) { at == k * size }

  lemma MultipleOfNothing(size: int)
    ensures Multiple(0, 0, size)
  {
  }

  lemma MultipleBefore(at: int, k: int, size: int)
    requires Multiple(at, k, size)
    ensures Multiple(at - size, k - 1, size) && Multiple(at + size, k + 1, size)
    ensures k == 0 ==> at == 0
    ensures k > 0 && size > 0 ==> at >= size
  {
    Distribute(k, 1, size);
    Distribute(k, -1, size);
    if k > 0 && size > 0 { MulAtLeast(k, size); }
  }

  /** The n-th block of the image, seen from behind it. */
  lemma {:induction false} CutAt(image: seq<Byte>, size: nat, k: nat, at: nat)
    requires size > 0 && k < |Cut(image, size)| && Multiple(at, k, size)
    ensures at < |image|
    ensures Cut(image, size)[k] == BlockAt(image, at, size)
    decreases k
  {
    if k == 0 {
    } else {
      MultipleBefore(at, k, size);
      CutAt(image[size..], size, k - 1, at - size);
    }
  }

  function BlockAt(image: seq<Byte>, at: nat, size: nat): (bytes: seq<Byte>)
    requires at <= |image|
  {
    if at + size <= |image| then image[at..at + size] else image[at..] + Filled(0xff, at + size - |image|)
  }

  /** Where the logical block `i` is kept. */
  datatype Place = InSource(k: nat) | InReserve(k: nat)

  function PlaceOf(mapping: seq<nat>, i: nat): (place: Place)
    requires i < |mapping|
  {
    if mapping[i] == NONE then InSource(i) else InReserve(mapping[i])
  }

  predicate Placed(mapping: seq<nat>, src: Blocks, res: Blocks) {
    |mapping| == |src| && forall i :: 0 <= i < |mapping| ==> mapping[i] < |res| || mapping[i] == NONE
  }

  /** The logical block `i`. */
  function View(mapping: seq<nat>, src: Blocks, res: Blocks, i: nat): (bytes: seq<Byte>)
    requires Placed(mapping, src, res) && i < |mapping|
  {
    if mapping[i] == NONE then src[i] else res[mapping[i]]
  }

  /** Both partitions after the logical block `i` is stored. */
  function Store(mapping: seq<nat>, src: Blocks, res: Blocks, i: nat, block: seq<Byte>): (r: (Blocks, Blocks))
    requires Placed(mapping, src, res) && i < |mapping|
    ensures Placed(mapping, r.0, r.1)
  {
    if mapping[i] == NONE then (src[i := block], res) else (src, res[mapping[i] := block])
  }

  /** Both partitions after the first `n` blocks are stored, in order. */
  function Flashed(mapping: seq<nat>, src: Blocks, res: Blocks, cut: Blocks, n: nat): (r: (Blocks, Blocks))
    requires Placed(mapping, src, res) && n <= |cut| <= |mapping|
    ensures Placed(mapping, r.0, r.1)
  {
    if n == 0 then (src, res)
    else
      var (s, t) := Flashed(mapping, src, res, cut, n - 1);
      Store(mapping, s, t, n - 1, cut[n - 1])
  }

  /** The last of the first `n` logical blocks that is kept where block `i` is, or -1. */
  function Last(mapping: seq<nat>, i: nat, n: int): (j: int)
    requires i < |mapping| && n <= |mapping|
    ensures -1 <= j && (j >= 0 ==> j < n && PlaceOf(mapping, j) == PlaceOf(mapping, i))
    ensures forall k :: 0 <= k < n && PlaceOf(mapping, k) == PlaceOf(mapping, i) ==> k <= j
    decreases n
  {
    if n <= 0 then -1 else if PlaceOf(mapping, n - 1) == PlaceOf(mapping, i) then n - 1 else Last(mapping, i, n - 1)
  }

  lemma LastIsLater(mapping: seq<nat>, i: nat, n: nat)
    requires i < n <= |mapping|
    ensures i <= Last(mapping, i, n) < n && PlaceOf(mapping, Last(mapping, i, n)) == PlaceOf(mapping, i)
  {
    hide Last;
    assert PlaceOf(mapping, i) == PlaceOf(mapping, i);
  }

  /** What a logical block reads as after flashing: the last block stored in its place, or what it was. */
  lemma {:induction false} FlashedView(mapping: seq<nat>, src: Blocks, res: Blocks, cut: Blocks, n: nat, i: nat)
    requires Placed(mapping, src, res) && n <= |cut| <= |mapping| && i < |mapping|
    ensures var r := Flashed(mapping, src, res, cut, n);
            View(mapping, r.0, r.1, i) ==
            if Last(mapping, i, n) >= 0 then cut[Last(mapping, i, n)] else View(mapping, src, res, i)
    decreases n
  {
    if n == 0 {
    } else {
      FlashedView(mapping, src, res, cut, n - 1, i);
    }
  }

  /** Blocks that are kept in one place are the same. */
  predicate Consistent(mapping: seq<nat>, cut: Blocks)
    requires |cut| <= |mapping|
  {
    forall i, j :: 0 <= i < j < |cut| && PlaceOf(mapping, i) == PlaceOf(mapping, j) ==> cut[i] == cut[j]
  }

  /** Whether the first logical blocks are the blocks of the image. */
  predicate Shows(mapping: seq<nat>, src: Blocks, res: Blocks, cut: Blocks)
    requires Placed(mapping, src, res) && |cut| <= |mapping|
  {
    forall i :: 0 <= i < |cut| ==> View(mapping, src, res, i) == cut[i]
  }

  lemma ShownIsConsistent(mapping: seq<nat>, src: Blocks, res: Blocks, cut: Blocks)
    requires Placed(mapping, src, res) && |cut| <= |mapping| && Shows(mapping, src, res, cut)
    ensures Consistent(mapping, cut)
  {
    hide View, Placed;
    forall i, j | 0 <= i < j < |cut| && PlaceOf(mapping, i) == PlaceOf(mapping, j) ensures cut[i] == cut[j] {
      SharedView(mapping, src, res, i, j);
    }
  }

  lemma FlashedBlock(mapping: seq<nat>, src: Blocks, res: Blocks, cut: Blocks, i: nat)
    requires Placed(mapping, src, res) && i < |cut| <= |mapping| && Consistent(mapping, cut)
    ensures var r := Flashed(mapping, src, res, cut, |cut|); View(mapping, r.0, r.1, i) == cut[i]
  {
    hide Flashed, View, Last, Placed;
    FlashedView(mapping, src, res, cut, |cut|, i);
    LastIsLater(mapping, i, |cut|);
  }

  /** The image is there after flashing exactly if no two different blocks of it share a place. */
  lemma FlashedIsImage(mapping: seq<nat>, src: Blocks, res: Blocks, cut: Blocks)
    requires Placed(mapping, src, res) && |cut| <= |mapping|
    ensures var r := Flashed(mapping, src, res, cut, |cut|);
            Shows(mapping, r.0, r.1, cut) <==> Consistent(mapping, cut)
  {
    hide Flashed, View, Placed, Consistent;
    var r := Flashed(mapping, src, res, cut, |cut|);
    if Shows(mapping, r.0, r.1, cut) {
      ShownIsConsistent(mapping, r.0, r.1, cut);
    }
    if Consistent(mapping, cut) {
      forall i | 0 <= i < |cut| ensures View(mapping, r.0, r.1, i) == cut[i] {
        FlashedBlock(mapping, src, res, cut, i);
      }
    }
  }

  lemma SharedView(mapping: seq<nat>, src: Blocks, res: Blocks, i: nat, j: nat)
    requires Placed(mapping, src, res) && i < |mapping| && j < |mapping| && PlaceOf(mapping, i) == PlaceOf(mapping, j)
    ensures View(mapping, src, res, i) == View(mapping, src, res, j)
  {
  }

  /** No two logical blocks share a place. */
  predicate Injective(mapping: seq<nat>) {
    forall i, j :: 0 <= i < j < |mapping| ==> PlaceOf(mapping, i) != PlaceOf(mapping, j)
  }

  /** The blocks behind the image are as they were. */
  lemma FlashedKeepsRest(mapping: seq<nat>, src: Blocks, res: Blocks, cut: Blocks, i: nat)
    requires Placed(mapping, src, res) && |cut| <= i < |mapping| && Injective(mapping)
    ensures var r := Flashed(mapping, src, res, cut, |cut|);
            View(mapping, r.0, r.1, i) == View(mapping, src, res, i)
  {
    FlashedView(mapping, src, res, cut, |cut|, i);
  }

  function Views(mapping: seq<nat>, src: Blocks, res: Blocks, n: nat): (v: Blocks)
    requires Placed(mapping, src, res) && n <= |mapping|
    ensures |v| == |mapping| - n && forall i :: 0 <= i < |v| ==> v[i] == View(mapping, src, res, n + i)
  {
    seq(|mapping| - n, i requires 0 <= i < |mapping| - n => View(mapping, src, res, n + i))
  }

  lemma {:induction false} FlatJoin(a: Blocks, b: Blocks)
    ensures Flat(a + b) == Flat(a) + Flat(b)
    decreases |a|
  {
    if a == [] {
      assert a + b == b;
    } else {
      assert (a + b)[1..] == a[1..] + b;
      FlatJoin(a[1..], b);
    }
  }

  lemma ViewsSplit(mapping: seq<nat>, src: Blocks, res: Blocks, s: Blocks, t: Blocks, cut: Blocks)
    requires Placed(mapping, src, res) && Placed(mapping, s, t) && |cut| <= |mapping| && Shows(mapping, s, t, cut)
    requires forall i :: |cut| <= i < |mapping| ==> View(mapping, s, t, i) == View(mapping, src, res, i)
    ensures Views(mapping, s, t, 0) == cut + Views(mapping, src, res, |cut|)
  {
    hide View, Placed;
    var v, w := Views(mapping, s, t, 0), cut + Views(mapping, src, res, |cut|);
    forall i | 0 <= i < |mapping| ensures v[i] == w[i] {
      assert v[i] == View(mapping, s, t, 0 + i);
      if i >= |cut| {
        assert w[i] == View(mapping, src, res, |cut| + (i - |cut|));
      }
    }
  }

  /** With an injective mapping: the image in whole blocks, then the old remaining blocks. */
  lemma FlashedViews(mapping: seq<nat>, src: Blocks, res: Blocks, cut: Blocks)
    requires Placed(mapping, src, res) && |cut| <= |mapping| && Injective(mapping)
    ensures var r := Flashed(mapping, src, res, cut, |cut|);
            Flat(Views(mapping, r.0, r.1, 0)) == Flat(cut) + Flat(Views(mapping, src, res, |cut|))
  {
    hide Flashed, View, Flat, Last, Placed;
    var r := Flashed(mapping, src, res, cut, |cut|);
    FlashedIsImage(mapping, src, res, cut);
    forall i | |cut| <= i < |mapping| ensures View(mapping, r.0, r.1, i) == View(mapping, src, res, i) {
      FlashedKeepsRest(mapping, src, res, cut, i);
    }
    ViewsSplit(mapping, src, res, r.0, r.1, cut);
    FlatJoin(cut, Views(mapping, src, res, |cut|));
  }

  /** The next block of the image into the buffer, over 0xff; -1 on a read error, or where the image goes on. */
  method FillBlock(image: seq<Byte>, at: nat, buffer: array<Byte>, reliable: bool) returns (next: int)
    requires at <= |image| && buffer.Length > 0
    modifies buffer
    ensures next == -1 || next == Min(at + buffer.Length, |image|)
    ensures next != -1 ==> buffer[..] == BlockAt(image, at, buffer.Length)
    ensures reliable ==> next != -1
  {
    forall i | 0 <= i < buffer.Length {
      buffer[i] := 0xff;
    }
    var got := 0;
    while got < buffer.Length
      invariant 0 <= got <= buffer.Length && at + got <= |image|
      invariant forall i :: 0 <= i < buffer.Length ==> buffer[i] == if i < got then image[at + i] else 0xff
    {
      var len := ReadFile(image, at + got, buffer.Length - got, reliable, false);
      if len < 0 {
        return -1;
      }
      if len == 0 {
        break;
      }
      forall i | 0 <= i < len {
        buffer[got + i] := image[at + got + i];
      }
      got := got + len;
    }
    return at + got;
  }

  /** bml_over_mtd_write_block: two attempts at one block, which must not be bad. */
  method WriteBlock(dev: Device, k: nat, data: seq<Byte>) returns (ok: bool)
    requires dev.Valid() && k < |dev.blocks| && |data| == dev.blockSize
    modifies dev`blocks, dev`trace
    ensures dev.Valid() && |dev.blocks| == |old(dev.blocks)|
    ensures ok <==> k !in dev.bad && k !in dev.worn
    ensures ok ==> dev.blocks == old(dev.blocks)[k := data]
  {
    hide Uniform;
    ghost var since := |dev.trace|;
    var bad := dev.IsBad(k);
    if bad {
      return false;
    }
    Mtd.OnlyBlockNothing(k, dev.trace);
    var retry := 0;
    while retry < 2
      invariant 0 <= retry <= 2 && (retry == 2 ==> k in dev.worn)
      invariant dev.Valid() && |dev.blocks| == |old(dev.blocks)| && OnlyDiffers(k, old(dev.blocks), dev.blocks)
    {
      ghost var mid := |dev.trace|;
      ok := Mtd.Attempt(dev, k, data, retry);
      Mtd.OnlyBlockLast(k, dev.trace, mid);
      if ok {
        return;
      }
      retry := retry + 1;
    }
    return false;
  }

  /** The blocks of the reservoir, if any are used, are like those of the source. */
  predicate SameSize(mapping: seq<nat>, src: Device, res: Device) {
    forall i :: 0 <= i < |mapping| && mapping[i] != NONE ==> res.blockSize == src.blockSize
  }

  /** One block of the image to its place. */
  method StoreBlock(src: Device, res: Device, mapping: array<nat>, i: nat, data: seq<Byte>) returns (ok: bool)
    requires src.Valid() && res.Valid() && src != res && src.blockSize == |data|
    requires i < mapping.Length && Placed(mapping[..], src.blocks, res.blocks) && SameSize(mapping[..], src, res)
    modifies src`blocks, src`trace, res`blocks, res`trace
    ensures src.Valid() && res.Valid() && |src.blocks| == |old(src.blocks)| && |res.blocks| == |old(res.blocks)|
    ensures ok ==> (src.blocks, res.blocks) == Store(mapping[..], old(src.blocks), old(res.blocks), i, data)
    ensures ok <==> Writable(mapping[..], src, res, i)
  {
    if mapping[i] == NONE {
      ok := WriteBlock(src, i, data);
    } else {
      ok := WriteBlock(res, mapping[i], data);
    }
  }

  /** Every place that is needed for the first `n` blocks can be written. */
  ghost predicate AllWritable(mapping: seq<nat>, src: Device, res: Device, n: int) {
    n <= |mapping| && forall i :: 0 <= i < n ==> Writable(mapping, src, res, i)
  }

  predicate Writable(mapping: seq<nat>, src: Device, res: Device, i: nat)
    requires i < |mapping|
  {
    match PlaceOf(mapping, i)
    case InSource(k) => k !in src.bad && k !in src.worn
    case InReserve(k) => k !in res.bad && k !in res.worn
  }

  /**
   flash_bml_partition.  An image that is too large changes nothing; success means that all its blocks are stored, in
   order, each in its place.  While the image can be read (`reliable`) it succeeds exactly if the image fits and all the
   places that it needs are neither bad nor worn.
   */
  method FlashPartition(src: Device, res: Device, mapping: array<nat>, image: seq<Byte>, reliable: bool)
      returns (r: int)
    requires src.Valid() && res.Valid() && src != res && SameSize(mapping[..], src, res)
    requires Placed(mapping[..], src.blocks, res.blocks)
    modifies src`blocks, src`trace, res`blocks, res`trace
    ensures src.Valid() && res.Valid() && Placed(mapping[..], src.blocks, res.blocks)
    ensures r == 0 || r == -1
    ensures |image| > |old(src.blocks)| * src.blockSize ==>
              r == -1 && src.blocks == old(src.blocks) && res.blocks == old(res.blocks)
    ensures r == 0 ==>
              && |Cut(image, src.blockSize)| <= |mapping[..]|
              && (src.blocks, res.blocks) ==
                 Flashed(mapping[..], old(src.blocks), old(res.blocks), Cut(image, src.blockSize),
                         |Cut(image, src.blockSize)|)
    ensures reliable ==>
              (r == 0 <==>
                 && |image| <= |old(src.blocks)| * src.blockSize
                 && AllWritable(mapping[..], src, res, |Cut(image, src.blockSize)|))
  {
    hide Cut, Store, Writable, Uniform, BlockAt, Multiple;
    if |image| > |src.blocks| * src.blockSize {
      return -1;
    }
    ghost var m, cut := mapping[..], Cut(image, src.blockSize);
    CutFits(image, src.blockSize, |src.blocks|);
    CutCount(image, src.blockSize);
    var numBlocks := (|image| + src.blockSize - 1) / src.blockSize;
    var buffer := new Byte[src.blockSize](_ => 0);
    var curr, at := 0, 0;
    ghost var front := 0;
    assert Multiple(front, 0, src.blockSize) by { MultipleOfNothing(src.blockSize); }
    while curr < numBlocks
      invariant 0 <= curr <= numBlocks == |cut|
      invariant Multiple(front, curr, src.blockSize) && front >= 0 && at == Min(front, |image|)
      invariant src.Valid() && res.Valid() && m == mapping[..] && Placed(m, src.blocks, res.blocks)
      invariant (src.blocks, res.blocks) == Flashed(m, old(src.blocks), old(res.blocks), cut, curr)
      invariant AllWritable(m, src, res, curr)
    {
      CutAt(image, src.blockSize, curr, front);
      at := FillBlock(image, at, buffer, reliable);
      if at == -1 {
        return -1;
      }
      MultipleBefore(front, curr, src.blockSize);
      front := front + src.blockSize;
      var ok := StoreBlock(src, res, mapping, curr, buffer[..]);
      if !ok {
        return -1;
      }
      curr := curr + 1;
    }
    return 0;
  }

  /** An image that is no larger than the partition has no more blocks than it. */
  lemma {:induction false} CutFits(image: seq<Byte>, size: nat, n: nat)
    requires size > 0 && |image| <= n * size
    ensures |Cut(image, size)| <= n
    decreases |image|
  {
    if |image| <= size {
    } else {
      Distribute(n, 1, size);
      CutFits(image[size..], size, n - 1);
    }
  }

  /** No logical block is kept in a block that is reported bad. */
  ghost predicate Readable(mapping: seq<nat>, src: Device, res: Device) {
    forall i :: 0 <= i < |mapping| ==> GoodPlace(mapping, src, res, i)
  }

  predicate GoodPlace(mapping: seq<nat>, src: Device, res: Device, i: nat)
    requires i < |mapping|
  {
    match PlaceOf(mapping, i)
    case InSource(k) => k !in src.bad
    case InReserve(k) => k !in res.bad
  }

  /**
   dump_bml_partition: the logical blocks, one after the other.  While the dump can be written (`reliable`) it succeeds
   if none of them is bad.
   */
  method DumpPartition(src: Device, res: Device, mapping: array<nat>, reliable: bool) returns (r: Option<seq<Byte>>)
    requires src.Valid() && res.Valid() && Placed(mapping[..], src.blocks, res.blocks)
    ensures r.Some? ==> r.value == Flat(Views(mapping[..], src.blocks, res.blocks, 0))
    ensures reliable && Readable(mapping[..], src, res) ==> r.Some?
  {
    hide Flat;
    var file: seq<Byte> := [];
    ghost var all := Views(mapping[..], src.blocks, res.blocks, 0);
    NothingFlat();
    var curr := 0;
    while curr < |src.blocks|
      invariant 0 <= curr <= |src.blocks| && file == Flat(all[..curr])
    {
      var outcome;
      if mapping[curr] == NONE {
        outcome := src.TryRead(curr);
      } else {
        outcome := res.TryRead(mapping[curr]);
      }
      var written: bool := *;
      if reliable {
        written := true;
      }
      assert Readable(mapping[..], src, res) ==> GoodPlace(mapping[..], src, res, curr);
      if !outcome.Fine? || !written {
        return None;
      }
      file := file + outcome.data;
      FlatSnoc(all, curr);
      curr := curr + 1;
    }
    assert all[..curr] == all;
    return Some(file);
  }

  lemma NothingFlat()
    ensures Flat([]) == []
  {
  }

  lemma FlatSnoc(all: Blocks, k: nat)
    requires k < |all|
    ensures Flat(all[..k + 1]) == Flat(all[..k]) + all[k]
  {
    assert all[..k + 1] == all[..k] + [all[k]];
    FlatJoin(all[..k], [all[k]]);
    assert Flat([all[k]]) == all[k];
  }

  // Flashing, and dumping again

  lemma {:induction false} SameTable(before: Blocks, after: Blocks, bad: set<int>, n: nat, at: nat)
    requires n <= |before| == |after| && FindTable(before, bad, n) == Some(at)
    requires forall k :: at <= k < |before| ==> after[k] == before[k]
    ensures FindTable(after, bad, n) == Some(at)
    decreases n
  {
    hide HasTable;
    if n - 1 != at {
      SameTable(before, after, bad, n - 1, at);
    }
  }

  /** Flashing stores nothing behind the block to which the mapping leads at most. */
  lemma {:induction false} FlashedBelow(mapping: seq<nat>, src: Blocks, res: Blocks, cut: Blocks, n: nat, at: nat)
    requires Placed(mapping, src, res) && n <= |cut| <= |mapping| && InReservoir(mapping, at)
    ensures var r := Flashed(mapping, src, res, cut, n);
            |r.0| == |src| && |r.1| == |res| && forall k :: at <= k < |res| ==> r.1[k] == res[k]
    decreases n
  {
    if n == 0 {
    } else {
      FlashedBelow(mapping, src, res, cut, n - 1, at);
    }
  }

  /** The table is where flashing does not come, so the mapping stays what it was. */
  lemma TableStays(src: Blocks, res: Blocks, flagged: set<int>, l: Layout, m: seq<nat>, cut: Blocks)
    requires TableIn(res, flagged, l) == Some(m) && Placed(m, src, res) && |cut| <= |m|
    ensures TableIn(Flashed(m, src, res, cut, |cut|).1, flagged, l) == Some(m)
    ensures |Flashed(m, src, res, cut, |cut|).0| == |src| && |Flashed(m, src, res, cut, |cut|).1| == |res|
  {
    hide ReadTable, Flashed, Placed, InReservoir;
    var at := FindTable(res, flagged, |res|).value;
    assert InReservoir(Unmapped(l.srcBlocks), at) by { UnmappedInReservoir(l.srcBlocks, at); }
    TableInReservoir(res[at], at, l, 2, Unmapped(l.srcBlocks));
    FlashedBelow(m, src, res, cut, |cut|, at);
    SameTable(res, Flashed(m, src, res, cut, |cut|).1, flagged, |res|, at);
  }

  lemma UnmappedInReservoir(n: nat, at: nat)
    ensures InReservoir(Unmapped(n), at)
  {
  }

  /** MEMGETBADBLOCK says 0 for every block. */
  predicate Clean(flagged: set<int>, n: nat) {
    forall k :: 0 <= k < n ==> k !in flagged
  }

  /** The mapping the program works with: that of the table, or, for a partition without bad blocks, the empty one. */
  function MappingFor(suitable: bool, srcFlagged: set<int>, resFlagged: set<int>, res: Blocks, l: Layout)
      : (m: Option<seq<nat>>)
    ensures m.Some? ==> |m.value| == l.srcBlocks
  {
    var t := TableIn(res, resFlagged, l);
    if suitable && t.Some? && Sound(t.value, srcFlagged, resFlagged, l.srcBlocks) then t
    else if Clean(srcFlagged, l.srcBlocks) then Some(Unmapped(l.srcBlocks))
    else None
  }

  ghost function MappingOf(src: Device, res: Device, l: Layout): (m: Option<seq<nat>>)
    reads src, res
  {
    MappingFor(Suitable(src, res), src.Flagged(), res.Flagged(), res.blocks, l)
  }

  /** scan_partition. */
  method ScanPartition(dev: Device) returns (clean: bool)
    requires dev.Valid()
    ensures clean <==> Clean(dev.Flagged(), |dev.blocks|)
  {
    var numBadBlocks := 0;
    var curr := 0;
    while curr < |dev.blocks|
      invariant 0 <= curr <= |dev.blocks| && numBadBlocks >= 0
      invariant numBadBlocks == 0 <==> forall k :: 0 <= k < curr ==> k !in dev.Flagged()
    {
      var bad := dev.IsFlagged(curr);
      if bad {
        numBadBlocks := numBadBlocks + 1;
      }
      curr := curr + 1;
    }
    return numBadBlocks == 0;
  }

  /** The part of main that makes the mapping. */
  method MakeMapping(src: Device, srcStart: nat, res: Device, resStart: nat) returns (r: Option<array<nat>>)
    requires src.Valid() && res.Valid()
    ensures var m := MappingOf(src, res, Layout(srcStart, |src.blocks|, resStart));
            (r.Some? <==> m.Some?) && (r.Some? ==> fresh(r.value) && r.value[..] == m.value)
  {
    hide TableIn, InReservoir, Sound, Unmapped, Clean;
    var clean := ScanPartition(src);
    r := CreateBlockMapping(src, srcStart, res, resStart);
    if r.None? && clean {
      var mapping := new nat[|src.blocks|](_ => NONE);
      EmptyMapping(mapping[..]);
      r := Some(mapping);
    }
  }

  /** It leads to blocks that are there and of the same size, and to none that is reported bad. */
  lemma MappingIsReadable(src: Device, res: Device, l: Layout)
    requires src.Valid() && res.Valid() && l.srcBlocks == |src.blocks| && MappingOf(src, res, l).Some?
    ensures Placed(MappingOf(src, res, l).value, src.blocks, res.blocks)
    ensures Readable(MappingOf(src, res, l).value, src, res) && SameSize(MappingOf(src, res, l).value, src, res)
  {
    hide TableIn, InReservoir;
    var m := MappingOf(src, res, l).value;
    if TableOf(res, l) == Some(m) {
      TableBefore(res, l);
      BelowIsPlaced(m, src.blocks, res.blocks);
    }
    forall i | 0 <= i < |m| ensures GoodPlace(m, src, res, i) {
      assert m[i] == NONE <==> i !in src.Flagged();
    }
  }

  lemma {:induction false} EmptyKeepsReserve(src: Blocks, res: Blocks, cut: Blocks, n: nat)
    requires n <= |cut| <= |src|
    ensures Placed(Unmapped(|src|), src, res)
    ensures var r := Flashed(Unmapped(|src|), src, res, cut, n); |r.0| == |src| && r.1 == res
    decreases n
  {
    if n == 0 {
    } else {
      EmptyKeepsReserve(src, res, cut, n - 1);
    }
  }

  lemma BelowIsPlaced(m: seq<nat>, src: Blocks, res: Blocks)
    requires |m| == |src| && InReservoir(m, |res|)
    ensures Placed(m, src, res)
  {
  }

  /**
   What a dump holds after an image was flashed through the mapping `m`: the logical blocks; in front the image, unless
   two different blocks of it share a place; and if no blocks share a place the rest is as it was.
   */
  ghost predicate DumpOf(m: seq<nat>, src: Blocks, res: Blocks, image: seq<Byte>, size: nat, dump: seq<Byte>)
    requires size > 0
  {
    var cut := Cut(image, size);
    && Placed(m, src, res) && |cut| <= |m|
    && var r := Flashed(m, src, res, cut, |cut|);
       && dump == Flat(Views(m, r.0, r.1, 0))
       && (Consistent(m, cut) ==> image <= dump)
       && (Injective(m) ==> dump == Flat(cut) + Flat(Views(m, src, res, |cut|)))
  }

  lemma DumpFacts(m: seq<nat>, src: Blocks, res: Blocks, image: seq<Byte>, size: nat, dump: seq<Byte>)
    requires size > 0 && Placed(m, src, res) && |Cut(image, size)| <= |m|
    requires var r := Flashed(m, src, res, Cut(image, size), |Cut(image, size)|); dump == Flat(Views(m, r.0, r.1, 0))
    ensures DumpOf(m, src, res, image, size, dump)
  {
    hide Cut, Flat, Flashed, View, Placed, Injective, Consistent;
    var cut := Cut(image, size);
    var r := Flashed(m, src, res, cut, |cut|);
    if Consistent(m, cut) {
      FlashedIsImage(m, src, res, cut);
      CutIsImage(image, size);
      FrontShows(m, r.0, r.1, cut);
    }
    if Injective(m) {
      FlashedViews(m, src, res, cut);
    }
  }

  lemma FrontShows(m: seq<nat>, src: Blocks, res: Blocks, cut: Blocks)
    requires Placed(m, src, res) && |cut| <= |m| && Shows(m, src, res, cut)
    ensures Flat(cut) <= Flat(Views(m, src, res, 0))
  {
    hide View, Placed;
    var v := Views(m, src, res, 0);
    forall i | 0 <= i < |cut| ensures v[i] == cut[i] {
      assert v[i] == View(m, src, res, 0 + i);
    }
    assert v == cut + v[|cut|..];
    FlatJoin(cut, v[|cut|..]);
  }

  /** Flashing leaves the mapping as it was. */
  lemma MappingStays(suitable: bool, srcFlagged: set<int>, resFlagged: set<int>, src: Blocks, res: Blocks, l: Layout,
                     cut: Blocks)
    requires l.srcBlocks == |src| && MappingFor(suitable, srcFlagged, resFlagged, res, l).Some? && |cut| <= |src|
    requires Placed(MappingFor(suitable, srcFlagged, resFlagged, res, l).value, src, res)
    ensures var m := MappingFor(suitable, srcFlagged, resFlagged, res, l);
            var r := Flashed(m.value, src, res, cut, |cut|);
            && |r.0| == |src| && |r.1| == |res|
            && MappingFor(suitable, srcFlagged, resFlagged, r.1, l) == m
  {
    hide Flashed, Placed, TableIn, Sound, Unmapped;
    var m := MappingFor(suitable, srcFlagged, resFlagged, res, l).value;
    if TableIn(res, resFlagged, l) == Some(m) {
      TableStays(src, res, resFlagged, l, m, cut);
    } else {
      EmptyKeepsReserve(src, res, cut, |cut|);
    }
  }

  /**
   The program run twice: an image is flashed, then the partition dumped; each run makes the mapping anew, and the
   second makes the same.  While files can be read and written it succeeds exactly if there is a mapping, the image
   fits, and all the places that it needs can be written.
   */
  method FlashThenDump(src: Device, srcStart: nat, res: Device, resStart: nat, image: seq<Byte>, reliable: bool)
      returns (r: Option<seq<Byte>>, ghost m: Option<seq<nat>>)
    requires src.Valid() && res.Valid() && src != res
    modifies src`blocks, src`trace, res`blocks, res`trace
    ensures src.Valid() && res.Valid()
    ensures m == old(MappingOf(src, res, Layout(srcStart, |src.blocks|, resStart)))
    ensures r.Some? ==>
              && MappingOf(src, res, Layout(srcStart, |src.blocks|, resStart)) == m
              && m.Some? && DumpOf(m.value, old(src.blocks), old(res.blocks), image, src.blockSize, r.value)
    ensures reliable ==>
              (r.Some? <==>
                 && m.Some? && |image| <= |old(src.blocks)| * src.blockSize
                 && AllWritable(m.value, src, res, |Cut(image, src.blockSize)|))
  {
    hide Cut, Flat, Flashed, Views, Placed, Uniform, MappingFor, Readable, DumpOf, AllWritable, SameSize;
    ghost var l := Layout(srcStart, |src.blocks|, resStart);
    ghost var s, t, suitable := src.blocks, res.blocks, Suitable(src, res);
    ghost var srcFlagged, resFlagged := src.Flagged(), res.Flagged();
    m := MappingOf(src, res, l);
    var mapping := MakeMapping(src, srcStart, res, resStart);
    if mapping.None? {
      return None, m;
    }
    MappingIsReadable(src, res, l);
    var flashed := FlashPartition(src, res, mapping.value, image, reliable);
    if flashed != 0 {
      return None, m;
    }
    MappingStays(suitable, srcFlagged, resFlagged, s, t, l, Cut(image, src.blockSize));
    assert src.Flagged() == srcFlagged && res.Flagged() == resFlagged;
    mapping := MakeMapping(src, srcStart, res, resStart);
    r := DumpPartition(src, res, mapping.value, reliable);
    if r.Some? {
      DumpFacts(m.value, s, t, image, src.blockSize, r.value);
    }
  }
}
