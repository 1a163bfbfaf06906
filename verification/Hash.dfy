/** minzip/Hash.c: an open-addressing hash table with tombstones, as a refinement of a map. */
module Hash {
  import opened Common
  import opened Division
  import opened HashSlots

  const LOAD_NUMER := 5
  const LOAD_DENOM := 8

  predicate IsPow2(n: nat) {
    n == 1 || (n > 1 && n % 2 == 0 && IsPow2(n / 2))
  }

  /** The largest initial size: beyond it rounding up to a power of two leaves 32 bits (see RoundUpOverflows). */
  const MAX_SIZE := 0x8000_0000
  const MAX_WORD: bv32 := 0x8000_0000

  /** mzHashSize: the capacity to ask for when `size` items will be added. */
  function HashSize(size: nat): (r: nat)
    ensures forall tableSize: nat :: r <= tableSize ==> size * LOAD_DENOM <= tableSize * LOAD_NUMER
    ensures 0 < r <= 2 * size + 1
  {
    (size * LOAD_DENOM) / LOAD_NUMER + 1
  }

  /** The table is no fuller than the load factor allows. */
  predicate LoadOk(used: nat, size: nat) {
    used * LOAD_DENOM <= size * LOAD_NUMER
  }

  /**
   A table of items of type T, looked up by keys of type K.  The comparison functions passed to the C functions
   compare keys; `keyOf` and `hashOf` say which, for the specification only.
   */
  class HashTable<K(==, !new), T(==, !new)> {
    ghost const keyOf: T -> K
    ghost const hashOf: K -> nat
    var tableSize: nat
    var numEntries: nat
    var numDeadEntries: nat
    var pEntries: array<Slot<T>>
    ghost var Contents: map<K, T>

    ghost predicate Valid()
      reads this, pEntries
    {
      && tableSize == pEntries.Length && IsPow2(tableSize)
      && Holds(pEntries[..], Contents, keyOf, hashOf)
      && numEntries == Fulls(pEntries[..]) && numDeadEntries == Tombstones(pEntries[..])
      && LoadOk(numEntries + numDeadEntries, tableSize)
    }

    /**
     mzHashTableCreate.  RoundUpIsPowerAtLeast says that rounding up in 32 bits gives PowerAtLeast for sizes up to
     MAX_SIZE, and RoundUpOverflows that beyond it gives 0: a table without any slot.
     */
    constructor (size: nat, ghost keyOf: T -> K, ghost hashOf: K -> nat)
      requires 0 < size < 0x1_0000_0000
      ensures fresh(pEntries) && Contents == map[] && numEntries == numDeadEntries == 0
      ensures Valid() <==> size <= MAX_SIZE
      ensures size <= MAX_SIZE ==> IsPow2(tableSize) && size <= tableSize && (tableSize == 1 || tableSize / 2 < size)
      ensures size > MAX_SIZE ==> tableSize == pEntries.Length == 0
      ensures this.keyOf == keyOf && this.hashOf == hashOf
    {
      this.keyOf, this.hashOf := keyOf, hashOf;
      var rounded := if size <= MAX_SIZE then PowerAtLeast(size) else 0;
      tableSize := rounded;
      numEntries, numDeadEntries := 0, 0;
      pEntries := new Slot<T>[rounded](_ => Empty);
      Contents := map[];
      new;
      if size <= MAX_SIZE {
        AllEmpty(pEntries[..]);
      }
    }

    /**
     mzHashTableLookup: the item stored under `key`, or, if there is none, `item` (which is then added), or nothing
     when there is nothing to add.  `matches` is the comparison with the item looked for.
     */
    method Lookup(itemHash: nat, matches: T -> bool, item: Option<T>, ghost key: K) returns (result: Option<T>)
      requires Valid() && itemHash == hashOf(key)
      requires forall x: T :: matches(x) <==> keyOf(x) == key
      requires item.Some? ==> keyOf(item.value) == key
      modifies this, pEntries
      ensures Valid() && (pEntries == old(pEntries) || fresh(pEntries))
      ensures result == if key in old(Contents) then Some(old(Contents)[key]) else item
      ensures Contents == if key in old(Contents) || item.None? then old(Contents) else old(Contents)[key := item.value]
      ensures numEntries == old(numEntries) + if key in old(Contents) || item.None? then 0 else 1
      ensures item.None? ==> pEntries == old(pEntries) && unchanged(this) && unchanged(pEntries)
      ensures if key in old(Contents) || item.None? || LoadOk(old(numEntries + numDeadEntries) + 1, old(tableSize)) then
                tableSize == old(tableSize) && numDeadEntries == old(numDeadEntries)
              else
                tableSize == 2 * old(tableSize) && numDeadEntries == 0
    {
      hide Holds, IsPow2, Fulls, Tombstones;
      var idx, found;
      ghost var d;
      idx, found, d := FindItem(itemHash, matches, key);
      if found {
        return Some(pEntries[idx].data);
      }
      if item.None? {
        return None;
      }
      Insert(pEntries[..], Contents, keyOf, hashOf, item.value, d);
      CountUpdate(pEntries[..], idx, Full(itemHash, item.value));
      ghost var s := pEntries[..];
      pEntries[idx] := Full(itemHash, item.value);
      assert pEntries[..] == s[idx := Full(itemHash, item.value)];
      numEntries := numEntries + 1;
      Contents := Contents[key := item.value];
      if (numEntries + numDeadEntries) * LOAD_DENOM > tableSize * LOAD_NUMER {
        DoublePow2(tableSize);
        Resize(tableSize * 2);
      }
      return item;
    }

    /** The probe loop of mzHashTableLookup. */
    method FindItem(itemHash: nat, matches: T -> bool, ghost key: K) returns (idx: nat, found: bool, ghost d: nat)
      requires Valid() && itemHash == hashOf(key)
      requires forall x: T :: matches(x) <==> keyOf(x) == key
      ensures idx < pEntries.Length && d < pEntries.Length && idx == Probe(itemHash, d, pEntries.Length)
      ensures found <==> key in Contents
      ensures found ==> pEntries[idx].Full? && pEntries[idx].data == Contents[key]
      ensures !found ==> pEntries[idx].Empty? && Occupied(pEntries[..], itemHash, d)
    {
      hide Holds, IsPow2, Fulls, Tombstones, Searched, Probe;
      StartSearch(pEntries[..], Contents, keyOf, hashOf, itemHash, matches);
      d := 0;
      idx := itemHash % tableSize;
      while !pEntries[idx].Empty?
        invariant idx < tableSize && d < tableSize && idx == Probe(itemHash, d, tableSize)
        invariant Searched(pEntries[..], itemHash, d, matches)
        decreases tableSize - d
      {
        if Matching(pEntries[idx], itemHash, matches) {
          FoundIsIt(pEntries[..], Contents, keyOf, hashOf, key, matches, idx);
          return idx, true, d;
        }
        SearchOn(pEntries[..], itemHash, d, matches);
        d := d + 1;
        idx := idx + 1;
        if idx == tableSize {
          // The code leaves the loop here when the table has one slot; that slot is never occupied.
          assert tableSize != 1;
          idx := 0;
        }
      }
      NotFound(pEntries[..], Contents, keyOf, hashOf, key, d, matches);
      return idx, false, d;
    }

    /**
     mzHashTableRemove: the item itself, not merely one with an equal key, is replaced by a tombstone.
     */
    method Remove(itemHash: nat, item: T) returns (removed: bool)
      requires Valid() && itemHash == hashOf(keyOf(item))
      modifies this, pEntries
      ensures Valid() && pEntries == old(pEntries) && tableSize == old(tableSize)
      ensures removed <==> keyOf(item) in old(Contents) && old(Contents)[keyOf(item)] == item
      ensures Contents == if removed then old(Contents) - {keyOf(item)} else old(Contents)
      ensures removed ==> numEntries == old(numEntries) - 1 && numDeadEntries == old(numDeadEntries) + 1
      ensures !removed ==> numEntries == old(numEntries) && numDeadEntries == old(numDeadEntries)
    {
      hide Holds, IsPow2, Fulls, Tombstones, Occupied;
      var idx;
      idx, removed := FindSame(itemHash, item);
      if removed {
        HashSlots.Remove(pEntries[..], Contents, keyOf, hashOf, idx);
        CountUpdate(pEntries[..], idx, Tombstone);
        ghost var s := pEntries[..];
        pEntries[idx] := Tombstone;
        assert pEntries[..] == s[idx := Tombstone];
        numEntries := numEntries - 1;
        numDeadEntries := numDeadEntries + 1;
        Contents := Contents - {keyOf(item)};
      }
    }

    /** The probe loop of mzHashTableRemove, which compares items and not hashes. */
    method FindSame(itemHash: nat, item: T) returns (idx: nat, found: bool)
      requires Valid() && itemHash == hashOf(keyOf(item))
      ensures found <==> keyOf(item) in Contents && Contents[keyOf(item)] == item
      ensures found ==> idx < pEntries.Length && pEntries[idx].Full? && pEntries[idx].data == item
    {
      hide Holds, IsPow2, Fulls, Tombstones, Searched, Probe;
      ghost var same := (x: T) => x == item;
      StartSearch(pEntries[..], Contents, keyOf, hashOf, itemHash, same);
      ghost var d := 0;
      idx := itemHash % tableSize;
      while !pEntries[idx].Empty?
        invariant idx < tableSize && d < tableSize && idx == Probe(itemHash, d, tableSize)
        invariant Searched(pEntries[..], itemHash, d, same)
        decreases tableSize - d
      {
        if pEntries[idx].Full? && pEntries[idx].data == item {
          FoundIsIt(pEntries[..], Contents, keyOf, hashOf, keyOf(item), same, idx);
          return idx, true;
        }
        SearchOn(pEntries[..], itemHash, d, same);
        d := d + 1;
        idx := idx + 1;
        if idx == tableSize {
          assert tableSize != 1;  // see FindItem
          idx := 0;
        }
      }
      NotFound(pEntries[..], Contents, keyOf, hashOf, keyOf(item), d, same);
      return idx, false;
    }

    /** mzHashTableClear, without the calls of the free function. */
    method Clear()
      requires Valid()
      modifies this, pEntries
      ensures Valid() && Contents == map[] && numEntries == numDeadEntries == 0
      ensures pEntries == old(pEntries) && tableSize == old(tableSize)
    {
      var i := 0;
      while i < tableSize
        invariant 0 <= i <= tableSize == pEntries.Length && unchanged(this)
        invariant forall k :: 0 <= k < i ==> pEntries[k].Empty?
      {
        pEntries[i] := Empty;
        i := i + 1;
      }
      AllEmpty(pEntries[..]);
      numEntries, numDeadEntries := 0, 0;
      Contents := map[];
    }

    /** resizeHash: the items move to a new array of slots; the tombstones are dropped. */
    method Resize(newSize: nat)
      requires tableSize == pEntries.Length && IsPow2(newSize)
      requires Holds(pEntries[..], Contents, keyOf, hashOf)
      requires numEntries == Fulls(pEntries[..]) && numDeadEntries == Tombstones(pEntries[..])
      requires newSize > 0 && LoadOk(numEntries, newSize)
      modifies this
      ensures Valid() && fresh(pEntries)
      ensures Contents == old(Contents) && tableSize == newSize
      ensures numEntries == old(numEntries) && numDeadEntries == 0
    {
      hide Holds, Fulls, Tombstones, IsPow2;
      HoldsSome(pEntries[..], Contents, keyOf, hashOf);
      pEntries := Rehash(pEntries, newSize, Contents, keyOf, hashOf);
      tableSize := newSize;
      numDeadEntries := 0;
    }
  }

  /** The loop of resizeHash: every item is put into its place among the new slots. */
  method Rehash<K, T>(entries: array<Slot<T>>, newSize: nat, ghost m: map<K, T>, ghost keyOf: T -> K,
                      ghost hashOf: K -> nat)
      returns (newEntries: array<Slot<T>>)
    requires Holds(entries[..], m, keyOf, hashOf) && newSize > 0 && LoadOk(Fulls(entries[..]), newSize)
    ensures fresh(newEntries) && newEntries.Length == newSize
    ensures Holds(newEntries[..], m, keyOf, hashOf)
    ensures Fulls(newEntries[..]) == Fulls(entries[..]) && Tombstones(newEntries[..]) == 0
  {
    hide Holds, Fulls, Tombstones, Moved;
    ghost var s := entries[..];
    newEntries := new Slot<T>[newSize](_ => Empty);
    ghost var moved: map<K, T> := map[];
    NewSlots(s, newEntries[..], m, keyOf, hashOf, newSize);
    var i := 0;
    while i < entries.Length
      invariant 0 <= i <= entries.Length && entries[..] == s
      invariant Moved(s, newEntries[..], m, moved, keyOf, hashOf, i)
    {
      if entries[i].Full? {
        ghost var t := newEntries[..];
        MoveStarts(s, t, m, moved, keyOf, hashOf, i);
        var newIdx;
        ghost var d;
        newIdx, d := FindEmpty(newEntries, entries[i].hashValue);
        Move(s, t, m, moved, keyOf, hashOf, i, d);
        newEntries[newIdx] := Full(entries[i].hashValue, entries[i].data);
        assert newEntries[..] == t[newIdx := s[i]];
        moved := moved[keyOf(s[i].data) := s[i].data];
      } else {
        Skip(s, newEntries[..], m, moved, keyOf, hashOf, i);
      }
      i := i + 1;
    }
    AllMoved(s, newEntries[..], m, moved, keyOf, hashOf);
  }

  /** The probe loop of resizeHash. */
  method FindEmpty<T>(entries: array<Slot<T>>, hashValue: nat) returns (idx: nat, ghost d: nat)
    requires Fulls(entries[..]) + Tombstones(entries[..]) < entries.Length
    ensures d < entries.Length && idx == Probe(hashValue, d, entries.Length) && entries[idx].Empty?
    ensures Occupied(entries[..], hashValue, d)
  {
    hide Fulls, Tombstones;
    d := 0;
    idx := hashValue % entries.Length;
    while !entries[idx].Empty?
      invariant idx < entries.Length && d < entries.Length && idx == Probe(hashValue, d, entries.Length)
      invariant Occupied(entries[..], hashValue, d)
      decreases entries.Length - d
    {
      PathHasEmpty(entries[..], hashValue, d + 1);
      ProbeNext(hashValue, d, entries.Length);
      idx := if idx + 1 == entries.Length then 0 else idx + 1;
      d := d + 1;
    }
  }

  lemma HoldsSome<K, T>(s: seq<Slot<T>>, m: map<K, T>, keyOf: T -> K, hashOf: K -> nat)
    requires Holds(s, m, keyOf, hashOf)
    ensures |s| > 0
  {
  }

  lemma DoublePow2(n: nat)
    requires IsPow2(n)
    ensures IsPow2(2 * n) && n > 0
  {
  }

  /** The items of the first `i` old slots have been moved to the new slots `t`. */
  ghost predicate Moved<K, T>(s: seq<Slot<T>>, t: seq<Slot<T>>, m: map<K, T>, moved: map<K, T>, keyOf: T -> K,
                              hashOf: K -> nat, i: nat)
  {
    && i <= |s| && Holds(s, m, keyOf, hashOf) && Holds(t, moved, keyOf, hashOf)
    && Fulls(t) == Fulls(s[..i]) && Tombstones(t) == 0 && LoadOk(Fulls(s), |t|)
    && (forall k :: k in moved ==> k in m && m[k] == moved[k])
    && (forall k :: k in moved ==> exists j :: 0 <= j < i && s[j].Full? && keyOf(s[j].data) == k)
    && (forall j :: 0 <= j < i && s[j].Full? ==> keyOf(s[j].data) in moved)
  }

  lemma {:induction false} FullsGrow<T>(s: seq<Slot<T>>, i: nat, j: nat)
    requires i <= j <= |s|
    ensures Fulls(s[..i]) <= Fulls(s[..j])
  {
    if i >= j {
    } else {
      FullsGrow(s, i, j - 1);
      assert s[..j][..j - 1] == s[..j - 1];
    }
  }

  lemma FullsNext<T>(s: seq<Slot<T>>, i: nat)
    requires i < |s|
    ensures Fulls(s[..i + 1]) == Fulls(s[..i]) + if s[i].Full? then 1 else 0
  {
    assert s[..i + 1][..i] == s[..i];
  }

  lemma NewSlots<K, T>(s: seq<Slot<T>>, t: seq<Slot<T>>, m: map<K, T>, keyOf: T -> K, hashOf: K -> nat, newSize: nat)
    requires Holds(s, m, keyOf, hashOf) && |t| == newSize > 0 && LoadOk(Fulls(s), newSize)
    requires forall i :: 0 <= i < |t| ==> t[i].Empty?
    ensures Moved(s, t, m, map[], keyOf, hashOf, 0)
  {
    AllEmpty(t);
  }

  lemma MoveStarts<K, T>(s: seq<Slot<T>>, t: seq<Slot<T>>, m: map<K, T>, moved: map<K, T>, keyOf: T -> K,
                         hashOf: K -> nat, i: nat)
    requires i < |s| && s[i].Full? && Moved(s, t, m, moved, keyOf, hashOf, i)
    ensures |t| > 0 && Fulls(t) + Tombstones(t) < |t|
    ensures Probe(s[i].hashValue, 0, |t|) == s[i].hashValue % |t|
  {
    FullsNext(s, i);
    FullsGrow(s, i + 1, |s|);
    assert s[..|s|] == s;
  }

  lemma Move<K, T>(s: seq<Slot<T>>, t: seq<Slot<T>>, m: map<K, T>, moved: map<K, T>, keyOf: T -> K,
                   hashOf: K -> nat, i: nat, d: nat)
    requires i < |s| && s[i].Full? && Moved(s, t, m, moved, keyOf, hashOf, i) && d < |t|
    requires Occupied(t, s[i].hashValue, d) && t[Probe(s[i].hashValue, d, |t|)].Empty?
    ensures Moved(s, t[Probe(s[i].hashValue, d, |t|) := s[i]], m, moved[keyOf(s[i].data) := s[i].data], keyOf, hashOf,
                  i + 1)
  {
    var h, x := s[i].hashValue, s[i].data;
    assert h == hashOf(keyOf(x)) && keyOf(x) !in moved;
    Insert(t, moved, keyOf, hashOf, x, d);
    CountUpdate(t, Probe(h, d, |t|), Full(h, x));
    FullsNext(s, i);
  }

  lemma Skip<K, T>(s: seq<Slot<T>>, t: seq<Slot<T>>, m: map<K, T>, moved: map<K, T>, keyOf: T -> K,
                   hashOf: K -> nat, i: nat)
    requires i < |s| && !s[i].Full? && Moved(s, t, m, moved, keyOf, hashOf, i)
    ensures Moved(s, t, m, moved, keyOf, hashOf, i + 1)
  {
    FullsNext(s, i);
  }

  lemma AllMoved<K, T>(s: seq<Slot<T>>, t: seq<Slot<T>>, m: map<K, T>, moved: map<K, T>, keyOf: T -> K,
                       hashOf: K -> nat)
    requires Moved(s, t, m, moved, keyOf, hashOf, |s|)
    ensures moved == m && Holds(t, m, keyOf, hashOf) && Fulls(t) == Fulls(s) && Tombstones(t) == 0
  {
    assert s[..|s|] == s;
    forall k | k in m ensures k in moved {
      var i :| 0 <= i < |s| && s[i].Full? && s[i].data == m[k];
    }
    assert moved == m;
  }

  /** The test of the probe loop. */
  predicate Matching<T>(slot: Slot<T>, h: nat, matches: T -> bool) {
    slot.Full? && slot.hashValue == h && matches(slot.data)
  }

  /** The first `d` slots on the probe path are occupied, and none is the one looked for. */
  predicate Searched<T>(s: seq<Slot<T>>, h: nat, d: nat, matches: T -> bool)
    requires d <= |s|
  {
    Occupied(s, h, d) && forall e :: 0 <= e < d ==> !Matching(s[Probe(h, e, |s|)], h, matches)
  }

  lemma StartSearch<K, T>(s: seq<Slot<T>>, m: map<K, T>, keyOf: T -> K, hashOf: K -> nat, h: nat, matches: T -> bool)
    requires Holds(s, m, keyOf, hashOf)
    ensures |s| > 0 && Searched(s, h, 0, matches) && Probe(h, 0, |s|) == h % |s|
  {
  }

  /** There is an empty slot further on, so the search may go on, wrapping around the end of the table. */
  lemma SearchOn<T>(s: seq<Slot<T>>, h: nat, d: nat, matches: T -> bool)
    requires d < |s| && Searched(s, h, d, matches) && LoadOk(Fulls(s) + Tombstones(s), |s|)
    requires !s[Probe(h, d, |s|)].Empty? && !Matching(s[Probe(h, d, |s|)], h, matches)
    ensures d + 1 < |s| && Searched(s, h, d + 1, matches)
    ensures Probe(h, d + 1, |s|) == if Probe(h, d, |s|) + 1 == |s| then 0 else Probe(h, d, |s|) + 1
  {
    hide Probe;
    PathHasEmpty(s, h, d + 1);
    ProbeNext(h, d, |s|);
  }

  lemma ProbeNext(h: nat, d: nat, size: nat)
    requires d + 1 < size
    ensures Probe(h, d + 1, size) == if Probe(h, d, size) + 1 == size then 0 else Probe(h, d, size) + 1
  {
  }

  /** A search that ends at an empty slot has shown that what it looks for is not there. */
  lemma NotFound<K, T>(s: seq<Slot<T>>, m: map<K, T>, keyOf: T -> K, hashOf: K -> nat, key: K, d: nat,
                       matches: T -> bool)
    requires Holds(s, m, keyOf, hashOf)
    requires d < |s| && Searched(s, hashOf(key), d, matches) && s[Probe(hashOf(key), d, |s|)].Empty?
    ensures Occupied(s, hashOf(key), d)
    ensures key in m ==> !matches(m[key]) && keyOf(m[key]) == key
  {
    if key in m {
      var at := FoundOnPath(s, m, keyOf, hashOf, key);
      if matches(m[key]) {
        assert false;
      }
    }
  }

  lemma FoundIsIt<K, T>(s: seq<Slot<T>>, m: map<K, T>, keyOf: T -> K, hashOf: K -> nat, key: K, matches: T -> bool,
                        i: nat)
    requires Holds(s, m, keyOf, hashOf) && i < |s| && s[i].Full? && matches(s[i].data)
    requires matches(s[i].data) ==> keyOf(s[i].data) == key
    ensures key in m && m[key] == s[i].data
  {
  }

  lemma {:induction false} AllEmpty<T>(s: seq<Slot<T>>)
    requires forall i :: 0 <= i < |s| ==> s[i].Empty?
    ensures Fulls(s) == 0 && Tombstones(s) == 0
  {
    if s == [] {
    } else {
      AllEmpty(s[..|s| - 1]);
    }
  }

  /** The least power of two that is at least `n`. */
  function PowerAtLeast(n: nat): (r: nat)
    ensures IsPow2(r) && n <= r && (r == 1 || r / 2 < n)
  {
    if n <= 1 then 1 else 2 * PowerAtLeast((n + 1) / 2)
  }

  lemma {:induction false} LeastPowerUnique(p: nat, q: nat, n: nat)
    requires IsPow2(p) && n <= p && (p == 1 || p / 2 < n)
    requires IsPow2(q) && n <= q && (q == 1 || q / 2 < n)
    ensures p == q
  {
    if p != 1 && q != 1 {
      LeastPowerUnique(p / 2, q / 2, (n + 1) / 2);
    }
  }

  // roundUpPower2, and the mask that replaces a remainder

  function Half(x: bv32): (h: bv32) { x >> 1 }

  predicate Odd(x: bv32) { x & 1 == 1 }

  /** The number a word stands for. */
  function Num(x: bv32): (n: nat)
    decreases x
  {
    if x == 0 then 0 else 2 * Num(Half(x)) + if Odd(x) then 1 else 0
  }

  /** A power of two, in bits. */
  predicate OneBit(x: bv32) { x != 0 && x & (x - 1) == 0 }

  /** For a power of two `r`: the top bit of `w` is the one below that of `r`. */
  predicate JustBelow(w: bv32, r: bv32) { w & (0 - r) == 0 && (r == 1 || w & Half(r) != 0) }

  /** The steps of roundUpPower2 between the first and the last: all bits below the top bit are set. */
  function Smeared(w: bv32): (r: bv32)
    ensures w <= 0x7fff_ffff ==> OneBit(r + 1) && JustBelow(w, r + 1)
  {
    var b := w | (w >> 1);
    var c := b | (b >> 2);
    var d := c | (c >> 4);
    var e := d | (d >> 8);
    e | (e >> 16)
  }

  /** roundUpPower2. */
  function RoundUpPower2(val: bv32): (r: bv32) {
    Smeared(val - 1) + 1
  }

  lemma NumBits(x: bv32)
    ensures Num(x) == 2 * Num(Half(x)) + if Odd(x) then 1 else 0
  {
    if x == 0 {
      assert Half(0) == 0 && !Odd(0);
    }
  }

  lemma NumOfOne()
    ensures Num(1) == 1
  {
    assert Num(0) == 0 && Half(1) == 0 && Odd(1);
  }

  lemma HalfLess(x: bv32)
    requires x != 0
    ensures Half(x) < x
  {
  }

  lemma {:induction false} NumNext(w: bv32)
    requires w != 0xffff_ffff
    ensures Num(w + 1) == Num(w) + 1
    decreases w
  {
    hide Num, Odd, Half;
    NumBits(w);
    NumBits(w + 1);
    if !Odd(w) {
      NextOfEven(w);
    } else {
      NextOfOdd(w);
      HalfOfOdd(w);
      HalfLess(w);
      NumNext(Half(w));
    }
  }

  lemma NextOfEven(w: bv32)
    requires !Odd(w)
    ensures Odd(w + 1) && Half(w + 1) == Half(w)
  {
  }

  lemma NextOfOdd(w: bv32)
    requires Odd(w) && w != 0xffff_ffff
    ensures !Odd(w + 1) && Half(w + 1) == Half(w) + 1
  {
  }

  lemma HalfOfOdd(w: bv32)
    requires Odd(w)
    ensures w != 0 && Half(w) != 0xffff_ffff
  {
  }

  lemma {:induction false} PowersInBits(w: bv32, r: bv32)
    requires OneBit(r) && JustBelow(w, r)
    ensures IsPow2(Num(r)) && Num(w) < Num(r) && (r == 1 || Num(r) <= 2 * Num(w))
    decreases r
  {
    hide Num, Odd, Half, OneBit, JustBelow;
    if r == 1 {
      BelowOne(w);
      NumOfOne();
      NumOfNone();
    } else {
      NumBits(w);
      NumBits(r);
      HalfOneBit(w, r);
      HalfLess(r);
      PowersInBits(Half(w), Half(r));
      if r == 2 {
        BelowTwo(w);
        NumOfOne();
        assert Half(r) == 1 && Num(w) == 1 && Num(r) == 2;
      }
    }
  }

  lemma NumOfNone()
    ensures Num(0) == 0
  {
  }

  lemma BelowOne(w: bv32)
    requires JustBelow(w, 1)
    ensures w == 0
  {
  }

  lemma BelowTwo(w: bv32)
    requires JustBelow(w, 2)
    ensures w == 1 && Half(2) == 1
  {
  }

  lemma HalfOneBit(w: bv32, r: bv32)
    requires OneBit(r) && JustBelow(w, r) && r != 1
    ensures r != 0 && !Odd(r) && OneBit(Half(r)) && (r != 2 ==> Half(r) != 1)
    ensures JustBelow(Half(w), Half(r))
  {
    if r != 2 {
      HalfJustBelow(w, r);
    } else {
      BelowTwo(w);
    }
  }

  lemma HalfJustBelow(w: bv32, r: bv32)
    requires OneBit(r) && JustBelow(w, r) && r != 1 && r != 2
    ensures JustBelow(Half(w), Half(r))
  {
    hide Half;
    HalfMask(w, r);
    HalfTop(w, r);
  }

  lemma HalfMask(w: bv32, r: bv32)
    requires w & (0 - r) == 0 && OneBit(r) && r != 1
    ensures Half(w) & (0 - Half(r)) == 0
  {
  }

  lemma HalfTop(w: bv32, r: bv32)
    requires w & Half(r) != 0 && OneBit(r) && r != 1 && r != 2
    ensures Half(w) & Half(Half(r)) != 0
  {
  }

  /** Rounding up in 32 bits gives the least power of two, as long as that fits. */
  lemma RoundUpIsPowerAtLeast(val: bv32)
    requires 0 < val <= MAX_WORD
    ensures Num(RoundUpPower2(val)) == PowerAtLeast(Num(val))
  {
    hide Num, OneBit, PowerAtLeast, JustBelow, Smeared;
    var r := RoundUpPower2(val);
    PowersInBits(val - 1, r);
    NumNext(val - 1);
    NumOfOne();
    LeastPowerUnique(Num(r), PowerAtLeast(Num(val)), Num(val));
  }

  /** Beyond that, 0 comes out. */
  lemma RoundUpOverflows(val: bv32)
    requires val == 0 || val > MAX_WORD
    ensures RoundUpPower2(val) == 0
  {
  }

  /** `h & (n - 1)` for a power of two `n`, bit by bit. */
  function Masked(h: nat, n: nat): (r: nat) {
    if n <= 1 then 0 else h % 2 + 2 * Masked(h / 2, n / 2)
  }

  /** The code's mask is the remainder the model computes with. */
  lemma {:induction false} MaskIsRemainder(h: nat, n: nat)
    requires IsPow2(n)
    ensures n > 0 && Masked(h, n) == h % n
  {
    if n <= 1 {
    } else {
      MaskIsRemainder(h / 2, n / 2);
      HalfRemainder(h, n / 2);
      assert n == 2 * (n / 2);
    }
  }

  lemma HalfRemainder(h: nat, m: nat)
    requires m > 0
    ensures h % (2 * m) == 2 * (h / 2 % m) + h % 2
  {
    var q, r := h / 2 / m, h / 2 % m;
    DivMod(h / 2, m);
    Associate(m, q);
    var n := 2 * m;
    assert h == q * n + (2 * r + h % 2);
    DivMod(h, n);
    Unique(q, h / n, 2 * r + h % 2, h % n, n);
  }

  lemma Associate(m: nat, q: nat)
    ensures q * (2 * m) == 2 * (q * m)
  {
  }
}
