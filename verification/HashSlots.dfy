/** The slot array of minzip/Hash.c as a value: what it means, and what inserting and removing do to it. */
module HashSlots {
  import opened Common

  /** A slot: never used, holding a tombstone, or holding an item with its hash. */
  datatype Slot<T> = Empty | Tombstone | Full(hashValue: nat, data: T)

  /** The `d`-th slot on the probe path of hash `h`. */
  function Probe(h: nat, d: nat, size: nat): (i: nat)
    requires d < size
    ensures i < size
  {
    var i := h % size + d;
    if i < size then i else i - size
  }

  /** How many steps the probe path of `h` takes to slot `i`. */
  function Distance(h: nat, i: nat, size: nat): (d: nat)
    requires i < size
    ensures d < size && Probe(h, d, size) == i
  {
    var home := h % size;
    if home <= i then i - home else i + size - home
  }

  lemma ProbeDistance(h: nat, d: nat, size: nat)
    requires d < size
    ensures Distance(h, Probe(h, d, size), size) == d
  {
  }

  /** Nothing on the first `d` steps of the probe path of `h` is empty. */
  predicate Occupied<T>(s: seq<Slot<T>>, h: nat, d: nat)
    requires d <= |s|
  {
    forall e :: 0 <= e < d ==> !s[Probe(h, e, |s|)].Empty?
  }

  /** The path from the home slot of every item to the item has no empty slot. */
  predicate Reachable<T>(s: seq<Slot<T>>) {
    forall i :: 0 <= i < |s| && s[i].Full? ==> Occupied(s, s[i].hashValue, Distance(s[i].hashValue, i, |s|))
  }

  function Fulls<T>(s: seq<Slot<T>>): (n: nat) {
    if s == [] then 0 else Fulls(s[..|s| - 1]) + if s[|s| - 1].Full? then 1 else 0
  }

  function Tombstones<T>(s: seq<Slot<T>>): (n: nat) {
    if s == [] then 0 else Tombstones(s[..|s| - 1]) + if s[|s| - 1].Tombstone? then 1 else 0
  }

  lemma {:induction false} CountUpdate<T>(s: seq<Slot<T>>, i: nat, x: Slot<T>)
    requires i < |s|
    ensures Fulls(s[i := x]) == Fulls(s) - (if s[i].Full? then 1 else 0) + (if x.Full? then 1 else 0)
    ensures Tombstones(s[i := x]) ==
              Tombstones(s) - (if s[i].Tombstone? then 1 else 0) + (if x.Tombstone? then 1 else 0)
  {
    var n := |s| - 1;
    if i == n {
      assert s[i := x][..n] == s[..n];
    } else {
      CountUpdate(s[..n], i, x);
      assert s[i := x][..n] == s[..n][i := x];
    }
  }

  lemma {:induction false} NoEmptyCounts<T>(s: seq<Slot<T>>)
    ensures Fulls(s) + Tombstones(s) <= |s|
    ensures (forall i :: 0 <= i < |s| ==> !s[i].Empty?) ==> Fulls(s) + Tombstones(s) == |s|
  {
    if s == [] {
    } else {
      NoEmptyCounts(s[..|s| - 1]);
    }
  }

  /** With fewer occupied slots than slots, a probe path cannot be occupied all the way round. */
  lemma PathHasEmpty<T>(s: seq<Slot<T>>, h: nat, d: nat)
    requires Fulls(s) + Tombstones(s) < |s| && d <= |s| && Occupied(s, h, d)
    ensures d < |s|
  {
    if d >= |s| {
      forall i | 0 <= i < |s| ensures !s[i].Empty? {
        assert !s[Probe(h, Distance(h, i, |s|), |s|)].Empty?;
      }
      NoEmptyCounts(s);
    }
  }

  /**
   The slots hold exactly the map `m`: every item is in the map under its key, with the hash of its key, every
   key of the map is in one slot and one only, and every item can be reached by probing.
   */
  ghost predicate Holds<K, T>(s: seq<Slot<T>>, m: map<K, T>, keyOf: T -> K, hashOf: K -> nat) {
    && |s| > 0
    && Reachable(s)
    && (forall i :: 0 <= i < |s| && s[i].Full? ==>
          var k := keyOf(s[i].data); k in m && m[k] == s[i].data && s[i].hashValue == hashOf(k))
    && (forall k :: k in m ==> keyOf(m[k]) == k && exists i :: 0 <= i < |s| && s[i].Full? && s[i].data == m[k])
    && (forall i, j :: 0 <= i < |s| && 0 <= j < |s| && s[i].Full? && s[j].Full? && keyOf(s[i].data) == keyOf(s[j].data)
          ==> i == j)
  }

  lemma OccupiedUpdate<T>(s: seq<Slot<T>>, i: nat, x: Slot<T>, h: nat, d: nat)
    requires i < |s| && !x.Empty? && d <= |s| && Occupied(s, h, d)
    ensures Occupied(s[i := x], h, d)
  {
  }

  /** Filling the first empty slot on a key's path adds the key. */
  lemma Insert<K, T>(s: seq<Slot<T>>, m: map<K, T>, keyOf: T -> K, hashOf: K -> nat, x: T, d: nat)
    requires Holds(s, m, keyOf, hashOf) && keyOf(x) !in m && d < |s|
    requires Occupied(s, hashOf(keyOf(x)), d) && s[Probe(hashOf(keyOf(x)), d, |s|)].Empty?
    ensures var h := hashOf(keyOf(x));
            Holds(s[Probe(h, d, |s|) := Full(h, x)], m[keyOf(x) := x], keyOf, hashOf)
  {
    var h := hashOf(keyOf(x));
    var i := Probe(h, d, |s|);
    var t := s[i := Full(h, x)];
    forall j | 0 <= j < |t| && t[j].Full? ensures Occupied(t, t[j].hashValue, Distance(t[j].hashValue, j, |t|)) {
      if j == i {
        ProbeDistance(h, d, |s|);
        OccupiedUpdate(s, i, Full(h, x), h, d);
      } else {
        OccupiedUpdate(s, i, Full(h, x), s[j].hashValue, Distance(s[j].hashValue, j, |s|));
      }
    }
    var n := m[keyOf(x) := x];
    forall k | k in n ensures exists j :: 0 <= j < |t| && t[j].Full? && t[j].data == n[k] {
      if k == keyOf(x) {
        assert t[i].Full? && t[i].data == n[k];
      } else {
        var j :| 0 <= j < |s| && s[j].Full? && s[j].data == m[k];
        assert t[j].Full? && t[j].data == n[k];
      }
    }
  }

  /** Putting a tombstone in place of an item removes its key. */
  lemma Remove<K, T>(s: seq<Slot<T>>, m: map<K, T>, keyOf: T -> K, hashOf: K -> nat, i: nat)
    requires Holds(s, m, keyOf, hashOf) && i < |s| && s[i].Full?
    ensures Holds(s[i := Tombstone], m - {keyOf(s[i].data)}, keyOf, hashOf)
  {
    var t, n := s[i := Tombstone], m - {keyOf(s[i].data)};
    forall j | 0 <= j < |t| && t[j].Full? ensures Occupied(t, t[j].hashValue, Distance(t[j].hashValue, j, |t|)) {
      OccupiedUpdate(s, i, Tombstone, s[j].hashValue, Distance(s[j].hashValue, j, |s|));
    }
    forall k | k in n ensures exists j :: 0 <= j < |t| && t[j].Full? && t[j].data == n[k] {
      var j :| 0 <= j < |s| && s[j].Full? && s[j].data == m[k];
      assert t[j].Full? && t[j].data == n[k];
    }
  }

  /** A key that the map has is met on its path before any empty slot. */
  lemma FoundOnPath<K, T>(s: seq<Slot<T>>, m: map<K, T>, keyOf: T -> K, hashOf: K -> nat, k: K) returns (d: nat)
    requires Holds(s, m, keyOf, hashOf) && k in m
    ensures d < |s| && Occupied(s, hashOf(k), d)
    ensures s[Probe(hashOf(k), d, |s|)] == Full(hashOf(k), m[k])
  {
    var i :| 0 <= i < |s| && s[i].Full? && s[i].data == m[k];
    d := Distance(hashOf(k), i, |s|);
  }
}
