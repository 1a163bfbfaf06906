/** The order of entry names in minzip/Zip.c, and what sorting by it gives. */
module ZipNames {
  import opened Common

  /** The comparison of the binary search: strncmp over the shorter length, then the lengths. */
  function Compare(a: seq<Byte>, b: seq<Byte>): (r: int) {
    if a == [] then (if b == [] then 0 else -1)
    else if b == [] then 1
    else if a[0] < b[0] then -1
    else if a[0] > b[0] then 1
    else Compare(a[1..], b[1..])
  }

  predicate Leq(a: seq<Byte>, b: seq<Byte>) { Compare(a, b) <= 0 }

  lemma {:induction false} CompareOpposite(a: seq<Byte>, b: seq<Byte>)
    ensures Compare(a, b) == -Compare(b, a)
    ensures Compare(a, b) == 0 <==> a == b
  {
    if a != [] && b != [] && a[0] == b[0] {
      CompareOpposite(a[1..], b[1..]);
      assert a == [a[0]] + a[1..] && b == [b[0]] + b[1..];
    }
  }

  lemma {:induction false} LeqTransitive(a: seq<Byte>, b: seq<Byte>, c: seq<Byte>)
    requires Leq(a, b) && Leq(b, c)
    ensures Leq(a, c)
  {
    if a != [] && b != [] && c != [] && a[0] == b[0] == c[0] {
      LeqTransitive(a[1..], b[1..], c[1..]);
    }
  }

  /** The names that begin with `z` form an interval. */
  lemma {:induction false} PrefixInterval(z: seq<Byte>, a: seq<Byte>, b: seq<Byte>, c: seq<Byte>)
    requires Leq(a, b) && Leq(b, c) && z <= a && z <= c
    ensures z <= b
  {
    if z == [] {
    } else {
      assert a[0] == z[0] == c[0];
      assert z[1..] <= a[1..] && z[1..] <= c[1..];
      PrefixInterval(z[1..], a[1..], b[1..], c[1..]);
    }
  }

  ghost predicate Sorted(names: seq<seq<Byte>>) {
    forall i, j :: 0 <= i < j < |names| ==> Leq(names[i], names[j])
  }

  /** Inserting a name between the names up to it and the names from it on keeps the list sorted. */
  lemma InsertSorted(names: seq<seq<Byte>>, t: nat, x: seq<Byte>)
    requires t <= |names| && Sorted(names)
    requires forall i :: 0 <= i < t ==> Leq(names[i], x)
    requires forall i :: t <= i < |names| ==> Leq(x, names[i])
    ensures Sorted(names[..t] + [x] + names[t..])
  {
  }
}
