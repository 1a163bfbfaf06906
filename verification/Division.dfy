/** Division by a variable, one step at a time. */
module Division {
  lemma MulAtLeast(d: int, size: nat)
    requires d >= 1
    ensures d * size >= size
  {
  }

  lemma Distribute(p: int, q: int, size: int)
    ensures (p - q) * size == p * size - q * size
  {
  }

  lemma Unique(p: int, q: int, a: int, b: int, size: nat)
    requires p * size + a == q * size + b && 0 <= a < size && 0 <= b < size
    ensures p == q && a == b
  {
    Distribute(p, q, size);
    Distribute(q, p, size);
    if p > q { MulAtLeast(p - q, size); }
    if p < q { MulAtLeast(q - p, size); }
  }

  lemma DivMod(x: nat, size: nat)
    requires size > 0
    ensures x == (x / size) * size + x % size && 0 <= x % size < size
  {
  }

  lemma Quotient(x: nat, size: nat, q: nat, r: nat)
    requires r < size && x == q * size + r
    ensures x / size == q
  {
    DivMod(x, size);
    Unique(x / size, q, x % size, r, size);
  }

  lemma DivNext(x: nat, size: nat)
    requires size > 0
    ensures (x + size) / size == x / size + 1
    ensures x < size ==> x / size == 0
  {
    DivMod(x, size);
    var q, r := x / size, x % size;
    Distribute(q + 1, q, size);
    Quotient(x + size, size, q + 1, r);
    if x < size {
      Quotient(x, size, 0, x);
    }
  }
}
