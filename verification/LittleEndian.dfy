/** The integer encodings of the patch files: offtout and offtin, Write4, Write8, Read4 and Read8. */
module LittleEndian {
  import opened Common

  function Pow256(n: nat): (p: nat)
    ensures p > 0
  {
    if n == 0 then 1 else 256 * Pow256(n - 1)
  }

  /** The low `n` bytes of `y`, least significant first. */
  function Bytes(y: nat, n: nat): (b: seq<Byte>)
    ensures |b| == n
  {
    if n == 0 then [] else [y % 256] + Bytes(y / 256, n - 1)
  }

  function Value(b: seq<Byte>): (n: nat) {
    if b == [] then 0 else b[0] + 256 * Value(b[1..])
  }

  lemma {:induction false} ValueOfBytes(y: nat, n: nat)
    requires y < Pow256(n)
    ensures Value(Bytes(y, n)) == y
  {
    if n == 0 {
    } else {
      ValueOfBytes(y / 256, n - 1);
      assert Bytes(y, n)[1..] == Bytes(y / 256, n - 1);
    }
  }

  const OFF_T_LIMIT := 0x8000_0000_0000_0000
  const INT_LIMIT := 0x8000_0000

  lemma Powers()
    ensures Pow256(4) == 2 * INT_LIMIT && Pow256(7) * 128 == OFF_T_LIMIT && Pow256(8) == 2 * OFF_T_LIMIT
  {
    assert Pow256(3) == 0x100_0000;
    assert Pow256(4) == 256 * Pow256(3);
    assert Pow256(5) == 256 * Pow256(4);
    assert Pow256(6) == 256 * Pow256(5);
    assert Pow256(7) == 256 * Pow256(6);
    assert Pow256(8) == 256 * Pow256(7);
  }

  /** The sign bit of a byte, and the byte with the sign bit set. */
  predicate HighBit(b: Byte) { b >= 128 }

  function WithHighBit(b: Byte): (byte: Byte) { if HighBit(b) then b else b + 128 }

  /** offtout: the magnitude in little-endian order, with the sign in the top bit of the last byte. */
  function OffTOut(x: int): (b: seq<Byte>)
    ensures |b| == 8
    ensures -OFF_T_LIMIT < x < OFF_T_LIMIT ==> OffTIn(b) == x
  {
    var y := Bytes(if x < 0 then -x else x, 8);
    SignByte(if x < 0 then -x else x);
    if x < 0 then y[..7] + [WithHighBit(y[7])] else y
  }

  /** offtin: the low 63 bits, negated when the top bit is set. */
  function OffTIn(b: seq<Byte>): (r: int)
    requires |b| == 8
  {
    var y: int := Value(b[..7] + [b[7] % 128]);
    if HighBit(b[7]) then -y else y
  }

  lemma SignByte(y: nat)
    ensures |Bytes(y, 8)| == 8
    ensures y < OFF_T_LIMIT ==> !HighBit(Bytes(y, 8)[7]) && Value(Bytes(y, 8)) == y
    ensures y < OFF_T_LIMIT ==> Bytes(y, 8)[..7] + [Bytes(y, 8)[7]] == Bytes(y, 8)
  {
    Powers();
    if y < OFF_T_LIMIT {
      ValueOfBytes(y, 8);
      LastByte(y, 7);
    }
  }

  lemma {:induction false} LastByte(y: nat, n: nat)
    ensures y < 128 * Pow256(n) ==> Bytes(y, n + 1)[n] < 128
  {
    if n > 0 {
      LastByte(y / 256, n - 1);
      assert y < 128 * Pow256(n) ==> y / 256 < 128 * Pow256(n - 1);
    } else {
      assert Bytes(y, 1) == [y % 256] + Bytes(y / 256, 0);
    }
  }

  /** Write4 of an int, in two's complement. */
  function Write4(x: int): (b: seq<Byte>)
    ensures |b| == 4
    ensures -INT_LIMIT <= x < INT_LIMIT ==> Read4(b) == x
  {
    Powers();
    var y := if 0 <= x then x else (x + 2 * INT_LIMIT) % (2 * INT_LIMIT);
    if y < 2 * INT_LIMIT then ValueOfBytes(y, 4); Bytes(y, 4) else Bytes(y, 4)
  }

  /** Read4 gives an int: values from 2^31 up are negative. */
  function Read4(b: seq<Byte>): (r: int)
    requires |b| == 4
  {
    if Value(b) < INT_LIMIT then Value(b) else Value(b) - 2 * INT_LIMIT
  }

  /** Write8 of a non-negative long long. */
  function Write8(x: nat): (b: seq<Byte>)
    ensures |b| == 8
    ensures x < OFF_T_LIMIT ==> Read8(b) == x
  {
    Powers();
    if x < OFF_T_LIMIT then ValueOfBytes(x, 8); Bytes(x, 8) else Bytes(x, 8)
  }

  function Read8(b: seq<Byte>): (r: int)
    requires |b| == 8
  {
    if Value(b) < OFF_T_LIMIT then Value(b) else Value(b) - 2 * OFF_T_LIMIT
  }
}
