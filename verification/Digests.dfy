/** ParseSha1 and FindMatchingPatch of applypatch/applypatch.c. */
module Digests {
  import opened Common

  const SHA_DIGEST_SIZE := 20

  /** A hash function, with SHA-1's digest size. */
  type Sha = seq<Byte> -> seq<Byte>

  function HexDigit(c: char): (n: Option<nat>)
    ensures n.Some? ==> n.value < 16
  {
    if '0' <= c <= '9' then Some(c as int - '0' as int)
    else if 'a' <= c <= 'f' then Some(c as int - 'a' as int + 10)
    else if 'A' <= c <= 'F' then Some(c as int - 'A' as int + 10)
    else None
  }

  /** A digit has the value of its place in one of the two rows, and no other character has one. */
  lemma HexDigitExact(c: char, n: nat)
    requires n < 16
    ensures HexDigit(c) == Some(n) <==> c == "0123456789abcdef"[n] || c == "0123456789ABCDEF"[n]
  {
    var lower, upper := "0123456789abcdef", "0123456789ABCDEF";
    assert n < 10 ==> lower[n] == upper[n] == '0' + n as char;
    assert n >= 10 ==> lower[n] == 'a' + (n - 10) as char && upper[n] == 'A' + (n - 10) as char;
  }

  predicate IsHex(s: string) { forall i :: 0 <= i < |s| ==> HexDigit(s[i]).Some? }

  /** Exactly forty hexadecimal digits; their values are the halves of the digest's bytes. */
  predicate Spells(s: string, digest: seq<Byte>) {
    && |s| == 2 * SHA_DIGEST_SIZE && |digest| == SHA_DIGEST_SIZE && IsHex(s)
    && forall k :: 0 <= k < SHA_DIGEST_SIZE ==>
        digest[k] == 16 * HexDigit(s[2 * k]).value + HexDigit(s[2 * k + 1]).value
  }

  /** A string spells at most one digest, and two spellings of a digest differ at most in the case of letters. */
  lemma SpellsOne(s: string, a: seq<Byte>, b: seq<Byte>)
    requires Spells(s, a) && Spells(s, b)
    ensures a == b
  {
    hide HexDigit;
    forall k | 0 <= k < SHA_DIGEST_SIZE ensures a[k] == b[k] {
    }
  }

  lemma SpelledAlike(s: string, t: string, digest: seq<Byte>, i: nat)
    requires Spells(s, digest) && Spells(t, digest) && i < 2 * SHA_DIGEST_SIZE
    ensures HexDigit(s[i]) == HexDigit(t[i])
  {
    hide HexDigit;
    var k := i / 2;
    assert i == 2 * k || i == 2 * k + 1;
    assert digest[k] == 16 * HexDigit(s[2 * k]).value + HexDigit(s[2 * k + 1]).value;
    assert digest[k] == 16 * HexDigit(t[2 * k]).value + HexDigit(t[2 * k + 1]).value;
  }

  function Digit(n: nat): (c: char)
    requires n < 16
    ensures HexDigit(c) == Some(n)
  {
    if n < 10 then '0' + n as char else 'a' + (n - 10) as char
  }

  /** The digest as sha1sum prints it. */
  function Printed(digest: seq<Byte>): (s: string)
    ensures |s| == 2 * |digest|
  {
    if digest == [] then [] else [Digit(digest[0] / 16), Digit(digest[0] % 16)] + Printed(digest[1..])
  }

  lemma {:induction false} PrintedAt(digest: seq<Byte>, k: nat)
    requires k < |digest|
    ensures Printed(digest)[2 * k] == Digit(digest[k] / 16) && Printed(digest)[2 * k + 1] == Digit(digest[k] % 16)
  {
    hide Digit;
    if k == 0 {
    } else {
      PrintedAt(digest[1..], k - 1);
    }
  }

  lemma PrintedHex(digest: seq<Byte>, i: nat)
    requires i < 2 * |digest|
    ensures HexDigit(Printed(digest)[i]).Some?
  {
    hide Printed, HexDigit;
    PrintedAt(digest, i / 2);
    assert i == 2 * (i / 2) || i == 2 * (i / 2) + 1;
  }

  /** What is printed spells the digest. */
  lemma PrintedSpells(digest: seq<Byte>)
    requires |digest| == SHA_DIGEST_SIZE
    ensures Spells(Printed(digest), digest)
  {
    hide Printed, HexDigit, Digit;
    forall i | 0 <= i < 2 * SHA_DIGEST_SIZE ensures HexDigit(Printed(digest)[i]).Some? {
      PrintedHex(digest, i);
    }
    forall k | 0 <= k < SHA_DIGEST_SIZE
      ensures digest[k] == 16 * HexDigit(Printed(digest)[2 * k]).value + HexDigit(Printed(digest)[2 * k + 1]).value
    {
      PrintedAt(digest, k);
    }
  }

  /** What ParseSha1 stores, if it returns 0. */
  ghost function Parsed(s: string): (r: Option<seq<Byte>>)
    ensures r.Some? ==> Spells(s, r.value)
    ensures r.None? ==> forall d :: !Spells(s, d)
  {
    if d: seq<Byte> :| Spells(s, d) then Some(d) else None
  }

  lemma ParsedIs(s: string, digest: seq<Byte>)
    requires Spells(s, digest)
    ensures Parsed(s) == Some(digest)
  {
    hide HexDigit;
    SpellsOne(s, Parsed(s).value, digest);
  }

  method ParseSha1(str: string) returns (digest: Option<seq<Byte>>)
    ensures digest == Parsed(str)
    ensures digest.Some? <==> |str| == 2 * SHA_DIGEST_SIZE && IsHex(str)
    ensures digest.Some? ==> Spells(str, digest.value)
  {
    hide HexDigit, Parsed;
    var d: seq<Byte> := [];
    var high: nat := 0;
    var i := 0;
    while i < 2 * SHA_DIGEST_SIZE
      invariant 0 <= i <= 2 * SHA_DIGEST_SIZE && i <= |str| && |d| == i / 2
      invariant forall k :: 0 <= k < i ==> HexDigit(str[k]).Some?
      invariant forall k :: 0 <= k < i / 2 ==> d[k] == 16 * HexDigit(str[2 * k]).value + HexDigit(str[2 * k + 1]).value
      invariant i % 2 == 1 ==> high == 16 * HexDigit(str[i - 1]).value
    {
      if i == |str| {
        return None;
      }
      var digit := HexDigit(str[i]);
      if digit.None? {
        return None;
      }
      if i % 2 == 0 {
        high := 16 * digit.value;
      } else {
        d := d + [high + digit.value];
      }
      i := i + 1;
    }
    if i != |str| {
      return None;
    }
    ParsedIs(str, d);
    return Some(d);
  }

  /** Whether the k-th string is the digest. */
  ghost predicate Names(shas: seq<string>, k: int, digest: seq<Byte>) {
    0 <= k < |shas| && Parsed(shas[k]) == Some(digest)
  }

  /** The first string that spells the digest, or -1. */
  method FindMatchingPatch(sha1: seq<Byte>, shas: seq<string>) returns (toUse: int)
    ensures -1 <= toUse < |shas|
    ensures toUse >= 0 ==> Names(shas, toUse, sha1)
    ensures forall k :: toUse < 0 || k < toUse ==> !Names(shas, k, sha1)
  {
    hide Parsed;
    var i := 0;
    while i < |shas|
      invariant 0 <= i <= |shas|
      invariant forall k :: 0 <= k < i ==> !Names(shas, k, sha1)
    {
      var patchSha1 := ParseSha1(shas[i]);
      if patchSha1 == Some(sha1) {
        return i;
      }
      i := i + 1;
    }
    return -1;
  }
}
