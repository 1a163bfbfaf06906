/**
 The end-of-central-directory record as the two readers find it: parseZipArchive (minzip/Zip.c) scans the file
 backwards for its marker, verify_file (verifier.c) computes its place from the signature footer.
 */
module Eocd {
  import opened Common
  import opened LittleEndian

  const ENDSIG: seq<Byte> := [0x50, 0x4b, 0x05, 0x06]
  const ENDHDR := 22
  const FOOTER_SIZE := 6
  const RSANUMBYTES := 256
  const BUFFER_SIZE := 4096

  predicate MarkerAt(file: seq<Byte>, i: int) {
    0 <= i && i + 4 <= |file| && file[i..i + 4] == ENDSIG
  }

  /** parseZipArchive's backward scan: the last marker that leaves room for the fixed part of the record. */
  method FindEocd(file: seq<Byte>) returns (at: Option<nat>)
    requires |file| >= ENDHDR
    ensures match at
            case Some(p) => IsLastMarker(file, p)
            case None => forall i :: 0 <= i <= |file| - ENDHDR ==> !MarkerAt(file, i)
  {
    var p := |file| - ENDHDR;
    while p >= 0
      invariant -1 <= p <= |file| - ENDHDR
      invariant forall i :: p < i <= |file| - ENDHDR ==> !MarkerAt(file, i)
    {
      if file[p] == ENDSIG[0] && file[p..p + 4] == ENDSIG {
        return Some(p);
      }
      p := p - 1;
    }
    return None;
  }

  predicate IsLastMarker(file: seq<Byte>, p: int) {
    && 0 <= p <= |file| - ENDHDR && MarkerAt(file, p)
    && forall i :: p < i <= |file| - ENDHDR ==> !MarkerAt(file, i)
  }

  /** comment_size and signature_start, from the last six bytes. */
  function CommentSize(file: seq<Byte>): (n: nat)
    requires |file| >= FOOTER_SIZE
  {
    Value(file[|file| - 2..])
  }

  function SignatureStart(file: seq<Byte>): (n: nat)
    requires |file| >= FOOTER_SIZE
  {
    Value(file[|file| - 6..|file| - 4])
  }

  /** Everything verify_file checks before it starts to hash. */
  predicate FooterOk(file: seq<Byte>) {
    && |file| >= FOOTER_SIZE
    && file[|file| - 4] == 0xff && file[|file| - 3] == 0xff
    && SignatureStart(file) - FOOTER_SIZE >= RSANUMBYTES
    && CommentSize(file) + ENDHDR <= |file|
    && var eocd := |file| - (CommentSize(file) + ENDHDR);
    && MarkerAt(file, eocd)
    && forall i :: eocd + 4 <= i < |file| - 3 ==> !MarkerAt(file, i)
  }

  /** How much of the file is hashed: up to, and not including, the comment length field. */
  function SignedLength(file: seq<Byte>): (n: nat)
    requires |file| >= FOOTER_SIZE && CommentSize(file) + ENDHDR <= |file|
  {
    |file| - (CommentSize(file) + ENDHDR) + ENDHDR - 2
  }

  /** Success, Failure: VERIFY_SUCCESS and VERIFY_FAILURE.  Undefined: bytes before the record in memory are read. */
  datatype Verdict = Success | Failure | Undefined

  /** The RSA block ends where the footer begins. */
  function Block(file: seq<Byte>): (block: seq<Byte>)
    requires |file| >= FOOTER_SIZE + RSANUMBYTES
  {
    file[|file| - FOOTER_SIZE - RSANUMBYTES..|file| - FOOTER_SIZE]
  }

  /** The comment is long enough for the record to hold the RSA block. */
  predicate HoldsBlock(file: seq<Byte>)
    requires |file| >= FOOTER_SIZE
  {
    CommentSize(file) + ENDHDR >= FOOTER_SIZE + RSANUMBYTES
  }

  /** One of the keys verifies the file's RSA block against the hash of the signed part. */
  ghost predicate Verifies<Key(!new), Digest>(file: seq<Byte>, keys: seq<Key>, sha: seq<Byte> -> Digest,
                                              rsaVerify: (Key, seq<Byte>, Digest) -> bool)
    requires FooterOk(file) && HoldsBlock(file)
  {
    exists key :: key in keys && rsaVerify(key, Block(file), sha(file[..SignedLength(file)]))
  }

  /**
   verify_file: the checks, the marker scan over the record, the loop that hashes the signed part piece by piece, and
   the loop over the keys, each of which is given the RSA block.  A record too short for the block is not noticed.
   */
  method VerifyFile<Key(!new), Digest>(file: seq<Byte>, keys: seq<Key>, sha: seq<Byte> -> Digest,
                                       rsaVerify: (Key, seq<Byte>, Digest) -> bool)
      returns (verdict: Verdict)
    ensures verdict.Success? <==> FooterOk(file) && HoldsBlock(file) && Verifies(file, keys, sha, rsaVerify)
    ensures verdict.Undefined? <==> FooterOk(file) && !HoldsBlock(file) && keys != []
  {
    if |file| < FOOTER_SIZE {
      return Failure;
    }
    var footer := file[|file| - FOOTER_SIZE..];
    assert footer[2] == file[|file| - 4] && footer[3] == file[|file| - 3];
    if footer[2] != 0xff || footer[3] != 0xff {
      return Failure;
    }
    TwoBytes(file[|file| - 2..]);
    TwoBytes(file[|file| - 6..|file| - 4]);
    var commentSize: nat, signatureStart: nat := footer[4] as int + 256 * footer[5] as int,
                                                 footer[0] as int + 256 * footer[1] as int;
    if signatureStart - FOOTER_SIZE < RSANUMBYTES {
      return Failure;
    }
    var eocdSize := commentSize + ENDHDR;
    if eocdSize > |file| {
      return Failure;
    }
    var signedLen := |file| - eocdSize + ENDHDR - 2;
    var eocd := file[|file| - eocdSize..];
    assert eocd[..4] == file[|file| - eocdSize..|file| - eocdSize + 4];
    if eocd[..4] != ENDSIG {
      return Failure;
    }
    var i := 4;
    while i < eocdSize - 3
      invariant 4 <= i <= eocdSize
      invariant forall k :: |file| - eocdSize + 4 <= k < |file| - eocdSize + i && k < |file| - 3 ==> !MarkerAt(file, k)
    {
      assert eocd[i..i + 4] == file[|file| - eocdSize + i..|file| - eocdSize + i + 4];
      if eocd[i..i + 4] == ENDSIG {
        assert MarkerAt(file, |file| - eocdSize + i);
        return Failure;
      }
      i := i + 1;
    }
    var hashed: seq<Byte> := [];
    while |hashed| < signedLen
      invariant |hashed| <= signedLen && hashed == file[..|hashed|]
    {
      var size := if signedLen - |hashed| < BUFFER_SIZE then signedLen - |hashed| else BUFFER_SIZE;
      assert file[..|hashed| + size] == file[..|hashed|] + file[|hashed|..|hashed| + size];
      hashed := hashed + file[|hashed|..|hashed| + size];
    }
    var digest, start := sha(hashed), eocdSize - FOOTER_SIZE - RSANUMBYTES;
    assert hashed == file[..SignedLength(file)];
    i := 0;
    while i < |keys|
      invariant 0 <= i <= |keys| && (start < 0 ==> i == 0)
      invariant start >= 0 ==> forall k :: 0 <= k < i ==> !rsaVerify(keys[k], Block(file), digest)
    {
      if start < 0 {
        return Undefined;
      }
      assert eocd[start..start + RSANUMBYTES] == Block(file);
      if rsaVerify(keys[i], eocd[start..start + RSANUMBYTES], digest) {
        return Success;
      }
      i := i + 1;
    }
    return Failure;
  }

  lemma TwoBytes(b: seq<Byte>)
    requires |b| == 2
    ensures Value(b) == b[0] as int + 256 * b[1] as int
  {
    assert b[1..] == [b[1]] && [b[1]][1..] == [];
    assert Value([b[1]]) == b[1];
  }

  /**
   Of a file that passes the checks, the RSA block lies in the record exactly if the comment has 240 bytes, and apart
   from the signed part exactly if it has 260.
   */
  lemma BlockPlace(file: seq<Byte>)
    requires FooterOk(file)
    ensures HoldsBlock(file) <==> CommentSize(file) >= 240
    ensures HoldsBlock(file) ==> var block := |file| - FOOTER_SIZE - RSANUMBYTES;
                                 && |file| - (CommentSize(file) + ENDHDR) <= block
                                 && file[block..block + RSANUMBYTES] == Block(file)
                                 && (SignedLength(file) <= block <==> CommentSize(file) >= 260)
  {
  }

  /**
   A signed package as it is laid out: the signed part, which ends behind the directory's place in the end record; the
   length of the comment; and a comment that ends with the RSA block and the six bytes of the footer.
   */
  lemma SignedLayout(signed: seq<Byte>, length: seq<Byte>, comment: seq<Byte>, block: seq<Byte>, footer: seq<Byte>)
    requires |length| == 2 && Value(length) == |comment + block + footer| && |signed| >= ENDHDR - 2
    requires |block| == RSANUMBYTES && |footer| == FOOTER_SIZE && footer[4..] == length
    ensures var file := signed + length + (comment + block + footer);
            && CommentSize(file) + ENDHDR <= |file| && file[..SignedLength(file)] == signed && Block(file) == block
            && HoldsBlock(file)
  {
    var file := signed + length + (comment + block + footer);
    assert file[|file| - 2..] == footer[4..];
    assert file == signed + (length + (comment + block + footer));
    assert file[|file| - FOOTER_SIZE - RSANUMBYTES..|file| - FOOTER_SIZE] == block;
  }

  /** The check of signature_start does not make sure of that: a file whose comment is nothing but the footer. */
  lemma ChecksLetShortCommentPass(record: seq<Byte>)
    requires |record| == 18 && forall b :: b in record ==> b == 0
    ensures var file := ENDSIG + record + [6, 1, 0xff, 0xff, 6, 0]; FooterOk(file) && !HoldsBlock(file)
  {
    var file := ENDSIG + record + [6, 1, 0xff, 0xff, 6, 0];
    assert |file| == 28 && file[26..] == [6, 0] && file[22..24] == [6, 1];
    TwoBytes(file[26..]);
    TwoBytes(file[22..24]);
    assert file[0..4] == ENDSIG;
    forall i | 4 <= i < 25 ensures !MarkerAt(file, i) {
      assert file[i..i + 4][0] == file[i] && (i < 22 ==> file[i] == record[i - 4] && record[i - 4] in record);
      assert file[i] != 0x50 && ENDSIG[0] == 0x50;
    }
  }

  /**
   The two readers agree: on a file whose footer passes verify_file's checks, the only record parseZipArchive can
   settle on is the one whose place the footer gives, and the entry count and directory offset it reads there lie
   inside the signed part.
   */
  lemma ReadersAgree(file: seq<Byte>, p: nat)
    requires FooterOk(file)
    ensures IsLastMarker(file, p) <==> p == |file| - CommentSize(file) - ENDHDR
    ensures IsLastMarker(file, p) ==> p + 8 + 2 <= SignedLength(file) && p + 16 + 4 <= SignedLength(file)
  {
    var eocd := |file| - (CommentSize(file) + ENDHDR);
    assert file[eocd..eocd + 4] == ENDSIG;
    forall i | eocd < i <= |file| - ENDHDR ensures !MarkerAt(file, i) {
      if i < eocd + 4 {
        InsideMarker(file, eocd, i);
      }
    }
  }

  /** The marker does not overlap with itself. */
  lemma InsideMarker(file: seq<Byte>, e: nat, i: nat)
    requires MarkerAt(file, e) && e < i < e + 4
    ensures !MarkerAt(file, i)
  {
    MarkerBytes(file, e);
    assert file[i] == ENDSIG[i - e] && ENDSIG[i - e] != ENDSIG[0];
    if MarkerAt(file, i) {
      MarkerBytes(file, i);
    }
  }

  lemma MarkerBytes(file: seq<Byte>, i: nat)
    requires MarkerAt(file, i)
    ensures forall k :: i <= k < i + 4 ==> file[k] == ENDSIG[k - i]
  {
    assert forall k :: i <= k < i + 4 ==> file[k] == file[i..i + 4][k - i];
  }
}
