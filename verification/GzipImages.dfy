/**
 Images as they are laid out: gzip members (RFC 1952, section 2.3) between bytes in which no member begins.  imgdiff
 reads all of them, and finds their members.
 */
module GzipImages {
  import opened Common
  import opened LittleEndian
  import opened ImgPatch
  import opened ReadImage
  import opened ImgDiff
  import BsDiff

  /** A gzip member: header, deflate stream, check sum and size; or bytes that are no part of one. */
  datatype Part = Gzip(header: seq<Byte>, z: seq<Byte>, crc: seq<Byte>, data: seq<Byte>) | Other(bytes: seq<Byte>)

  function Laid(part: Part): (bytes: seq<Byte>) {
    match part
    case Gzip(header, z, crc, data) => header + z + crc + Bytes(|data|, 4)
    case Other(b) => b
  }

  function Image(parts: seq<Part>): (img: seq<Byte>) {
    if parts == [] then [] else Laid(parts[0]) + Image(parts[1..])
  }

  function Count(parts: seq<Part>): (n: nat) {
    if parts == [] then 0 else (if parts[0].Gzip? then 1 else 0) + Count(parts[1..])
  }

  /** The stream inflates to the data, whatever comes behind it. */
  ghost predicate Inflates(zlib: Zlib, z: seq<Byte>, data: seq<Byte>) {
    forall rest: seq<Byte> :: zlib.inflate(z + rest) == Some(Inflated(data, |z|))
  }

  /** A header with no flags, four bytes of check sum, and data of less than 2 GiB. */
  ghost predicate IsMember(zlib: Zlib, header: seq<Byte>, z: seq<Byte>, crc: seq<Byte>, data: seq<Byte>) {
    && |header| == 10 && header[..4] == [0x1f, 0x8b, 0x08, 0x00] && |crc| == 4
    && Inflates(zlib, z, data) && |data| < INT_LIMIT
  }

  /** No gzip header begins in the bytes, also not one that ends in what follows them or in zeros behind the end. */
  predicate NoHeader(bytes: seq<Byte>, rest: seq<Byte>) {
    forall k :: 0 <= k < |bytes| ==> !MagicAt(bytes + rest, k)
  }

  ghost predicate WellMade(zlib: Zlib, parts: seq<Part>) {
    parts != [] ==>
      && WellMade(zlib, parts[1..])
      && match parts[0]
         case Gzip(header, z, crc, data) => IsMember(zlib, header, z, crc, data)
         case Other(b) => NoHeader(b, Image(parts[1..]))
  }

  /** What the four bytes say. */
  lemma FourBytes(n: nat)
    requires n < 2 * INT_LIMIT
    ensures Value(Bytes(n, 4)) == n
  {
    Powers();
    ValueOfBytes(n, 4);
  }

  /** A member is complete, and ends behind its footer, exactly if the footer gives the size of the data. */
  lemma MemberFate(zlib: Zlib, before: seq<Byte>, header: seq<Byte>, z: seq<Byte>, crc: seq<Byte>, data: seq<Byte>,
                   n: nat, after: seq<Byte>)
    requires IsMember(zlib, header, z, crc, data) && n < 2 * INT_LIMIT
    ensures var img := before + header + z + crc + Bytes(n, 4) + after;
            FateAt(zlib, img, |before|) ==
              if n == |data| then Complete(|before| + 10 + |z| + 8) else BadFooter
  {
    hide Bytes, Value;
    FourBytes(n);
    var img := before + header + z + crc + Bytes(n, 4) + after;
    assert img[|before| + GZIP_HEADER_LEN..] == z + (crc + Bytes(n, 4) + after);
    var end := |before| + GZIP_HEADER_LEN + |z| + GZIP_FOOTER_LEN;
    assert img[end - 4..end] == Bytes(n, 4);
  }

  lemma MagicHere(before: seq<Byte>, header: seq<Byte>, rest: seq<Byte>)
    requires |header| >= 4 && header[..4] == GZIP_MAGIC
    ensures MagicAt(before + (header + rest), |before|)
  {
    assert Padded(before + (header + rest))[|before|..|before| + 4] == header[..4];
  }

  lemma MagicBehind(before: seq<Byte>, img: seq<Byte>, k: nat)
    requires k <= |img|
    ensures MagicAt(before + img, |before| + k) <==> MagicAt(img, k)
  {
    assert Padded(before + img)[|before| + k..|before| + k + 4] == Padded(img)[k..k + 4];
  }

  /** From the begin of a part on, as many members are found as there are, and all are complete. */
  lemma {:induction false} MembersFound(zlib: Zlib, before: seq<Byte>, parts: seq<Part>)
    requires WellMade(zlib, parts)
    ensures var starts := Members(zlib, before + Image(parts), |before|);
            |starts| == Count(parts)
            && forall i :: 0 <= i < |starts| ==> FateAt(zlib, before + Image(parts), starts[i]).Complete?
    decreases |parts|
  {
    hide FateAt, MagicAt, Bytes, IsMember;
    var img := before + Image(parts);
    if parts == [] {
      assert img == before;
    } else {
      var rest := Image(parts[1..]);
      var further := before + Laid(parts[0]);
      assert img == further + rest;
      MembersFound(zlib, further, parts[1..]);
      match parts[0] {
        case Gzip(header, z, crc, data) =>
          MemberHere(zlib, before, header, z, crc, data, rest);
        case Other(b) =>
          forall k | |before| <= k < |further| ensures !MagicAt(img, k) {
            MagicBehind(before, b + rest, k - |before|);
            assert img == before + (b + rest);
          }
          SkipPlain(zlib, img, |before|, |further|);
      }
    }
  }

  lemma MemberHere(zlib: Zlib, before: seq<Byte>, header: seq<Byte>, z: seq<Byte>, crc: seq<Byte>, data: seq<Byte>,
                   rest: seq<Byte>)
    requires IsMember(zlib, header, z, crc, data)
    ensures var member := header + z + crc + Bytes(|data|, 4);
            var img := before + member + rest;
            && |before| < |img| && MagicAt(img, |before|) && NextMagic(img, |before|) == Some(|before|)
            && FateAt(zlib, img, |before|) == Complete(|before + member|)
  {
    hide Bytes, FateAt, MagicAt;
    var member := header + z + crc + Bytes(|data|, 4);
    var img := before + member + rest;
    assert img == before + header + z + crc + Bytes(|data|, 4) + rest;
    MemberFate(zlib, before, header, z, crc, data, |data|, rest);
    assert img == before + (header + (z + crc + Bytes(|data|, 4) + rest));
    MagicHere(before, header, z + crc + Bytes(|data|, 4) + rest);
  }

  /** So such an image is read. */
  lemma WellMadeIsRead(zlib: Zlib, parts: seq<Part>)
    requires WellMade(zlib, parts)
    ensures Verdict(zlib, Image(parts)).Read? && |Members(zlib, Image(parts), 0)| == Count(parts)
  {
    hide Members, FateAt, WellMade;
    assert [] + Image(parts) == Image(parts);
    MembersFound(zlib, [], parts);
    var starts := Members(zlib, Image(parts), 0);
    if starts != [] {
      assert FateAt(zlib, Image(parts), starts[|starts| - 1]).Complete?;
    }
  }

  /** A first member with a wrong size in its footer: the image is refused. */
  lemma WrongSizeIsRefused(zlib: Zlib, header: seq<Byte>, z: seq<Byte>, crc: seq<Byte>, data: seq<Byte>, n: nat,
                           after: seq<Byte>)
    requires IsMember(zlib, header, z, crc, data) && n < 2 * INT_LIMIT && n != |data|
    ensures Verdict(zlib, header + z + crc + Bytes(n, 4) + after).Refused?
  {
    hide Bytes, FateAt, MagicAt;
    var img := header + z + crc + Bytes(n, 4) + after;
    assert [] + header == header;
    MemberFate(zlib, [], header, z, crc, data, n, after);
    assert img == [] + (header + (z + crc + Bytes(n, 4) + after));
    MagicHere([], header, z + crc + Bytes(n, 4) + after);
    assert NextMagic(img, 0) == Some(0);
    assert Members(zlib, img, 0) == [0];
  }

  /** A member whose footer is cut off by the end: the loop runs past it. */
  lemma CutFooterIsOverrun(zlib: Zlib, before: seq<Byte>, header: seq<Byte>, z: seq<Byte>, data: seq<Byte>,
                           tail: seq<Byte>)
    requires |header| == 10 && header[..4] == [0x1f, 0x8b, 0x08, 0x00] && Inflates(zlib, z, data)
    requires |tail| < 8
    ensures FateAt(zlib, before + header + z + tail, |before|).Overrun?
  {
    hide Value;
    var img := before + header + z + tail;
    assert img[|before| + GZIP_HEADER_LEN..] == z + tail;
  }

  /** imgdiff on two such images writes a file exactly if they have as many members, and one is not empty alone. */
  method DiffWellMade(src: seq<Part>, tgt: seq<Part>, zlib: Zlib, zip: seq<Byte> -> seq<Byte>,
                      ghost unzip: seq<Byte> -> seq<Byte>)
      returns (r: Result)
    requires SelfDelimiting(zlib) && BsDiff.Bzip2(zip, unzip) && WellMade(zlib, src) && WellMade(zlib, tgt)
    requires |Image(src)| < INT_LIMIT && |Image(tgt)| < INT_LIMIT
    ensures r.Written? <==>
              && Count(src) == Count(tgt) && (Count(src) == 0 ==> (Image(src) == [] <==> Image(tgt) == []))
    ensures r.Written? && |r.file| < INT_LIMIT ==>
              ImageOf(zlib, unzip, Image(src), r.file) == ImgPatch.Image(Image(tgt))
    ensures !r.Written? ==> r.Refused?
  {
    hide SelfDelimiting, BsDiff.Bzip2, WellMade, Members, Verdict, ImageOf, Image, Count;
    WellMadeIsRead(zlib, src);
    WellMadeIsRead(zlib, tgt);
    r := ImgDiff.ImgDiff(Image(src), Image(tgt), zlib, zip, unzip);
  }
}
