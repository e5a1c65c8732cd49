/** The format sniffer: classifies a stream by its first four bytes and renders those bytes as a
    diagnostic tag. */
module Sniff {
  import opened Formats

  /** The 16-bit little-endian value of two bytes. */
  function LittleEndian16(lo: byte, hi: byte): (v: nat)
    ensures v < 0x1_0000
  {
    lo as int + 256 * hi as int
  }

  /** The 4-byte magic of each recognised container (KTX2 and PNG are matched on a prefix only). */
  const ZIM_MAGIC: seq<byte> := [0x5A, 0x49, 0x4D, 0x47]   // "ZIMG"
  const DDS_MAGIC: seq<byte> := [0x44, 0x44, 0x53, 0x20]   // "DDS "
  const PNG_MAGIC: seq<byte> := [0x89, 0x50, 0x4E, 0x47]   // 0x89 "PNG"
  const KTX2_MAGIC: seq<byte> := [0xAB, 0x4B, 0x54, 0x58]  // 0xAB "KTX"

  /** Classifies a 4-byte magic. The tests run in the source's order; a stream starting "sB" whose
      version is below 0x10 is INVALID without trying the later tests. */
  function IdentifyMagic(m: seq<byte>): (r: ReplacedImageType)
    requires |m| == 4
    ensures r == ZIM <==> m == ZIM_MAGIC
    ensures r == PNG <==> m == PNG_MAGIC
    ensures r == DDS <==> m == DDS_MAGIC
    ensures r == BASIS <==> m[0] as int == 's' as int && m[1] as int == 'B' as int && LittleEndian16(m[2], m[3]) >= 0x10
    ensures r == KTX2 <==> m == KTX2_MAGIC
  {
    if m == ZIM_MAGIC then ZIM
    else if m[0] == 0x89 && m[1..] == Ascii("PNG") then PNG
    else if m == DDS_MAGIC then DDS
    else if m[0] as int == 's' as int && m[1] as int == 'B' as int then
      (if LittleEndian16(m[2], m[3]) >= 0x10 then BASIS else INVALID)
    else if m == KTX2_MAGIC then KTX2
    else INVALID
  }

  /** The byte read as a signed 8-bit value, as the diagnostic loop does. */
  function Signed8(b: int): int
    requires 0 <= b < 256
  {
    if b < 128 then b else b - 256
  }

  /** A byte that the diagnostic tag shows as itself: 32 to 127, that is printable ASCII and DEL. */
  predicate ShownAsIs(b: byte) {
    32 <= b as int < 128
  }

  /** Reads up to four bytes (`head` is what the read returned) and classifies them. A short read
      yields the tag "FAIL" and INVALID; otherwise the tag is the magic with every byte below 32
      or above 127 (negative as a signed char) replaced by '_'. */
  method Identify(head: seq<byte>) returns (magic: string, kind: ReplacedImageType)
    ensures |head| < 4 ==> magic == "FAIL" && kind == INVALID
    ensures |head| >= 4 ==> kind == IdentifyMagic(head[..4]) && |magic| == 4
    ensures |head| >= 4 ==> forall i :: 0 <= i < 4 ==>
      magic[i] == if ShownAsIs(head[i]) then head[i] as int as char else '_'
    ensures forall i :: 0 <= i < |magic| ==> 32 <= magic[i] as int < 128
  {
    if |head| < 4 {
      return "FAIL", INVALID;
    }
    magic := seq(4, k requires 0 <= k < 4 => head[k] as int as char);
    var i := 0;
    while i < |magic|
      invariant 0 <= i <= |magic| == 4
      invariant forall k :: 0 <= k < i ==>
        magic[k] == if ShownAsIs(head[k]) then head[k] as int as char else '_'
      invariant forall k :: i <= k < 4 ==> magic[k] == head[k] as int as char
    {
      if Signed8(magic[i] as int) < 32 {
        magic := magic[i := '_'];
      }
      i := i + 1;
    }
    kind := IdentifyMagic(head[..4]);
  }

  /** Every stream that begins with the complete 8-byte PNG signature (section 5.2 of the PNG
      Specification, Second Edition) is recognised as PNG. */
  lemma PngSignatureRecognised(s: seq<byte>)
    requires |s| >= 8 && s[..8] == [0x89, 0x50, 0x4E, 0x47, 0x0D, 0x0A, 0x1A, 0x0A]
    ensures IdentifyMagic(s[..4]) == PNG
  {
    assert s[..4] == PNG_MAGIC;
  }

  /** Every stream that begins with the 12-byte KTX 2.0 file identifier (section 3.1 of the KTX 2.0
      specification) is recognised as KTX2. */
  lemma Ktx2IdentifierRecognised(s: seq<byte>)
    requires |s| >= 12
    requires s[..12] == [0xAB, 0x4B, 0x54, 0x58, 0x20, 0x32, 0x30, 0xBB, 0x0D, 0x0A, 0x1A, 0x0A]
    ensures IdentifyMagic(s[..4]) == KTX2
  {
    assert s[..4] == KTX2_MAGIC;
  }

  /** The KTX2 test looks at 4 of the 12 identifier bytes only: a KTX 1.1 file, whose identifier
      reads "KTX 11" where KTX 2.0 has "KTX 20", is classified as KTX2 too. */
  lemma Ktx1IdentifierAlsoKtx2(s: seq<byte>)
    requires |s| >= 12
    requires s[..12] == [0xAB, 0x4B, 0x54, 0x58, 0x20, 0x31, 0x31, 0xBB, 0x0D, 0x0A, 0x1A, 0x0A]
    ensures IdentifyMagic(s[..4]) == KTX2
  {
    assert s[..4] == KTX2_MAGIC;
  }

  /** A BASIS tag with a version below 0x10 is not recognised as anything. */
  lemma OldBasisVersionInvalid(m: seq<byte>)
    requires |m| == 4 && m[0] as int == 's' as int && m[1] as int == 'B' as int
    requires m[3] == 0 && m[2] < 0x10
    ensures IdentifyMagic(m) == INVALID
  {
  }
}
