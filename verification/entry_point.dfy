/** The two SMBIOS entry-point structures (section 5.2.1, the 32-bit entry
    point, and section 5.2.2, the 64-bit entry point, of the DMTF SMBIOS
    Reference Specification DSP0134): their packed little-endian layouts and
    the validity checks the library performs on them. */
module EntryPoint {
  import opened Bytes

  type Bytes4 = s: seq<byte> | |s| == 4 witness [0, 0, 0, 0]
  type Bytes5 = s: seq<byte> | |s| == 5 witness [0, 0, 0, 0, 0]

  /** The 32-bit entry point. Comments give each field's byte offset in the
      packed 31-byte structure. */
  datatype Smbios = Smbios(
    anchor: Bytes4,          // 0x00, "_SM_"
    checksum: byte,          // 0x04
    length: byte,            // 0x05
    majorVersion: byte,      // 0x06
    minorVersion: byte,      // 0x07
    maxStructureSize: u16,   // 0x08
    revision: byte,          // 0x0A
    formatted: Bytes5,       // 0x0B
    interAnchor: Bytes5,     // 0x10, "_DMI_"
    interChecksum: byte,     // 0x15
    tableLength: u16,        // 0x16
    tableAddress: u32,       // 0x18
    structureCount: u16,     // 0x1C
    bcdRevision: byte)       // 0x1E

  const SmbiosSize: nat := 31

  /** Addition of two bytes with 8-bit wrap-around. */
  function WrapAdd(a: byte, b: byte): byte {
    (a + b) % 256
  }

  /** The sum of an iterator of bytes folded from 0 with wrap-around; this is
      both `Iterator::sum` into `Wrapping<u8>` and, with overflow checks off,
      `Iterator::sum::<u8>`. */
  function WrappingSum(s: seq<byte>): (r: byte)
    ensures r == Sum(s) % 256
  {
    if s == [] then 0
    else
      ModAdd(Sum(s[..|s| - 1]), s[|s| - 1]);
      WrapAdd(WrappingSum(s[..|s| - 1]), s[|s| - 1])
  }

  /** The 32-bit validity check as the library computes it: a wrapping sum
      over the anchor, checksum, length, both version bytes, the LOW byte of
      the maximum structure size, the revision and the formatted area. It
      holds exactly when those bytes sum to 0 modulo 256. */
  function SmbiosIsValid(s: Smbios): (r: bool)
    ensures r <==> Sum(ChecksummedBytes(s)) % 256 == 0
  {
    var sum := WrappingSum(s.anchor);
    var sum := WrapAdd(sum, s.checksum);
    var sum := WrapAdd(sum, s.length);
    var sum := WrapAdd(sum, s.majorVersion);
    var sum := WrapAdd(sum, s.minorVersion);
    var sum := WrapAdd(sum, s.maxStructureSize % 256);
    var sum := WrapAdd(sum, s.revision);
    var sum := WrapAdd(sum, WrappingSum(s.formatted));
    // Each step adds one more covered byte to the wrapping sum.
    var a1 := s.anchor + [s.checksum];
    var a2 := a1 + [s.length];
    var a3 := a2 + [s.majorVersion];
    var a4 := a3 + [s.minorVersion];
    var a5 := a4 + [s.maxStructureSize % 256];
    var a6 := a5 + [s.revision];
    WrapAddSnoc(s.anchor, s.checksum);
    WrapAddSnoc(a1, s.length);
    WrapAddSnoc(a2, s.majorVersion);
    WrapAddSnoc(a3, s.minorVersion);
    WrapAddSnoc(a4, s.maxStructureSize % 256);
    WrapAddSnoc(a5, s.revision);
    assert ChecksummedBytes(s) == a6 + s.formatted;
    WrapAppend(a6, s.formatted);
    sum == 0
  }

  /** The bytes the 32-bit check covers, in the order it adds them. */
  function ChecksummedBytes(s: Smbios): seq<byte> {
    s.anchor + [s.checksum] + [s.length] + [s.majorVersion] + [s.minorVersion]
    + [s.maxStructureSize % 256] + [s.revision] + s.formatted
  }

  lemma ModAdd(x: nat, y: nat)
    ensures (x % 256 + y) % 256 == (x + y) % 256
  {
  }

  /** Adding one more byte to a wrapping sum is summing the longer sequence. */
  lemma WrapAddSnoc(a: seq<byte>, b: byte)
    ensures WrapAdd(WrappingSum(a), b) == WrappingSum(a + [b])
  {
    assert (a + [b])[..|a + [b]| - 1] == a;
  }

  lemma ModAddBoth(x: nat, y: nat)
    ensures (x % 256 + y % 256) % 256 == (x + y) % 256
  {
    ModAdd(x, y % 256);
    ModAdd(y, x);
  }

  lemma ModAddZero(x: nat, y: nat)
    requires y % 256 == 0
    ensures (x + y) % 256 == x % 256
  {
    ModAddBoth(x, y);
    var r := x % 256;
    assert r % 256 == r;
  }

  lemma WrapOfSums(x: nat, y: nat, wx: byte, wy: byte, wxy: byte)
    requires wx == x % 256 && wy == y % 256 && wxy == (x + y) % 256
    ensures WrapAdd(wx, wy) == wxy
  {
    ModAddBoth(x, y);
  }

  /** Wrapping sums compose over concatenation. */
  lemma WrapAppend(a: seq<byte>, b: seq<byte>)
    ensures WrapAdd(WrappingSum(a), WrappingSum(b)) == WrappingSum(a + b)
  {
    SumAppend(a, b);
    WrapOfSums(Sum(a), Sum(b), WrappingSum(a), WrappingSum(b), WrappingSum(a + b));
  }

  /** The fields outside the covered bytes never change the verdict: the
      intermediate anchor and checksum, the table length, address and
      structure count, the BCD revision, and the high byte of the maximum
      structure size. */
  lemma SmbiosIsValidIgnores(s: Smbios, interAnchor: Bytes5, interChecksum: byte, tableLength: u16,
                             tableAddress: u32, structureCount: u16, bcdRevision: byte, maxHigh: byte)
    ensures var t := s.(interAnchor := interAnchor, interChecksum := interChecksum,
                        tableLength := tableLength, tableAddress := tableAddress,
                        structureCount := structureCount, bcdRevision := bcdRevision,
                        maxStructureSize := s.maxStructureSize % 256 + 256 * maxHigh);
            SmbiosIsValid(t) == SmbiosIsValid(s)
  {
    var t := s.(interAnchor := interAnchor, interChecksum := interChecksum,
                tableLength := tableLength, tableAddress := tableAddress,
                structureCount := structureCount, bcdRevision := bcdRevision,
                maxStructureSize := s.maxStructureSize % 256 + 256 * maxHigh);
    assert t.maxStructureSize % 256 == s.maxStructureSize % 256;
    assert ChecksummedBytes(t) == ChecksummedBytes(s);
  }

  /** Byte i of the packed little-endian image of a 32-bit entry point. */
  function SmbiosByte(s: Smbios, i: nat): byte
    requires i < SmbiosSize
  {
    if i < 4 then s.anchor[i]
    else if i < 5 then s.checksum
    else if i < 6 then s.length
    else if i < 7 then s.majorVersion
    else if i < 8 then s.minorVersion
    else if i < 10 then Digit(s.maxStructureSize, i - 8)
    else if i < 11 then s.revision
    else if i < 16 then s.formatted[i - 11]
    else if i < 21 then s.interAnchor[i - 16]
    else if i < 22 then s.interChecksum
    else if i < 24 then Digit(s.tableLength, i - 22)
    else if i < 28 then Digit(s.tableAddress, i - 24)
    else if i < 30 then Digit(s.structureCount, i - 28)
    else s.bcdRevision
  }

  function EncodeSmbios(s: Smbios): (p: seq<byte>)
    ensures |p| == SmbiosSize
    ensures forall i :: 0 <= i < SmbiosSize ==> p[i] == SmbiosByte(s, i)
  {
    seq(SmbiosSize, (i: int) requires 0 <= i < SmbiosSize => SmbiosByte(s, i))
  }

  /** Reading the packed structure from its first 31 bytes: it reads exactly
      those bytes, since encoding the result gives them back. */
  function DecodeSmbios(p: seq<byte>): (r: Smbios)
    requires |p| >= SmbiosSize
    ensures EncodeSmbios(r) == p[..SmbiosSize]
  {
    var r := Smbios(p[0..4], p[4], p[5], p[6], p[7], U16At(p, 8), p[10], p[11..16], p[16..21], p[21],
                    U16At(p, 22), U32At(p, 24), U16At(p, 28), p[30]);
    DigitsOfRead(p, 8, 2);
    DigitsOfRead(p, 22, 2);
    DigitsOfRead(p, 24, 4);
    DigitsOfRead(p, 28, 2);
    assert forall i :: 0 <= i < SmbiosSize ==> SmbiosByte(r, i) == p[i];
    r
  }

  lemma SmbiosDecodesTo(s: Smbios, p: seq<byte>)
    requires |p| >= SmbiosSize
    requires forall i :: 0 <= i < SmbiosSize ==> p[i] == SmbiosByte(s, i)
    ensures DecodeSmbios(p) == s
  {
    U16Read(p, 8, s.maxStructureSize);
    U16Read(p, 22, s.tableLength);
    U32Read(p, 24, s.tableAddress);
    U16Read(p, 28, s.structureCount);
    assert p[0..4] == s.anchor;
    assert p[11..16] == s.formatted;
    assert p[16..21] == s.interAnchor;
  }

  /** Decoding the encoding of an entry point gives it back, whatever follows. */
  lemma SmbiosDecodeEncode(s: Smbios, rest: seq<byte>)
    ensures DecodeSmbios(EncodeSmbios(s) + rest) == s
  {
    SmbiosDecodesTo(s, EncodeSmbios(s) + rest);
  }

  /** The check on raw bytes: the library's verdict on a structure read from
      p is "bytes 0x00 to 0x0F, except 0x09, sum to 0 modulo 256". */
  lemma SmbiosIsValidOnWire(p: seq<byte>)
    requires |p| >= SmbiosSize
    ensures SmbiosIsValid(DecodeSmbios(p)) <==> (Sum(p[..9]) + Sum(p[10..16])) % 256 == 0
  {
    var s := DecodeSmbios(p);
    var c := ChecksummedBytes(s);
    assert EncodeSmbios(s)[8] == p[8];
    assert c[..9] == p[..9];
    assert c[9..] == p[10..16];
    SumSplit(c, 9);
  }

  /** The 32-bit entry point of the library's own checksum tests, with the
      checksum byte as a parameter. */
  function TestVector(checksum: byte): Smbios {
    Smbios([0x5F, 0x53, 0x4D, 0x5F], checksum, 0x1f, 0x02, 0x07, 0xb8, 0x00, [0, 0, 0, 0, 0],
           [0x5F, 0x44, 0x4D, 0x49, 0x5F], 0x3e, 0x0c15, 0x000e92f0, 0x0052, 27)
  }

  /** The sum of the bytes the check covers in the test structure. */
  lemma TestVectorSum(checksum: byte)
    ensures Sum(ChecksummedBytes(TestVector(checksum))) == 0x23E + checksum
  {
    var b := ChecksummedBytes(TestVector(checksum));
    var p: seq<byte> := [0x5F, 0x53, 0x4D, 0x5F];
    var q: seq<byte> := [checksum, 0x1f, 0x02, 0x07];
    var r: seq<byte> := [0xb8, 0x00, 0, 0];
    var z: seq<byte> := [0, 0, 0];
    assert b == p + q + r + z;
    Sum4(0x5F, 0x53, 0x4D, 0x5F);
    Sum4(checksum, 0x1f, 0x02, 0x07);
    Sum4(0xb8, 0x00, 0, 0);
    assert z == [0, 0, 0, 0][..3];
    Sum4(0, 0, 0, 0);
    SumAppend(p, q);
    SumAppend(p + q, r);
    SumAppend(p + q + r, z);
  }

  /** In the test structure 0xc2 is the one checksum byte that makes it
      valid: the library's valid case uses 0xc2 and its invalid case 0x00. */
  lemma TestVectors(checksum: byte)
    ensures SmbiosIsValid(TestVector(checksum)) <==> checksum == 0xc2
  {
    TestVectorSum(checksum);
    TestVectorMod(checksum);
  }

  lemma TestVectorMod(checksum: byte)
    ensures (0x23E + checksum) % 256 == 0 <==> checksum == 0xc2
  {
    var x := 0x23E + checksum;
    if checksum < 0xc2 {
      assert x == 2 * 256 + (checksum + 0x3E);
    } else {
      assert x == 3 * 256 + (checksum - 0xc2);
    }
  }

  /** The 32-bit check with the maximum structure size added in full (both
      of its bytes) instead of truncated to its low byte; every other step is
      the library's. It holds exactly when the 16 leading bytes sum to 0
      modulo 256. */
  function SmbiosIsValidCorrected(s: Smbios): (r: bool)
    ensures r <==> Sum(LeadingBytes(s)) % 256 == 0
  {
    var sum := WrappingSum(s.anchor);
    var sum := WrapAdd(sum, s.checksum);
    var sum := WrapAdd(sum, s.length);
    var sum := WrapAdd(sum, s.majorVersion);
    var sum := WrapAdd(sum, s.minorVersion);
    var sum := WrapAdd(sum, s.maxStructureSize % 256);
    var sum := WrapAdd(sum, s.maxStructureSize / 256);
    var sum := WrapAdd(sum, s.revision);
    var sum := WrapAdd(sum, WrappingSum(s.formatted));
    // Each step adds one more leading byte to the wrapping sum.
    var a1 := s.anchor + [s.checksum];
    var a2 := a1 + [s.length];
    var a3 := a2 + [s.majorVersion];
    var a4 := a3 + [s.minorVersion];
    var a5 := a4 + [s.maxStructureSize % 256];
    var a6 := a5 + [s.maxStructureSize / 256];
    var a7 := a6 + [s.revision];
    WrapAddSnoc(s.anchor, s.checksum);
    WrapAddSnoc(a1, s.length);
    WrapAddSnoc(a2, s.majorVersion);
    WrapAddSnoc(a3, s.minorVersion);
    WrapAddSnoc(a4, s.maxStructureSize % 256);
    WrapAddSnoc(a5, s.maxStructureSize / 256);
    WrapAddSnoc(a6, s.revision);
    assert LeadingBytes(s) == a7 + s.formatted;
    WrapAppend(a7, s.formatted);
    sum == 0
  }

  /** The first 16 bytes of the packed structure, offsets 0x00 to 0x0F. */
  function LeadingBytes(s: Smbios): seq<byte> {
    s.anchor + [s.checksum] + [s.length] + [s.majorVersion] + [s.minorVersion]
    + [s.maxStructureSize % 256] + [s.maxStructureSize / 256] + [s.revision] + s.formatted
  }

  lemma LeadingBytesEncoded(s: Smbios)
    ensures EncodeSmbios(s)[..16] == LeadingBytes(s)
  {
    assert Digit(s.maxStructureSize, 1) == s.maxStructureSize / 256;
    var e := EncodeSmbios(s);
    var l := LeadingBytes(s);
    forall i | 0 <= i < 16
      ensures e[i] == l[i]
    {
    }
  }

  /** The leading bytes are the library's covered bytes plus the high byte. */
  lemma LeadingSum(s: Smbios)
    ensures Sum(LeadingBytes(s)) == Sum(ChecksummedBytes(s)) + s.maxStructureSize / 256
  {
    var a5 := s.anchor + [s.checksum, s.length, s.majorVersion, s.minorVersion, s.maxStructureSize % 256];
    var a6 := a5 + [s.maxStructureSize / 256];
    assert LeadingBytes(s) == a6 + [s.revision] + s.formatted;
    assert ChecksummedBytes(s) == a5 + [s.revision] + s.formatted;
    SumAppend(a6 + [s.revision], s.formatted);
    SumAppend(a5 + [s.revision], s.formatted);
    SumSnoc(a6, s.revision);
    SumSnoc(a5, s.revision);
    SumSnoc(a5, s.maxStructureSize / 256);
  }

  /** The corrected check holds exactly when the first 16 bytes of the packed
      structure sum to 0 modulo 256. */
  lemma SmbiosIsValidCorrectedOnWire(s: Smbios)
    ensures SmbiosIsValidCorrected(s) <==> Sum(EncodeSmbios(s)[..16]) % 256 == 0
  {
    LeadingBytesEncoded(s);
  }

  /** With a valid intermediate checksum (bytes 0x10 to 0x1E summing to 0),
      the corrected check is DSP0134's rule that all 31 bytes sum to 0. */
  lemma SmbiosIsValidCorrectedFull(s: Smbios)
    requires Sum(EncodeSmbios(s)[16..]) % 256 == 0
    ensures SmbiosIsValidCorrected(s) <==> Sum(EncodeSmbios(s)) % 256 == 0
  {
    var e := EncodeSmbios(s);
    var x, y := Sum(e[..16]), Sum(e[16..]);
    SumSplit(e, 16);
    SmbiosIsValidCorrectedOnWire(s);
    ModAddZero(x, y);
  }

  /** A structure whose first 16 bytes sum to 0 but which the library
      rejects: the test structure with a maximum structure size of 0x01B8 and
      the checksum lowered by one to pay for the high byte 0x01. */
  lemma HighByteIgnored()
    ensures var e := TestVector(0xc1).(maxStructureSize := 0x01b8);
            Sum(EncodeSmbios(e)[..16]) % 256 == 0 && !SmbiosIsValid(e) && SmbiosIsValidCorrected(e)
  {
    var t := TestVector(0xc1);
    var e := t.(maxStructureSize := 0x01b8);
    assert e.maxStructureSize % 256 == 0xb8;
    assert ChecksummedBytes(e) == ChecksummedBytes(t);
    TestVectorSum(0xc1);
    TestVectorMod(0xc1);
    LeadingSum(e);
    assert Sum(LeadingBytes(e)) == 0x300;
    LeadingBytesEncoded(e);
  }

  /** The same for every entry point: whenever the 16 leading bytes sum to 0
      and the high byte of the maximum structure size is not 0, the library
      rejects what the corrected check accepts. */
  lemma HighByteRejected(s: Smbios)
    requires Sum(LeadingBytes(s)) % 256 == 0
    requires s.maxStructureSize / 256 != 0
    ensures !SmbiosIsValid(s) && SmbiosIsValidCorrected(s)
  {
    LeadingSum(s);
    var x, h := Sum(ChecksummedBytes(s)), s.maxStructureSize / 256;
    ModAddBoth(x, h);
    assert h % 256 == h;
    assert x % 256 + h == 256;
  }

  /** The 64-bit entry point. Comments give each field's byte offset in the
      packed 24-byte structure. */
  datatype Smbios3 = Smbios3(
    anchor: Bytes5,          // 0x00, "_SM3_"
    checksum: byte,          // 0x05
    length: byte,            // 0x06
    majorVersion: byte,      // 0x07
    minorVersion: byte,      // 0x08
    docrev: byte,            // 0x09
    revision: byte,          // 0x0A
    reserved: byte,          // 0x0B
    tableLength: u32,        // 0x0C
    tableAddress: u64)       // 0x10

  const Smbios3Size: nat := 24

  /** The anchor string "_SM3_" as bytes. */
  const Smbios3Anchor: seq<byte> := [0x5F, 0x53, 0x4D, 0x33, 0x5F]

  /** The 64-bit validity check: the anchor alone; the checksum is not
      verified. It holds exactly when the packed image starts with "_SM3_". */
  function Smbios3IsValid(s: Smbios3): (r: bool)
    ensures r <==> EncodeSmbios3(s)[..5] == Smbios3Anchor
  {
    assert EncodeSmbios3(s)[..5] == s.anchor;
    s.anchor == Smbios3Anchor
  }

  /** Only the anchor decides: two 64-bit entry points with the same anchor
      get the same verdict whatever their checksums and other fields. */
  lemma Smbios3IsValidOnlyAnchor(s: Smbios3, t: Smbios3)
    requires s.anchor == t.anchor
    ensures Smbios3IsValid(s) == Smbios3IsValid(t)
  {
  }

  function Smbios3Byte(s: Smbios3, i: nat): byte
    requires i < Smbios3Size
  {
    if i < 5 then s.anchor[i]
    else if i < 6 then s.checksum
    else if i < 7 then s.length
    else if i < 8 then s.majorVersion
    else if i < 9 then s.minorVersion
    else if i < 10 then s.docrev
    else if i < 11 then s.revision
    else if i < 12 then s.reserved
    else if i < 16 then Digit(s.tableLength, i - 12)
    else Digit(s.tableAddress, i - 16)
  }

  function EncodeSmbios3(s: Smbios3): (p: seq<byte>)
    ensures |p| == Smbios3Size
    ensures forall i :: 0 <= i < Smbios3Size ==> p[i] == Smbios3Byte(s, i)
  {
    seq(Smbios3Size, (i: int) requires 0 <= i < Smbios3Size => Smbios3Byte(s, i))
  }

  /** Reading the packed structure from its first 24 bytes: it reads exactly
      those bytes, since encoding the result gives them back. */
  function DecodeSmbios3(p: seq<byte>): (r: Smbios3)
    requires |p| >= Smbios3Size
    ensures EncodeSmbios3(r) == p[..Smbios3Size]
  {
    var r := Smbios3(p[0..5], p[5], p[6], p[7], p[8], p[9], p[10], p[11], U32At(p, 12), U64At(p, 16));
    DigitsOfRead(p, 12, 4);
    DigitsOfRead(p, 16, 8);
    assert forall i :: 0 <= i < Smbios3Size ==> Smbios3Byte(r, i) == p[i];
    r
  }

  lemma Smbios3DecodeEncode(s: Smbios3, rest: seq<byte>)
    ensures DecodeSmbios3(EncodeSmbios3(s) + rest) == s
  {
    var p := EncodeSmbios3(s) + rest;
    assert forall i :: 0 <= i < Smbios3Size ==> p[i] == Smbios3Byte(s, i);
    assert Pow256(4) == 0x1_0000_0000;
    assert Pow256(8) == 0x1_0000_0000_0000_0000;
    U32Read(p, 12, s.tableLength);
    ReadDigits(p, 16, 8, s.tableAddress);
    assert p[0..5] == s.anchor;
  }

  /** On raw bytes: a 64-bit entry point read from p is valid exactly when p
      starts with "_SM3_", whatever its checksum byte holds. */
  lemma Smbios3IsValidOnWire(p: seq<byte>)
    requires |p| >= Smbios3Size
    ensures Smbios3IsValid(DecodeSmbios3(p)) <==> p[..5] == Smbios3Anchor
  {
    assert DecodeSmbios3(p).anchor == p[..5];
  }
}
