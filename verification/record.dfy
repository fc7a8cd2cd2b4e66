/** A structure of the SMBIOS structure table as the library hands it out: the
    4-byte header, the formatted area that follows it, and the strings of the
    unformatted area; plus the two accessors on it. */
module Record {
  import opened Bytes
  import opened Wrappers
  import opened Shapes

  /** The structure header: type tag at offset 0, length (header included)
      at offset 1, handle at offset 2, little-endian. */
  datatype Header = Header(kind: byte, len: byte, handle: u16)

  const HeaderSize: nat := 4

  /** The type tag that marks the end of the structure table. */
  const EndOfTable: byte := 127

  datatype Table = Table(header: Header, data: seq<byte>, strings: seq<string>)

  /** The packed byte image of a header. */
  function HeaderBytes(h: Header): (b: seq<byte>)
    ensures |b| == HeaderSize
  {
    [h.kind, h.len, Digit(h.handle, 0), Digit(h.handle, 1)]
  }

  /** Reads a header from its 4-byte image; every 4-byte image is the image
      of the header read from it. */
  function DecodeHeader(b: seq<byte>): (h: Header)
    requires |b| == HeaderSize
    ensures HeaderBytes(h) == b
  {
    DigitsOfRead(b, 2, 2);
    assert b[2 + 0] == b[2] && b[2 + 1] == b[3];
    Header(b[0], b[1], U16At(b, 2))
  }

  lemma DecodeHeaderBytes(h: Header)
    ensures DecodeHeader(HeaderBytes(h)) == h
  {
    U16Read(HeaderBytes(h), 2, h.handle);
  }

  /** The typed view of a table: present exactly when the header's type tag
      is the layout's tag and the formatted area is long enough to hold the
      layout, and then it is the value whose image starts the formatted area. */
  function Get(t: Table, k: Kind): (r: Option<Structure>)
    ensures r.Some? <==> t.header.kind == Tag(k) && |t.data| >= Size(k)
    ensures r.Some? ==> KindOf(r.value) == k && Encode(r.value) == t.data[..Size(k)]
  {
    if t.header.kind == Tag(k) then FromBytes(k, t.data) else None
  }

  /** A table has a typed view under at most one layout. */
  lemma GetAtMostOne(t: Table, k: Kind, l: Kind)
    requires Get(t, k).Some? && Get(t, l).Some?
    ensures k == l
  {
    TagInjective(k, l);
  }

  /** A table tagged for a structure's layout, whose formatted area starts
      with the structure's image, yields exactly that structure; any other
      layout yields nothing. */
  lemma GetEncoded(t: Table, s: Structure, extra: seq<byte>)
    requires t.header.kind == Tag(KindOf(s))
    requires t.data == Encode(s) + extra
    ensures Get(t, KindOf(s)) == Some(s)
    ensures forall k :: k != KindOf(s) ==> Get(t, k) == None
  {
    FromBytesEncode(s, extra);
    forall k | k != KindOf(s)
      ensures Get(t, k) == None
    {
      TagInjective(k, KindOf(s));
    }
  }

  /** String number index of a table (1-based, as the formatted area refers
      to its strings); 0 means "no string". */
  function GetStr(t: Table, index: byte): (r: Option<string>)
    ensures r.Some? <==> 1 <= index <= |t.strings|
    ensures r.Some? ==> r.value == t.strings[index - 1]
  {
    if index > 0 then
      if index - 1 < |t.strings| then Some(t.strings[index - 1]) else None
    else None
  }

  /** Every string up to the 255th is reachable, at its position plus one,
      and the strings before and after it do not matter. */
  lemma GetStrAt(h: Header, data: seq<byte>, before: seq<string>, s: string, after: seq<string>)
    requires |before| < 255
    ensures GetStr(Table(h, data, before + [s] + after), |before| + 1) == Some(s)
  {
    assert (before + [s] + after)[|before|] == s;
  }
}
