/** The walker on small concrete structure tables, including the edge cases
    of a table that ends inside a header or inside a formatted area. */
module WalkerExamples {
  import opened Bytes
  import opened Wrappers
  import opened Record
  import opened Walker
  import opened WalkerFacts

  /** A structure without strings writes its string area as two NULs; the
      walker reads that as one empty string. */
  lemma EmptyStringSet()
    ensures ReadStrings([0, 0], 0, []) == ([""], 2)
  {
    var ss: seq<string> := [""];
    assert Narrow("") == [];
    assert StringArea(ss) == [0, 0];
    var none: seq<string> := [];
    ReadStringArea([0, 0], 0, none, ss);
    assert none + ss == ss;
  }

  /** Two strings, each NUL-terminated, then the closing NUL. */
  lemma TwoStrings()
    ensures ReadStrings([0x44, 0x65, 0x6c, 0x6c, 0, 0x58, 0x50, 0x53, 0, 0], 0, []) == (["Dell", "XPS"], 10)
  {
    var ss: seq<string> := ["Dell", "XPS"];
    assert Narrow("Dell") == [0x44, 0x65, 0x6c, 0x6c];
    assert Narrow("XPS") == [0x58, 0x50, 0x53];
    assert ss[1..] == ["XPS"];
    assert StringArea(ss) == [0x44, 0x65, 0x6c, 0x6c, 0, 0x58, 0x50, 0x53, 0, 0];
    var none: seq<string> := [];
    ReadStringArea([0x44, 0x65, 0x6c, 0x6c, 0, 0x58, 0x50, 0x53, 0, 0], 0, none, ss);
    assert none + ss == ss;
  }

  lemma NoTables()
    ensures Tables([]) == Some([])
  {
  }

  /** A one-byte table: the header is zero-filled to length 0, below the
      header's own size, and the walk aborts. */
  lemma ShortLength()
    ensures Tables([5]) == None
  {
  }

  /** A table that ends inside a header: the missing header bytes read as
      zero and the structure has an empty formatted area and no strings. */
  lemma PartialHeader()
    ensures Tables([1, 4]) == Some([Table(Header(1, 4, 0), [], [])])
  {
    var data: seq<byte> := [1, 4];
    var h := Header(1, 4, 0);
    ZeroFilledAt(data, 0, HeaderSize);
    assert ZeroFilled(data, 0, HeaderSize) == HeaderBytes(h);
    DecodeHeaderBytes(h);
    assert ZeroFilled(data, 2, 0) == [];
    var none: seq<string> := [];
    WalkUnfold(data, 0, h, 2, [], 2, none, 2);
    assert Walk(data, 2) == Some([]);
    var t := Table(h, [], none);
    assert [t] + [] == [t];
  }

  /** A table that ends inside a formatted area: the area keeps its declared
      size, zero-padded, and there are no strings. */
  lemma TruncatedPayload()
    ensures Tables([1, 8, 0, 0, 0xAA]) == Some([Table(Header(1, 8, 0), [0xAA, 0, 0, 0], [])])
  {
    var data: seq<byte> := [1, 8, 0, 0, 0xAA];
    var h := Header(1, 8, 0);
    ZeroFilledAt(data, 0, HeaderSize);
    assert ZeroFilled(data, 0, HeaderSize) == HeaderBytes(h);
    DecodeHeaderBytes(h);
    ZeroFilledAt(data, 4, 4);
    assert ZeroFilled(data, 4, 4) == [0xAA, 0, 0, 0];
    var none: seq<string> := [];
    WalkUnfold(data, 0, h, 4, [0xAA, 0, 0, 0], 5, none, 5);
    assert Walk(data, 5) == Some([]);
    var t := Table(h, [0xAA, 0, 0, 0], none);
    assert [t] + [] == [t];
  }

  /** A table that ends exactly where a formatted area ends: the structure
      has no strings. */
  lemma EndsAtPayload()
    ensures Tables([2, 5, 3, 0, 9]) == Some([Table(Header(2, 5, 3), [9], [])])
  {
    var data: seq<byte> := [2, 5, 3, 0, 9];
    var h := Header(2, 5, 3);
    ZeroFilledAt(data, 0, HeaderSize);
    assert ZeroFilled(data, 0, HeaderSize) == HeaderBytes(h);
    DecodeHeaderBytes(h);
    ZeroFilledAt(data, 4, 1);
    assert ZeroFilled(data, 4, 1) == [9];
    var none: seq<string> := [];
    WalkUnfold(data, 0, h, 4, [9], 5, none, 5);
    assert Walk(data, 5) == Some([]);
    var t := Table(h, [9], none);
    assert [t] + [] == [t];
  }
}
