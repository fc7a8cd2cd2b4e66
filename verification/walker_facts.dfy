/** Properties of the structure-table walker: what it does on small tables,
    that it only looks at the bytes from its cursor on, and that it reads
    back any well-formed serialization of a list of tables. */
module WalkerFacts {
  import opened Bytes
  import opened Wrappers
  import opened Record
  import opened Walker

  // ------------------------------------------------------------ serializing

  /** The bytes of a string the walker can produce. */
  function Narrow(s: string): (b: seq<byte>)
    requires ValidString(s)
    ensures |b| == |s|
    ensures forall k :: 0 <= k < |s| ==> b[k] == s[k] as int && b[k] != 0
  {
    seq(|s|, (k: int) requires 0 <= k < |s| => s[k] as int)
  }

  lemma WidenNarrow(s: string)
    requires ValidString(s)
    ensures Widen(Narrow(s)) == s
  {
    var w := Widen(Narrow(s));
    WidenAt(Narrow(s));
    forall k | 0 <= k < |s|
      ensures w[k] == s[k]
    {
      assert w[k] as int == s[k] as int;
    }
  }

  /** Each string followed by its NUL terminator. */
  function Terminated(ss: seq<string>): seq<byte>
    requires forall k :: 0 <= k < |ss| ==> ValidString(ss[k])
  {
    if ss == [] then [] else Narrow(ss[0]) + [0] + Terminated(ss[1..])
  }

  /** The unformatted area of a table: its strings, each NUL-terminated, and
      one more NUL. */
  function StringArea(ss: seq<string>): seq<byte>
    requires forall k :: 0 <= k < |ss| ==> ValidString(ss[k])
  {
    Terminated(ss) + [0]
  }

  /** The tables a raw structure table can represent: all the walker
      produces, except a table cut off before its string area. */
  predicate Serializable(t: Table) {
    Decoded(t) && t.strings != []
  }

  /** The bytes of one structure: header, formatted area, string area. */
  function Serialize(t: Table): (b: seq<byte>)
    requires Serializable(t)
    ensures |b| == t.header.len + |StringArea(t.strings)|
  {
    HeaderBytes(t.header) + t.data + StringArea(t.strings)
  }

  function SerializeAll(ts: seq<Table>): seq<byte>
    requires forall k :: 0 <= k < |ts| ==> Serializable(ts[k])
  {
    if ts == [] then [] else Serialize(ts[0]) + SerializeAll(ts[1..])
  }

  // ------------------------------------------------------------ the strings

  lemma AppendHead<T>(acc: seq<T>, ss: seq<T>)
    requires ss != []
    ensures acc + [ss[0]] + ss[1..] == acc + ss
  {
    assert [ss[0]] + ss[1..] == ss;
    assert acc + [ss[0]] + ss[1..] == acc + ([ss[0]] + ss[1..]);
  }

  /** A NUL-terminated string of a string area reads back as its bytes. */
  lemma ReadAreaString(data: seq<byte>, i: nat, s: string, e: nat)
    requires ValidString(s) && e == i + |s|
    requires e < |data| && data[i..e] == Narrow(s) && data[e] == 0
    ensures ReadString(data, i).0 == Narrow(s)
    ensures ReadString(data, i).1 == e + 1
  {
    var n := Narrow(s);
    forall q | i <= q < e
      ensures data[q] != 0
    {
      assert data[q] == data[i..e][q - i] == n[q - i];
    }
    ReadStringAt(data, i, e);
  }

  /** A slice holding a concatenation holds each part at its offset. */
  lemma SliceSplit(data: seq<byte>, i: nat, x: seq<byte>, y: seq<byte>, mid: nat, end: nat)
    requires mid == i + |x| && end == mid + |y| && end <= |data|
    requires data[i..end] == x + y
    ensures data[i..mid] == x && data[mid..end] == y
  {
    assert data[i..mid] == data[i..end][..|x|];
    assert data[mid..end] == data[i..end][|x|..];
  }

  /** A non-empty string area is its first string, that string's NUL, and
      the string area of the remaining strings. */
  lemma AreaCons(ss: seq<string>)
    requires StringSet(ss) && ss != []
    ensures StringSet(ss[1..])
    ensures StringArea(ss) == Narrow(ss[0]) + [0] + StringArea(ss[1..])
  {
    assert forall k :: 0 <= k < |ss| - 1 ==> ss[1..][k] == ss[k + 1];
    assert Narrow(ss[0]) + [0] + Terminated(ss[1..]) + [0] == Narrow(ss[0]) + [0] + (Terminated(ss[1..]) + [0]);
  }

  /** In data holding a non-empty string area at i, the first string ends at
      e with a NUL, and the area of the remaining strings starts at j. */
  lemma AreaHead(data: seq<byte>, i: nat, ss: seq<string>) returns (e: nat, j: nat)
    requires StringSet(ss) && ss != []
    requires i + |StringArea(ss)| <= |data| && data[i..i + |StringArea(ss)|] == StringArea(ss)
    ensures e == i + |ss[0]| && j == e + 1
    ensures e < |data| && data[i..e] == Narrow(ss[0]) && data[e] == 0
    ensures StringSet(ss[1..])
    ensures j + |StringArea(ss[1..])| == i + |StringArea(ss)|
    ensures data[j..j + |StringArea(ss[1..])|] == StringArea(ss[1..])
  {
    var n := Narrow(ss[0]);
    var rest := StringArea(ss[1..]);
    AreaCons(ss);
    e := i + |n|;
    j := e + 1;
    var end := j + |rest|;
    SliceSplit(data, i, n + [0], rest, j, end);
    SliceSplit(data, i, n, [0], e, j);
    assert data[e] == data[e..j][0];
  }

  /** Reading a string area: the walker collects exactly the strings written
      there, after any already collected, and stops just past the final NUL.
      With nothing collected yet the first string may be empty; after that
      none may be. */
  lemma {:induction false} ReadStringArea(data: seq<byte>, i: nat, acc: seq<string>, ss: seq<string>)
    requires StringSet(ss)
    requires acc == [] ==> ss != []
    requires acc != [] && ss != [] ==> ss[0] != []
    requires i + |StringArea(ss)| <= |data| && data[i..i + |StringArea(ss)|] == StringArea(ss)
    ensures ReadStrings(data, i, acc).0 == acc + ss
    ensures ReadStrings(data, i, acc).1 == i + |StringArea(ss)|
    decreases |ss|
  {
    var area := StringArea(ss);
    if ss == [] {
      var j := i + 1;
      assert data[i] == area[0] == 0;
      ReadStringAt(data, i, i);
      ReadStringsStep(data, i, acc, [], j);
      assert acc + ss == acc;
    } else {
      var s := ss[0];
      var e, j := AreaHead(data, i, ss);
      ReadAreaString(data, i, s, e);
      WidenNarrow(s);
      ReadStringsStep(data, i, acc, Narrow(s), j);
      ReadStringArea(data, j, acc + [s], ss[1..]);
      AppendHead(acc, ss);
    }
  }

  // ------------------------------------------------------------- locality

  // The lemmas below compare a read at cursor i of d with the read at cursor
  // i2 == |pre| + i of pre + d; the shifted cursor is passed in rather than
  // written as a sum.

  lemma ZeroFilledShift(pre: seq<byte>, d: seq<byte>, i: nat, i2: nat, n: nat)
    requires i2 == |pre| + i
    ensures ZeroFilled(pre + d, i2, n) == ZeroFilled(d, i, n)
  {
    var a := ZeroFilled(pre + d, i2, n);
    var b := ZeroFilled(d, i, n);
    ZeroFilledAt(pre + d, i2, n);
    ZeroFilledAt(d, i, n);
    forall k | 0 <= k < n
      ensures a[k] == b[k]
    {
      assert ByteAt(pre + d, i2 + k) == ByteAt(d, i + k);
    }
  }

  lemma ReadHeaderShift(pre: seq<byte>, d: seq<byte>, i: nat, i2: nat)
    requires i < |d| && i2 == |pre| + i
    ensures ReadHeader(pre + d, i2).0 == ReadHeader(d, i).0
    ensures ReadHeader(pre + d, i2).1 == |pre| + ReadHeader(d, i).1
  {
    ZeroFilledShift(pre, d, i, i2, HeaderSize);
  }

  lemma ReadPayloadShift(pre: seq<byte>, d: seq<byte>, j: nat, j2: nat, n: nat)
    requires j <= |d| && j2 == |pre| + j
    ensures ReadPayload(pre + d, j2, n).0 == ReadPayload(d, j, n).0
    ensures ReadPayload(pre + d, j2, n).1 == |pre| + ReadPayload(d, j, n).1
  {
    ZeroFilledShift(pre, d, j, j2, n);
  }

  lemma ReadStringShift(pre: seq<byte>, d: seq<byte>, i: nat, i2: nat)
    requires i <= |d| && i2 == |pre| + i
    ensures ReadString(pre + d, i2).0 == ReadString(d, i).0
    ensures ReadString(pre + d, i2).1 == |pre| + ReadString(d, i).1
  {
    var data := pre + d;
    ReadStringSpec(d, i);
    var run := ReadString(d, i).0;
    var e := i + |run|;
    forall q | i2 <= q < |pre| + e
      ensures data[q] != 0
    {
      assert data[q] == d[q - |pre|] == run[q - |pre| - i];
    }
    assert e < |d| ==> data[|pre| + e] == d[e];
    ReadStringAt(data, i2, |pre| + e);
    assert data[i2..|pre| + e] == d[i..e];
  }

  lemma {:induction false} ReadStringsShift(pre: seq<byte>, d: seq<byte>, i: nat, i2: nat, acc: seq<string>)
    requires i <= |d| && i2 == |pre| + i
    ensures ReadStrings(pre + d, i2, acc).0 == ReadStrings(d, i, acc).0
    ensures ReadStrings(pre + d, i2, acc).1 == |pre| + ReadStrings(d, i, acc).1
    decreases |d| - i
  {
    if i < |d| {
      ReadStringShift(pre, d, i, i2);
      var run, j := ReadString(d, i).0, ReadString(d, i).1;
      var j2 := |pre| + j;
      ReadStringsStep(d, i, acc, run, j);
      ReadStringsStep(pre + d, i2, acc, run, j2);
      if !(run == [] && acc != []) {
        ReadStringsShift(pre, d, j, j2, acc + [Widen(run)]);
      }
    }
  }

  /** One step of the walk reads the same header, formatted area and strings
      from a table and from the same table behind a prefix, and moves the
      cursor by the same amount. */
  lemma StepShift(pre: seq<byte>, d: seq<byte>, i: nat, h: Header, j: nat, payload: seq<byte>, k: nat, strings: seq<string>, m: nat,
                  i2: nat, j2: nat, k2: nat, m2: nat)
    requires i < |d|
    requires i2 == |pre| + i && j2 == |pre| + j && k2 == |pre| + k && m2 == |pre| + m
    requires ReadHeader(d, i).0 == h && ReadHeader(d, i).1 == j && h.len >= HeaderSize
    requires ReadPayload(d, j, h.len - HeaderSize).0 == payload
    requires ReadPayload(d, j, h.len - HeaderSize).1 == k
    requires ReadStrings(d, k, []).0 == strings && ReadStrings(d, k, []).1 == m
    ensures ReadHeader(pre + d, i2).0 == h && ReadHeader(pre + d, i2).1 == j2
    ensures ReadPayload(pre + d, j2, h.len - HeaderSize).0 == payload
    ensures ReadPayload(pre + d, j2, h.len - HeaderSize).1 == k2
    ensures ReadStrings(pre + d, k2, []).0 == strings && ReadStrings(pre + d, k2, []).1 == m2
  {
    ReadHeaderShift(pre, d, i, i2);
    ReadPayloadShift(pre, d, j, j2, h.len - HeaderSize);
    ReadStringsShift(pre, d, k, k2, []);
  }

  /** The walk from a cursor depends only on the bytes from the cursor on:
      bytes in front of the table change nothing. */
  lemma {:induction false} WalkShift(pre: seq<byte>, d: seq<byte>, i: nat, i2: nat)
    requires i <= |d| && i2 == |pre| + i
    ensures Walk(pre + d, i2) == Walk(d, i)
    decreases |d| - i
  {
    if i < |d| {
      ReadHeaderShift(pre, d, i, i2);
      var h, j := ReadHeader(d, i).0, ReadHeader(d, i).1;
      var j2 := |pre| + j;
      if h.kind != EndOfTable && h.len >= HeaderSize {
        var n := h.len - HeaderSize;
        var payload, k := ReadPayload(d, j, n).0, ReadPayload(d, j, n).1;
        var strings, m := ReadStrings(d, k, []).0, ReadStrings(d, k, []).1;
        var k2, m2 := |pre| + k, |pre| + m;
        StepShift(pre, d, i, h, j, payload, k, strings, m, i2, j2, k2, m2);
        WalkUnfold(d, i, h, j, payload, k, strings, m);
        WalkUnfold(pre + d, i2, h, j2, payload, k2, strings, m2);
        WalkShift(pre, d, m, m2);
      } else {
        WalkHeader(d, i, h, j);
        WalkHeader(pre + d, i2, h, j2);
      }
    } else {
      assert |pre + d| == i2;
    }
  }

  // ------------------------------------------------------- compositionality

  /** The header of a serialized table reads back as the table's header. */
  lemma SerializedHeader(t: Table, rest: seq<byte>)
    requires Serializable(t)
    ensures ReadHeader(Serialize(t) + rest, 0).0 == t.header
    ensures ReadHeader(Serialize(t) + rest, 0).1 == HeaderSize
  {
    var s := Serialize(t);
    var data := s + rest;
    var hb := HeaderBytes(t.header);
    ZeroFilledAt(data, 0, HeaderSize);
    assert ZeroFilled(data, 0, HeaderSize) == hb by {
      var z := ZeroFilled(data, 0, HeaderSize);
      forall k | 0 <= k < HeaderSize
        ensures z[k] == hb[k]
      {
        assert data[k] == s[k] == hb[k];
      }
    }
    DecodeHeaderBytes(t.header);
  }

  /** The formatted area of a serialized table reads back as the table's. */
  lemma SerializedPayload(t: Table, rest: seq<byte>)
    requires Serializable(t)
    ensures ReadPayload(Serialize(t) + rest, HeaderSize, t.header.len - HeaderSize).0 == t.data
    ensures ReadPayload(Serialize(t) + rest, HeaderSize, t.header.len - HeaderSize).1 == t.header.len
  {
    var s := Serialize(t);
    var data := s + rest;
    var n: nat := t.header.len - HeaderSize;
    ZeroFilledAt(data, HeaderSize, n);
    var z := ZeroFilled(data, HeaderSize, n);
    forall k | 0 <= k < n
      ensures z[k] == t.data[k]
    {
      assert data[HeaderSize + k] == s[HeaderSize + k] == t.data[k];
    }
  }

  /** The string area of a serialized table reads back as the table's
      strings and ends where the serialization ends. */
  lemma SerializedStrings(t: Table, rest: seq<byte>)
    requires Serializable(t)
    ensures ReadStrings(Serialize(t) + rest, t.header.len, []).0 == t.strings
    ensures ReadStrings(Serialize(t) + rest, t.header.len, []).1 == |Serialize(t)|
  {
    var s := Serialize(t);
    var data := s + rest;
    var area := StringArea(t.strings);
    var l := t.header.len;
    assert data[l..l + |area|] == s[l..] == area;
    var none: seq<string> := [];
    assert none + t.strings == t.strings;
    ReadStringArea(data, l, none, t.strings);
  }

  /** A serialized table followed by anything decodes to that table followed
      by whatever the rest decodes to: nothing of one table's state carries
      over to the next. */
  lemma Compositional(t: Table, rest: seq<byte>)
    requires Serializable(t)
    ensures Tables(Serialize(t) + rest) == Prepend([t], Tables(rest))
  {
    var h := t.header;
    var s := Serialize(t);
    var l: nat := h.len;
    var e := |s|;
    SerializedHeader(t, rest);
    SerializedPayload(t, rest);
    SerializedStrings(t, rest);
    WalkUnfold(s + rest, 0, h, HeaderSize, t.data, l, t.strings, e);
    WalkShift(s, rest, 0, e);
  }

  /** Any list of serializable tables, serialized back to back and followed
      by anything, decodes to that list followed by what the rest decodes to. */
  lemma {:induction false} CompositionalAll(ts: seq<Table>, rest: seq<byte>)
    requires forall k :: 0 <= k < |ts| ==> Serializable(ts[k])
    ensures Tables(SerializeAll(ts) + rest) == Prepend(ts, Tables(rest))
    decreases |ts|
  {
    if ts == [] {
      assert SerializeAll(ts) + rest == rest;
      match Tables(rest)
      case None =>
      case Some(us) => assert ts + us == us;
    } else {
      var t := ts[0];
      assert SerializeAll(ts) == Serialize(t) + SerializeAll(ts[1..]);
      assert SerializeAll(ts) + rest == Serialize(t) + (SerializeAll(ts[1..]) + rest);
      Compositional(t, SerializeAll(ts[1..]) + rest);
      CompositionalAll(ts[1..], rest);
      PrependPrepend([t], ts[1..], Tables(rest));
      assert [t] + ts[1..] == ts;
    }
  }

  /** Wherever the walk meets a header whose type byte is the end marker, it
      stops there: nothing from that byte on is decoded. */
  lemma EndMarkerStops(data: seq<byte>, i: nat)
    requires i < |data| && data[i] == EndOfTable
    ensures Walk(data, i) == Some([])
  {
    ZeroFilledAt(data, i, HeaderSize);
    assert ZeroFilled(data, i, HeaderSize)[0] == EndOfTable;
    WalkHeader(data, i, ReadHeader(data, i).0, ReadHeader(data, i).1);
  }

  /** The end marker stops the walk whatever follows it. */
  lemma EndMarker(junk: seq<byte>)
    ensures Tables([EndOfTable] + junk) == Some([])
  {
    EndMarkerStops([EndOfTable] + junk, 0);
  }

  /** Round trip: serializing serializable tables and ending the table with
      the end marker decodes to exactly those tables. */
  lemma RoundTrip(ts: seq<Table>, junk: seq<byte>)
    requires forall k :: 0 <= k < |ts| ==> Serializable(ts[k])
    ensures Tables(SerializeAll(ts) + [EndOfTable] + junk) == Some(ts)
  {
    var end: seq<byte> := [EndOfTable];
    assert SerializeAll(ts) + end + junk == SerializeAll(ts) + (end + junk);
    CompositionalAll(ts, end + junk);
    EndMarker(junk);
    assert ts + [] == ts;
  }
}
