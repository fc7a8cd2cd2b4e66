/** The structure-table walker: splits a raw SMBIOS structure table into its
    structures, each a header, a formatted area and a string set. */
module Walker {
  import opened Bytes
  import opened Wrappers
  import opened Record

  /** A string the walker can produce: every character is a non-zero byte
      widened to the character of the same code. */
  predicate ValidString(s: string) {
    forall k :: 0 <= k < |s| ==> 0 < s[k] as int < 0x100
  }

  /** The shape of every string set the walker produces: valid strings, and
      only the first one may be empty (an empty first string is how a
      structure without strings is written). */
  predicate StringSet(ss: seq<string>) {
    && (forall k :: 0 <= k < |ss| ==> ValidString(ss[k]))
    && (forall k :: 1 <= k < |ss| ==> ss[k] != [])
  }

  /** What holds of every table the walker produces. */
  predicate Decoded(t: Table) {
    && t.header.kind != EndOfTable
    && t.header.len >= HeaderSize
    && |t.data| == t.header.len - HeaderSize
    && StringSet(t.strings)
  }

  /** Bytes widened to characters one for one, as `b as char` does. */
  function Widen(run: seq<byte>): (s: string)
    ensures |s| == |run|
  {
    seq(|run|, (k: int) requires 0 <= k < |run| => run[k] as char)
  }

  /** Widening keeps every byte's code. */
  lemma WidenAt(run: seq<byte>)
    ensures forall k :: 0 <= k < |run| ==> Widen(run)[k] as int == run[k]
  {
  }

  /** The header at cursor i and the cursor just past the up to 4 bytes
      read for it. */
  function ReadHeader(data: seq<byte>, i: nat): (r: (Header, nat))
    requires i < |data|
    ensures i < r.1 <= |data|
  {
    (DecodeHeader(ZeroFilled(data, i, HeaderSize)), Min(i + HeaderSize, |data|))
  }

  /** The header is read from the up to 4 bytes available at the cursor,
      zero-filled when the table ends sooner. */
  lemma ReadHeaderSpec(data: seq<byte>, i: nat)
    requires i < |data|
    ensures var (h, j) := ReadHeader(data, i);
            && j - i == Min(HeaderSize, |data| - i)
            && HeaderBytes(h)[..j - i] == data[i..j]
            && forall k :: j - i <= k < HeaderSize ==> HeaderBytes(h)[k] == 0
  {
    ZeroFilledSpec(data, i, HeaderSize);
  }

  /** The n-byte formatted area at cursor j and the cursor just past the
      bytes actually copied. */
  function ReadPayload(data: seq<byte>, j: nat, n: nat): (r: (seq<byte>, nat))
    requires j <= |data|
    ensures |r.0| == n
    ensures j <= r.1 <= |data|
  {
    (ZeroFilled(data, j, n), Min(j + n, |data|))
  }

  /** The formatted area holds the bytes available from the cursor, then
      zeros up to its declared size. */
  lemma ReadPayloadSpec(data: seq<byte>, j: nat, n: nat)
    requires j <= |data|
    ensures var (p, k) := ReadPayload(data, j, n);
            && k - j == Min(n, |data| - j)
            && p[..k - j] == data[j..k]
            && forall q :: k - j <= q < n ==> p[q] == 0
  {
    ZeroFilledSpec(data, j, n);
  }

  /** One string of the unformatted area, and the cursor past it. */
  function ReadString(data: seq<byte>, i: nat): (r: (seq<byte>, nat))
    requires i <= |data|
    ensures i + |r.0| <= r.1 <= |data|
    ensures i < |data| ==> i < r.1
    decreases |data| - i
  {
    if i == |data| then ([], i)
    else if data[i] == 0 then ([], i + 1)
    else
      var rest := ReadString(data, i + 1);
      ([data[i]] + rest.0, rest.1)
  }

  /** A string is the bytes from the cursor up to the next NUL, or up to the
      end of the table when no NUL follows; the NUL is consumed. */
  lemma {:induction false} ReadStringSpec(data: seq<byte>, i: nat)
    requires i <= |data|
    ensures var (run, j) := ReadString(data, i);
            && i + |run| <= |data| && data[i..i + |run|] == run
            && (forall k :: 0 <= k < |run| ==> run[k] != 0)
            && if i + |run| < |data| then data[i + |run|] == 0 && j == i + |run| + 1 else j == |data|
    decreases |data| - i
  {
    if i < |data| && data[i] != 0 {
      ReadStringSpec(data, i + 1);
      var run := ReadString(data, i).0;
      var rest := ReadString(data, i + 1).0;
      assert run == [data[i]] + rest;
      assert forall k :: 1 <= k < |run| ==> run[k] == rest[k - 1];
    }
  }

  /** The string set from cursor i, appended to acc: strings are read until
      the table ends or, once at least one string has been read, until an
      empty one (the second NUL of the double NUL). */
  function ReadStrings(data: seq<byte>, i: nat, acc: seq<string>): (r: (seq<string>, nat))
    requires i <= |data|
    ensures i <= r.1 <= |data|
    decreases |data| - i
  {
    if i == |data| then (acc, i)
    else
      var (run, j) := ReadString(data, i);
      if run == [] && acc != [] then (acc, j)
      else ReadStrings(data, j, acc + [Widen(run)])
  }

  /** The string loop only appends to what it was given, and what it appends
      keeps the shape of a string set. */
  lemma {:induction false} ReadStringsExtends(data: seq<byte>, i: nat, acc: seq<string>)
    requires i <= |data| && StringSet(acc)
    ensures var r := ReadStrings(data, i, acc).0;
            |acc| <= |r| && r[..|acc|] == acc && StringSet(r)
    decreases |data| - i
  {
    if i < |data| {
      var (run, j) := ReadString(data, i);
      if !(run == [] && acc != []) {
        ReadStringSpec(data, i);
        var acc' := acc + [Widen(run)];
        WidenAt(run);
        assert ValidString(Widen(run));
        assert forall q :: 0 <= q < |acc| ==> acc'[q] == acc[q];
        ReadStringsExtends(data, j, acc');
        var r := ReadStrings(data, j, acc').0;
        assert r[..|acc|] == r[..|acc'|][..|acc|];
      }
    }
  }

  /** The tables from cursor i on; None where the library aborts, at a
      header (other than the end marker) whose length is below the header's
      own size. */
  function Walk(data: seq<byte>, i: nat): (r: Option<seq<Table>>)
    requires i <= |data|
    ensures r.Some? ==> |r.value| <= |data| - i
    decreases |data| - i
  {
    if i == |data| then Some([])
    else
      var (h, j) := ReadHeader(data, i);
      if h.kind == EndOfTable then Some([])
      else if h.len < HeaderSize then None
      else
        var (payload, k) := ReadPayload(data, j, h.len - HeaderSize);
        var (strings, m) := ReadStrings(data, k, []);
        match Walk(data, m)
        case None => None
        case Some(rest) => Some([Table(h, payload, strings)] + rest)
  }

  /** Every table the walk produces has the shape Decoded describes. */
  lemma {:induction false} WalkDecoded(data: seq<byte>, i: nat)
    requires i <= |data|
    ensures Walk(data, i).Some? ==> forall k :: 0 <= k < |Walk(data, i).value| ==> Decoded(Walk(data, i).value[k])
    decreases |data| - i
  {
    if i < |data| {
      var h, j := ReadHeader(data, i).0, ReadHeader(data, i).1;
      WalkHeader(data, i, h, j);
      if h.kind != EndOfTable && h.len >= HeaderSize {
        var payload, k := ReadPayload(data, j, h.len - HeaderSize).0, ReadPayload(data, j, h.len - HeaderSize).1;
        ReadStringsExtends(data, k, []);
        var strings, m := ReadStrings(data, k, []).0, ReadStrings(data, k, []).1;
        WalkUnfold(data, i, h, j, payload, k, strings, m);
        WalkDecoded(data, m);
        PrependDecoded(Table(h, payload, strings), Walk(data, m));
      }
    }
  }

  /** A well-formed table in front of well-formed tables. */
  lemma PrependDecoded(t: Table, rest: Option<seq<Table>>)
    requires Decoded(t)
    requires rest.Some? ==> forall k :: 0 <= k < |rest.value| ==> Decoded(rest.value[k])
    ensures var r := Prepend([t], rest);
            r.Some? ==> forall k :: 0 <= k < |r.value| ==> Decoded(r.value[k])
  {
    if rest.Some? {
      var ts := [t] + rest.value;
      assert forall q :: 1 <= q < |ts| ==> ts[q] == rest.value[q - 1];
    }
  }

  /** All tables of a raw structure table. */
  function Tables(data: seq<byte>): (r: Option<seq<Table>>)
    ensures r.Some? ==> |r.value| <= |data|
    ensures r.Some? ==> forall k :: 0 <= k < |r.value| ==> Decoded(r.value[k])
  {
    WalkDecoded(data, 0);
    Walk(data, 0)
  }

  /** The tables already collected, followed by the outcome of the rest of
      the walk. */
  function Prepend(tables: seq<Table>, rest: Option<seq<Table>>): Option<seq<Table>> {
    match rest
    case None => None
    case Some(ts) => Some(tables + ts)
  }

  /** The copy loop the library runs for both the header and the formatted
      area: copy from data at cursor i into n zeroed bytes while both the
      table and the destination last. */
  method CopyFilled(data: seq<byte>, i: nat, n: nat) returns (buf: seq<byte>, next: nat)
    requires i <= |data|
    ensures buf == ZeroFilled(data, i, n)
    ensures next == Min(i + n, |data|)
  {
    buf := seq(n, (_: int) => 0);
    next := i;
    var j := 0;
    while next < |data| && j < n
      invariant j <= n && next == i + j <= |data|
      invariant |buf| == n
      invariant forall k :: 0 <= k < j ==> buf[k] == data[i + k]
      invariant forall k :: j <= k < n ==> buf[k] == 0
    {
      buf := buf[j := data[next]];
      next := next + 1;
      j := j + 1;
    }
    ZeroFilledAt(data, i, n);
    forall k | 0 <= k < n
      ensures buf[k] == ByteAt(data, i + k)
    {
    }
  }

  /** A run of non-NUL bytes ending at e, where a NUL or the end of the table
      follows, is the string ReadString reads. */
  lemma ReadStringAt(data: seq<byte>, i: nat, e: nat)
    requires i <= e <= |data|
    requires forall k :: i <= k < e ==> data[k] != 0
    requires e == |data| || data[e] == 0
    ensures ReadString(data, i) == (data[i..e], if e < |data| then e + 1 else e)
  {
    ReadStringSpec(data, i);
  }

  /** Collecting in two steps is collecting once. */
  lemma PrependPrepend(a: seq<Table>, b: seq<Table>, rest: Option<seq<Table>>)
    ensures Prepend(a, Prepend(b, rest)) == Prepend(a + b, rest)
  {
    if rest.Some? {
      assert a + (b + rest.value) == (a + b) + rest.value;
    }
  }

  /** The inner string loop: push bytes as characters until a NUL, which
      is consumed, or the end of the table. */
  method CollectString(data: seq<byte>, i0: nat) returns (str: string, i: nat)
    requires i0 <= |data|
    ensures str == Widen(ReadString(data, i0).0) && i == ReadString(data, i0).1
  {
    ghost var nul := false;
    str := [];
    i := i0;
    while i < |data|
      invariant i0 <= i <= |data|
      invariant forall q :: i0 <= q < i ==> data[q] != 0
      invariant str == Widen(data[i0..i])
      decreases |data| - i
    {
      var b := data[i];
      i := i + 1;
      if b == 0 {
        nul := true;
        break;
      }
      str := str + [b as char];
    }
    if nul {
      ReadStringAt(data, i0, i - 1);
    } else {
      ReadStringAt(data, i0, i);
    }
  }

  /** The outer string loop: collect strings until the table ends or an
      empty string follows at least one collected string. */
  method CollectStrings(data: seq<byte>, i0: nat) returns (strings: seq<string>, i: nat)
    requires i0 <= |data|
    ensures strings == ReadStrings(data, i0, []).0 && i == ReadStrings(data, i0, []).1
  {
    strings := [];
    i := i0;
    while i < |data|
      invariant i0 <= i <= |data|
      invariant ReadStrings(data, i, strings) == ReadStrings(data, i0, [])
      decreases |data| - i
    {
      var str, j := CollectString(data, i);
      if str == [] && strings != [] {
        i := j;
        return;
      }
      strings := strings + [str];
      i := j;
    }
  }

  /** The walk at a cursor, given what its one step reads there. */
  lemma WalkUnfold(data: seq<byte>, i: nat, h: Header, j: nat, payload: seq<byte>, k: nat, strings: seq<string>, m: nat)
    requires i < |data|
    requires ReadHeader(data, i).0 == h && ReadHeader(data, i).1 == j
    requires h.kind != EndOfTable && h.len >= HeaderSize
    requires ReadPayload(data, j, h.len - HeaderSize).0 == payload
    requires ReadPayload(data, j, h.len - HeaderSize).1 == k
    requires ReadStrings(data, k, []).0 == strings && ReadStrings(data, k, []).1 == m
    ensures Walk(data, i) == Prepend([Table(h, payload, strings)], Walk(data, m))
  {
  }

  /** One step of the string loop: a string is collected unless it is empty
      and follows collected strings, in which case the loop stops. */
  lemma ReadStringsStep(data: seq<byte>, i: nat, acc: seq<string>, run: seq<byte>, j: nat)
    requires i < |data| && ReadString(data, i) == (run, j)
    ensures j <= |data|
    ensures run == [] && acc != [] ==> ReadStrings(data, i, acc) == (acc, j)
    ensures !(run == [] && acc != []) ==> ReadStrings(data, i, acc) == ReadStrings(data, j, acc + [Widen(run)])
  {
  }

  /** The walk ends at the end marker and aborts at a header too short to
      cover itself. */
  lemma WalkHeader(data: seq<byte>, i: nat, h: Header, j: nat)
    requires i < |data| && ReadHeader(data, i).0 == h && ReadHeader(data, i).1 == j
    ensures h.kind == EndOfTable ==> Walk(data, i) == Some([])
    ensures h.kind != EndOfTable && h.len < HeaderSize ==> Walk(data, i) == None
  {
  }

  /** The header copy reads the header ReadHeader describes. */
  lemma HeaderCopied(data: seq<byte>, i: nat, bytes: seq<byte>)
    requires i < |data| && bytes == ZeroFilled(data, i, HeaderSize)
    ensures ReadHeader(data, i).0 == DecodeHeader(bytes)
    ensures ReadHeader(data, i).1 == Min(i + HeaderSize, |data|)
  {
  }

  /** The library's loops, step for step: a header copy, the end-marker
      check, a formatted-area copy, and the string loops, repeated while
      bytes remain. It computes exactly Tables(data). */
  method DecodeTables(data: seq<byte>) returns (r: Option<seq<Table>>)
    ensures r == Tables(data)
  {
    var tables: seq<Table> := [];
    var i: nat := 0;
    assert Prepend([], Walk(data, 0)) == Walk(data, 0) by {
      if Walk(data, 0).Some? {
        assert [] + Walk(data, 0).value == Walk(data, 0).value;
      }
    }
    while i < |data|
      invariant i <= |data|
      invariant Prepend(tables, Walk(data, i)) == Walk(data, 0)
      decreases |data| - i
    {
      ghost var i0 := i;
      var bytes, j := CopyFilled(data, i, HeaderSize);
      var header := DecodeHeader(bytes);
      HeaderCopied(data, i0, bytes);
      WalkHeader(data, i0, header, j);
      i := j;
      if header.kind == EndOfTable {
        assert tables + [] == tables;
        return Some(tables);
      }
      if header.len < HeaderSize {
        return None;
      }
      var table, k := CopyFilled(data, i, header.len - HeaderSize);
      assert ReadPayload(data, j, header.len - HeaderSize).0 == table;
      assert ReadPayload(data, j, header.len - HeaderSize).1 == k;
      i := k;

      var strings;
      strings, i := CollectStrings(data, k);
      var t := Table(header, table, strings);
      WalkUnfold(data, i0, header, j, table, k, strings, i);
      PrependPrepend(tables, [t], Walk(data, i));
      tables := tables + [t];
    }
    assert tables + [] == tables;
    r := Some(tables);
  }
}
