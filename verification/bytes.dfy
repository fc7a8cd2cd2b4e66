/** Byte-level vocabulary shared by the SMBIOS model: fixed-width unsigned
    integers, little-endian field readers, and the zero-filled reads the
    table walker performs when the buffer runs out. */
module Bytes {

  type byte = x: int | 0 <= x < 0x100
  type u16 = x: int | 0 <= x < 0x1_0000
  type u32 = x: int | 0 <= x < 0x1_0000_0000
  type u64 = x: int | 0 <= x < 0x1_0000_0000_0000_0000

  function Min(a: nat, b: nat): nat {
    if a <= b then a else b
  }

  /** 256 to the power n: the number of values an n-byte field can hold. */
  function Pow256(n: nat): (r: nat)
    ensures r >= 1
  {
    if n == 0 then 1 else 256 * Pow256(n - 1)
  }

  /** Byte j (0 = least significant) of the little-endian encoding of v. */
  function Digit(v: nat, j: nat): byte
    decreases j
  {
    if j == 0 then v % 256 else Digit(v / 256, j - 1)
  }

  /** The unsigned value of the w bytes of p starting at off, read
      little-endian (byte off is the least significant). */
  function ReadLE(p: seq<byte>, off: nat, w: nat): (r: nat)
    requires off + w <= |p|
    ensures r < Pow256(w)
    decreases w
  {
    if w == 0 then 0 else p[off] + 256 * ReadLE(p, off + 1, w - 1)
  }

  /** Reading w bytes back yields v whenever they hold v's little-endian digits. */
  lemma {:induction false} ReadDigits(p: seq<byte>, off: nat, w: nat, v: nat)
    requires off + w <= |p|
    requires v < Pow256(w)
    requires forall j :: 0 <= j < w ==> p[off + j] == Digit(v, j)
    ensures ReadLE(p, off, w) == v
    decreases w
  {
    if w > 0 {
      assert p[off + 0] == Digit(v, 0);
      forall j | 0 <= j < w - 1
        ensures p[off + 1 + j] == Digit(v / 256, j)
      {
        assert p[off + (j + 1)] == Digit(v, j + 1);
      }
      ReadDigits(p, off + 1, w - 1, v / 256);
    }
  }

  /** Conversely, the digits of a value read little-endian are the bytes it was read from. */
  lemma {:induction false} DigitsOfRead(p: seq<byte>, off: nat, w: nat)
    requires off + w <= |p|
    ensures forall j :: 0 <= j < w ==> Digit(ReadLE(p, off, w), j) == p[off + j]
    decreases w
  {
    if w > 0 {
      var v := ReadLE(p, off, w);
      var r := ReadLE(p, off + 1, w - 1);
      assert v == p[off] + 256 * r;
      assert v % 256 == p[off];
      assert v / 256 == r;
      DigitsOfRead(p, off + 1, w - 1);
      forall j | 0 <= j < w
        ensures Digit(v, j) == p[off + j]
      {
        if j > 0 {
          assert Digit(v, j) == Digit(r, j - 1);
          assert p[off + j] == p[(off + 1) + (j - 1)];
        }
      }
    }
  }

  function U16At(p: seq<byte>, off: nat): u16
    requires off + 2 <= |p|
  {
    assert Pow256(2) == 0x1_0000;
    ReadLE(p, off, 2)
  }

  function U32At(p: seq<byte>, off: nat): u32
    requires off + 4 <= |p|
  {
    assert Pow256(4) == 0x1_0000_0000;
    ReadLE(p, off, 4)
  }

  function U64At(p: seq<byte>, off: nat): u64
    requires off + 8 <= |p|
  {
    assert Pow256(8) == 0x1_0000_0000_0000_0000;
    ReadLE(p, off, 8)
  }

  /** The field readers give back any value whose digits sit at the offset. */
  lemma U16Read(p: seq<byte>, off: nat, v: u16)
    requires off + 2 <= |p|
    requires p[off] == Digit(v, 0) && p[off + 1] == Digit(v, 1)
    ensures U16At(p, off) == v
  {
    assert Pow256(2) == 0x1_0000;
    assert forall j :: 0 <= j < 2 ==> p[off + j] == Digit(v, j) by {
      assert p[off + 0] == p[off];
    }
    ReadDigits(p, off, 2, v);
  }

  lemma U32Read(p: seq<byte>, off: nat, v: u32)
    requires off + 4 <= |p|
    requires p[off] == Digit(v, 0) && p[off + 1] == Digit(v, 1)
    requires p[off + 2] == Digit(v, 2) && p[off + 3] == Digit(v, 3)
    ensures U32At(p, off) == v
  {
    assert Pow256(4) == 0x1_0000_0000;
    assert forall j :: 0 <= j < 4 ==> p[off + j] == Digit(v, j) by {
      assert p[off + 0] == p[off];
    }
    ReadDigits(p, off, 4, v);
  }

  /** The byte at index i of data, or 0 past its end. */
  function ByteAt(data: seq<byte>, i: nat): byte {
    if i < |data| then data[i] else 0
  }

  /** The n bytes of data starting at i, zero-filled past the end of data:
      what a copy loop bounded by both the buffer and the destination
      leaves in a zero-initialised destination of length n. */
  function ZeroFilled(data: seq<byte>, i: nat, n: nat): (r: seq<byte>)
    ensures |r| == n
    decreases n
  {
    if n == 0 then [] else [ByteAt(data, i)] + ZeroFilled(data, i + 1, n - 1)
  }

  /** Byte k of a zero-filled read is byte i + k of data, or 0 past its end. */
  lemma {:induction false} ZeroFilledAt(data: seq<byte>, i: nat, n: nat)
    ensures forall k :: 0 <= k < n ==> ZeroFilled(data, i, n)[k] == ByteAt(data, i + k)
    decreases n
  {
    if n > 0 {
      ZeroFilledAt(data, i + 1, n - 1);
      var r := ZeroFilled(data, i, n);
      forall k | 0 <= k < n
        ensures r[k] == ByteAt(data, i + k)
      {
        if k > 0 {
          assert r[k] == ZeroFilled(data, i + 1, n - 1)[k - 1];
        }
      }
    }
  }

  /** A zero-filled read holds the available bytes of data, then zeros. */
  lemma ZeroFilledSpec(data: seq<byte>, i: nat, n: nat)
    requires i <= |data|
    ensures var r := ZeroFilled(data, i, n); var c := Min(n, |data| - i);
            r[..c] == data[i..i + c] && forall k :: c <= k < n ==> r[k] == 0
  {
    ZeroFilledAt(data, i, n);
  }

  /** The ordinary (unbounded) sum of a byte sequence. */
  function Sum(s: seq<byte>): nat {
    if s == [] then 0 else Sum(s[..|s| - 1]) + s[|s| - 1]
  }

  lemma SumSnoc(a: seq<byte>, b: byte)
    ensures Sum(a + [b]) == Sum(a) + b
  {
    assert (a + [b])[..|a + [b]| - 1] == a;
  }

  lemma Sum4(w: byte, x: byte, y: byte, z: byte)
    ensures Sum([w, x, y, z]) == w + x + y + z
  {
    var e: seq<byte> := [];
    assert [w] == e + [w];
    SumSnoc(e, w);
    assert [w, x] == [w] + [x];
    SumSnoc([w], x);
    assert [w, x, y] == [w, x] + [y];
    SumSnoc([w, x], y);
    assert [w, x, y, z] == [w, x, y] + [z];
    SumSnoc([w, x, y], z);
  }

  lemma {:induction false} SumAppend(a: seq<byte>, b: seq<byte>)
    ensures Sum(a + b) == Sum(a) + Sum(b)
    decreases |b|
  {
    if b == [] {
      assert a + b == a;
    } else {
      assert (a + b)[..|a + b| - 1] == a + b[..|b| - 1];
      SumAppend(a, b[..|b| - 1]);
    }
  }

  lemma SumSplit(s: seq<byte>, k: nat)
    requires k <= |s|
    ensures Sum(s) == Sum(s[..k]) + Sum(s[k..])
  {
    assert s == s[..k] + s[k..];
    SumAppend(s[..k], s[k..]);
  }
}
