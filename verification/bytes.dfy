/** Bytes, Java's fixed-width integers and little-endian byte layouts.

    An archive is an immutable sequence of unsigned bytes. Java's `int` and
    `long` arithmetic wraps around; the model writes that wrap-around out with
    Int32 and Int64 wherever the Java code computes in those types. */
module Bytes {

  type byte = b: int | 0 <= b < 256

  const TWO_31: int := 0x8000_0000
  const TWO_32: int := 0x1_0000_0000
  const TWO_63: int := 0x8000_0000_0000_0000
  const TWO_64: int := 0x1_0000_0000_0000_0000

  predicate IsInt32(x: int) { -TWO_31 <= x < TWO_31 }
  predicate IsInt64(x: int) { -TWO_63 <= x < TWO_63 }

  /** The Java `int` that the mathematical value x wraps around to. */
  function Int32(x: int): (r: int)
    ensures IsInt32(r)
    ensures IsInt32(x) ==> r == x
    ensures r % TWO_32 == x % TWO_32
  {
    if IsInt32(x) then x
    else
      var m := x % TWO_32;
      if m < TWO_31 then m else m - TWO_32
  }

  /** The Java `long` that the mathematical value x wraps around to. */
  function Int64(x: int): (r: int)
    ensures IsInt64(r)
    ensures IsInt64(x) ==> r == x
    ensures r % TWO_64 == x % TWO_64
  {
    if IsInt64(x) then x
    else
      var m := x % TWO_64;
      if m < TWO_63 then m else m - TWO_64
  }

  /** Java's `/` on `int`: division truncating toward zero. */
  function JavaDiv(a: int, d: int): (r: int)
    requires d > 0
    ensures a >= 0 ==> r == a / d
    ensures a < 0 ==> r == -((-a) / d)
  {
    if a >= 0 then a / d else -((-a) / d)
  }

  function Min(a: int, b: int): int { if a <= b then a else b }

  function Max(a: int, b: int): int { if a >= b then a else b }

  function Pow256(n: nat): (r: nat)
    ensures r >= 1
  {
    if n == 0 then 1 else 256 * Pow256(n - 1)
  }

  lemma Pow256Values()
    ensures Pow256(2) == 0x1_0000
    ensures Pow256(4) == TWO_32
    ensures Pow256(8) == TWO_64
  {
    assert Pow256(1) == 256;
    assert Pow256(2) == 0x1_0000;
    assert Pow256(3) == 0x100_0000;
    assert Pow256(4) == TWO_32;
    assert Pow256(5) == 0x100_0000_0000;
    assert Pow256(6) == 0x1_0000_0000_0000;
    assert Pow256(7) == 0x100_0000_0000_0000;
  }

  /** The unsigned value of bytes stored least significant first: Java's
      `(b[0] & 0xFF) | (b[1] & 0xFF) << 8 | ...`, whose shifted bytes do not
      overlap, so the ors are sums. */
  function UIntLe(s: seq<byte>): (r: nat)
    ensures r < Pow256(|s|)
  {
    if s == [] then 0 else s[0] + 256 * UIntLe(s[1..])
  }

  /** The n bytes that store v least significant first. */
  function EncodeLe(v: nat, n: nat): (r: seq<byte>)
    requires v < Pow256(n)
    ensures |r| == n
  {
    if n == 0 then [] else [v % 256] + EncodeLe(v / 256, n - 1)
  }

  lemma {:induction false} UIntLeOfEncodeLe(v: nat, n: nat)
    requires v < Pow256(n)
    ensures UIntLe(EncodeLe(v, n)) == v
  {
    if n > 0 {
      var s := EncodeLe(v, n);
      assert s[1..] == EncodeLe(v / 256, n - 1);
      UIntLeOfEncodeLe(v / 256, n - 1);
    }
  }

  lemma {:induction false} EncodeLeOfUIntLe(s: seq<byte>)
    ensures EncodeLe(UIntLe(s), |s|) == s
  {
    if s != [] {
      var x := UIntLe(s[1..]);
      EncodeLeOfUIntLe(s[1..]);
      DivMod256(s[0], x);
      assert EncodeLe(UIntLe(s), |s|) == [s[0]] + EncodeLe(x, |s| - 1);
    }
  }

  /** A byte plus 256 times x splits back into the byte and x. */
  lemma DivMod256(a: byte, x: nat)
    ensures (a + 256 * x) % 256 == a && (a + 256 * x) / 256 == x
  {
  }

  /** The value UIntLe gives for four bytes, written out. */
  lemma UIntLe4(s: seq<byte>)
    requires |s| == 4
    ensures UIntLe(s) == s[0] as int + 0x100 * s[1] as int + 0x1_0000 * s[2] as int + 0x100_0000 * s[3] as int
  {
    var s1, s2, s3 := s[1..], s[2..], s[3..];
    assert s1[1..] == s2 && s2[1..] == s3 && s3[1..] == [];
    assert UIntLe(s3) == s[3] as int;
    assert UIntLe(s2) == s[2] as int + 256 * s[3] as int;
    assert UIntLe(s1) == s[1] as int + 256 * s[2] as int + 0x1_0000 * s[3] as int;
  }

  /** The value UIntLe gives for eight bytes: the low four bytes plus 2^32
      times the high four. */
  lemma UIntLe8(s: seq<byte>)
    requires |s| == 8
    ensures UIntLe(s) == UIntLe(s[..4]) + TWO_32 * UIntLe(s[4..])
  {
    var t := s[4..];
    var s1, s2, s3, s4 := s[1..], s[2..], s[3..], s[4..];
    assert s1[1..] == s2 && s2[1..] == s3 && s3[1..] == s4;
    var l := s[..4];
    assert l[1..][1..][1..][1..] == [];
    assert UIntLe(l[1..][1..][1..]) == s[3] as int;
    assert UIntLe(l[1..][1..]) == s[2] as int + 256 * s[3] as int;
    assert UIntLe(l[1..]) == s[1] as int + 256 * s[2] as int + 0x1_0000 * s[3] as int;
  }

  /** Java's `readShortLe` on the bytes at p: `b0 | b1 << 8`, unsigned. */
  function UInt16At(data: seq<byte>, p: nat): (r: int)
    requires p + 2 <= |data|
    ensures 0 <= r < 0x1_0000
  {
    data[p] as int + 0x100 * data[p + 1] as int
  }

  /** The unsigned value of the four bytes at p, least significant first. */
  function UInt32At(data: seq<byte>, p: nat): (r: int)
    requires p + 4 <= |data|
    ensures 0 <= r < TWO_32
  {
    data[p] as int + 0x100 * data[p + 1] as int + 0x1_0000 * data[p + 2] as int + 0x100_0000 * data[p + 3] as int
  }

  /** Java's `readIntLe` / `Util.getIntLe` on the bytes at p: `b0 | b1 << 8 |
      b2 << 16 | b3 << 24` as a two's-complement `int`; a set top bit gives a
      negative value. */
  function Int32At(data: seq<byte>, p: nat): (r: int)
    requires p + 4 <= |data|
    ensures IsInt32(r)
    ensures r >= 0 <==> data[p + 3] < 128
  {
    var u := UInt32At(data, p);
    if u < TWO_31 then u else u - TWO_32
  }

  /** Java's `readLongLe` on the bytes at p: eight bytes as a
      two's-complement `long`. */
  function Int64At(data: seq<byte>, p: nat): (r: int)
    requires p + 8 <= |data|
    ensures IsInt64(r)
  {
    var u := UInt32At(data, p) + TWO_32 * UInt32At(data, p + 4);
    if u < TWO_63 then u else u - TWO_64
  }

  function EncodeInt16(v: int): (r: seq<byte>)
    requires 0 <= v < 0x1_0000
    ensures |r| == 2
  {
    Pow256Values();
    EncodeLe(v, 2)
  }

  function EncodeInt32(v: int): (r: seq<byte>)
    requires IsInt32(v)
    ensures |r| == 4
  {
    Pow256Values();
    EncodeLe(if v < 0 then v + TWO_32 else v, 4)
  }

  function EncodeInt64(v: int): (r: seq<byte>)
    requires IsInt64(v)
    ensures |r| == 8
  {
    Pow256Values();
    EncodeLe(if v < 0 then v + TWO_64 else v, 8)
  }

  /** UInt32At is UIntLe of the four bytes at p. */
  lemma UInt32AtIsUIntLe(data: seq<byte>, p: nat)
    requires p + 4 <= |data|
    ensures UInt32At(data, p) == UIntLe(data[p..p + 4])
  {
    UIntLe4(data[p..p + 4]);
  }

  /** A short written at p reads back. */
  lemma Int16RoundTrip(pre: seq<byte>, v: int, rest: seq<byte>)
    requires 0 <= v < 0x1_0000
    ensures UInt16At(pre + EncodeInt16(v) + rest, |pre|) == v
  {
    Pow256Values();
    var s := EncodeInt16(v);
    UIntLeOfEncodeLe(v, 2);
    assert s[1..][1..] == [];
    assert UIntLe(s) == s[0] as int + 256 * UIntLe(s[1..]);
  }

  /** An `int` written at p reads back. */
  lemma Int32RoundTrip(pre: seq<byte>, v: int, rest: seq<byte>)
    requires IsInt32(v)
    ensures Int32At(pre + EncodeInt32(v) + rest, |pre|) == v
  {
    Pow256Values();
    var d := pre + EncodeInt32(v) + rest;
    UIntLeOfEncodeLe(if v < 0 then v + TWO_32 else v, 4);
    assert d[|pre|..|pre| + 4] == EncodeInt32(v);
    UInt32AtIsUIntLe(d, |pre|);
  }

  /** A `long` written at p reads back. */
  lemma Int64RoundTrip(pre: seq<byte>, v: int, rest: seq<byte>)
    requires IsInt64(v)
    ensures Int64At(pre + EncodeInt64(v) + rest, |pre|) == v
  {
    Pow256Values();
    var d := pre + EncodeInt64(v) + rest;
    var e := EncodeInt64(v);
    UIntLeOfEncodeLe(if v < 0 then v + TWO_64 else v, 8);
    assert d[|pre|..|pre| + 4] == e[..4];
    assert d[|pre| + 4..|pre| + 8] == e[4..];
    UInt32AtIsUIntLe(d, |pre|);
    UInt32AtIsUIntLe(d, |pre| + 4);
    UIntLe8(e);
  }

  /** Two bytes that encode v decode to v wherever they lie. */
  lemma UInt16AtEncoded(data: seq<byte>, p: nat, v: int)
    requires 0 <= v < 0x1_0000 && p + 2 <= |data| && data[p..p + 2] == EncodeInt16(v)
    ensures UInt16At(data, p) == v
  {
    assert data == data[..p] + EncodeInt16(v) + data[p + 2..];
    Int16RoundTrip(data[..p], v, data[p + 2..]);
  }

  /** Four bytes that encode v decode to v wherever they lie. */
  lemma Int32AtEncoded(data: seq<byte>, p: nat, v: int)
    requires IsInt32(v) && p + 4 <= |data| && data[p..p + 4] == EncodeInt32(v)
    ensures Int32At(data, p) == v
  {
    assert data == data[..p] + EncodeInt32(v) + data[p + 4..];
    Int32RoundTrip(data[..p], v, data[p + 4..]);
  }

  /** Eight bytes that encode v decode to v wherever they lie. */
  lemma Int64AtEncoded(data: seq<byte>, p: nat, v: int)
    requires IsInt64(v) && p + 8 <= |data| && data[p..p + 8] == EncodeInt64(v)
    ensures Int64At(data, p) == v
  {
    assert data == data[..p] + EncodeInt64(v) + data[p + 8..];
    Int64RoundTrip(data[..p], v, data[p + 8..]);
  }

  /** Decoding four bytes and encoding the value again gives the same bytes:
      every `int` has exactly one little-endian form. */
  lemma Int32Unique(data: seq<byte>, p: nat)
    requires p + 4 <= |data|
    ensures EncodeInt32(Int32At(data, p)) == data[p..p + 4]
  {
    Pow256Values();
    UInt32AtIsUIntLe(data, p);
    EncodeLeOfUIntLe(data[p..p + 4]);
  }

  /** An `int` read from a copy of its four bytes is the `int` read in
      place. */
  lemma Int32AtSlice(data: seq<byte>, p: nat)
    requires p + 4 <= |data|
    ensures Int32At(data[p..p + 4], 0) == Int32At(data, p)
  {
    var w := data[p..p + 4];
    assert w[0] == data[p] && w[1] == data[p + 1] && w[2] == data[p + 2] && w[3] == data[p + 3];
  }

  /** A part of a sequence found at p lies at the matching positions. */
  lemma SliceAt(data: seq<byte>, p: nat, w: seq<byte>, i: nat, j: nat)
    requires p + |w| <= |data| && data[p..p + |w|] == w && i <= j <= |w|
    ensures data[p + i..p + j] == w[i..j]
  {
    forall k | 0 <= k < j - i ensures data[p + i..p + j][k] == w[i..j][k] {
      assert data[p..p + |w|][i + k] == w[i + k];
    }
  }

  /** Where three pieces lie one after another in the data, each lies at
      its own offset. */
  lemma SplitThree(data: seq<byte>, p: nat, x: seq<byte>, y: seq<byte>, z: seq<byte>)
    requires p + |x + y + z| <= |data| && data[p..p + |x + y + z|] == x + y + z
    ensures data[p..p + |x|] == x
    ensures data[p + |x|..p + |x| + |y|] == y
    ensures data[p + |x| + |y|..p + |x| + |y| + |z|] == z
  {
    var w := x + y + z;
    forall i | 0 <= i < |w| ensures data[p + i] == w[i] {
      assert data[p..p + |w|][i] == w[i];
    }
    assert forall i :: 0 <= i < |x| ==> data[p..p + |x|][i] == w[i] == x[i];
    assert forall i :: 0 <= i < |y| ==> data[p + |x|..p + |x| + |y|][i] == w[|x| + i] == y[i];
    assert forall i :: 0 <= i < |z| ==> data[p + |x| + |y|..p + |w|][i] == w[|x| + |y| + i] == z[i];
  }

  /** Bytes read as text: one character per byte. This is what Java's UTF-8
      decoding gives for ASCII text. */
  function Latin1(bs: seq<byte>): (r: string)
    ensures |r| == |bs|
    ensures forall i :: 0 <= i < |bs| ==> r[i] as int == bs[i]
  {
    seq(|bs|, i requires 0 <= i < |bs| => bs[i] as char)
  }

  predicate IsLatin1(s: string) { forall i :: 0 <= i < |s| ==> s[i] as int < 256 }

  function Latin1Bytes(s: string): (r: seq<byte>)
    requires IsLatin1(s)
    ensures |r| == |s|
    ensures Latin1(r) == s
  {
    seq(|s|, i requires 0 <= i < |s| => s[i] as int as byte)
  }

  function Zeros(n: nat): (r: seq<byte>)
    ensures |r| == n && forall i :: 0 <= i < n ==> r[i] == 0
  {
    seq(n, i => 0)
  }
}
