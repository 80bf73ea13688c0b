/**
 Byte-addressed memory as the C program sees it: copies into a buffer, and the
 native little-endian layout of `int` (4 bytes, two's complement) and `size_t`
 (8 bytes, arithmetic modulo 2^64).
 */
module Memory {

  type byte = x: int | 0 <= x < 256

  const SIZE_MOD: int := 0x1_0000_0000_0000_0000
  const INT_MOD: int := 0x1_0000_0000
  const INT_MAX: int := 0x7fff_ffff

  /** The value of a `size_t` computation whose exact result is `x`. */
  function Wrap(x: int): (r: nat)
    ensures r < SIZE_MOD
    ensures 0 <= x < SIZE_MOD ==> r == x
    ensures -SIZE_MOD <= x < 0 ==> r == x + SIZE_MOD
  {
    if 0 <= x < SIZE_MOD then x
    else if -SIZE_MOD <= x < 0 then x + SIZE_MOD
    else x % SIZE_MOD
  }

  predicate IsInt(x: int) {
    -INT_MAX - 1 <= x <= INT_MAX
  }

  /** The conversion `(int) x` of a `size_t`: the low 32 bits, read as two's complement. */
  function CastToInt(x: nat): (r: int)
    ensures IsInt(r)
    ensures x <= INT_MAX ==> r == x
  {
    var low := x % INT_MOD;
    if low <= INT_MAX then low else low - INT_MOD
  }

  /** C's `/` on a positive divisor: truncation towards zero. */
  function TruncDiv(x: int, d: int): (r: int)
    requires d > 0
    ensures x >= 0 ==> r == x / d
    ensures x < 0 ==> r == -((-x) / d)
  {
    if x >= 0 then x / d else -((-x) / d)
  }

  /** `memcpy(s + at, src, |src|)`. */
  function Splice<T>(s: seq<T>, at: nat, src: seq<T>): (r: seq<T>)
    requires at + |src| <= |s|
    ensures |r| == |s|
    ensures forall i :: at <= i < at + |src| ==> r[i] == src[i - at]
    ensures forall i :: 0 <= i < |s| && !(at <= i < at + |src|) ==> r[i] == s[i]
  {
    s[..at] + src + s[at + |src|..]
  }

  /** The low `n` base-256 digits of `v`, least significant first. */
  function Encode(v: nat, n: nat): (r: seq<byte>)
    ensures |r| == n
  {
    if n == 0 then [] else [v % 256] + Encode(v / 256, n - 1)
  }

  function Decode(bytes: seq<byte>): (v: nat) {
    if bytes == [] then 0 else bytes[0] + 256 * Decode(bytes[1..])
  }

  function Pow256(n: nat): (p: nat)
    ensures p > 0
  {
    if n == 0 then 1 else 256 * Pow256(n - 1)
  }

  lemma {:induction false} DecodeEncode(v: nat, n: nat)
    requires v < Pow256(n)
    ensures Decode(Encode(v, n)) == v
  {
    if n > 0 {
      DecodeEncode(v / 256, n - 1);
      assert Encode(v, n)[1..] == Encode(v / 256, n - 1);
    }
  }

  lemma {:induction false} EncodeDecode(bytes: seq<byte>)
    ensures Encode(Decode(bytes), |bytes|) == bytes
  {
    if bytes != [] {
      EncodeDecode(bytes[1..]);
      assert Decode(bytes) / 256 == Decode(bytes[1..]) && Decode(bytes) % 256 == bytes[0];
    }
  }

  lemma Pow256Values()
    ensures Pow256(4) == INT_MOD
    ensures Pow256(8) == SIZE_MOD
  {
    assert Pow256(2) == 65536;
    assert Pow256(4) == INT_MOD;
    assert Pow256(6) == 0x1_0000_0000_0000;
  }

  /** The four bytes of an `int`. */
  function EncodeInt(v: int): (r: seq<byte>)
    requires IsInt(v)
    ensures |r| == 4
  {
    Encode(if v < 0 then v + INT_MOD else v, 4)
  }

  function DecodeInt(bytes: seq<byte>): (v: int) {
    var u := Decode(bytes);
    if u <= INT_MAX then u else u - INT_MOD
  }

  lemma DecodeEncodeInt(v: int)
    requires IsInt(v)
    ensures DecodeInt(EncodeInt(v)) == v
  {
    Pow256Values();
    DecodeEncode(if v < 0 then v + INT_MOD else v, 4);
  }

  lemma ZeroInFront(s: seq<byte>)
    ensures Decode([0] + s) == 256 * Decode(s)
  {
    assert ([0] + s)[1..] == s;
  }

  lemma FourZeros(rest: seq<byte>)
    ensures Decode([0, 0, 0, 0] + rest) == 256 * 256 * 256 * 256 * Decode(rest)
  {
    var a, b, c := [0, 0, 0] + rest, [0, 0] + rest, [0] + rest;
    ZeroInFront(rest);
    ZeroInFront(c);
    ZeroInFront(b);
    ZeroInFront(a);
    assert [0] + rest == c && [0] + c == b && [0] + b == a && [0] + a == [0, 0, 0, 0] + rest;
  }

  /** Four 0xff bytes read as the `int` -1. */
  lemma AllOnesIsMinusOne()
    ensures EncodeInt(-1) == [255, 255, 255, 255]
    ensures DecodeInt([255, 255, 255, 255]) == -1
  {
    var v := INT_MOD - 1;
    assert Encode(v / 256 / 256 / 256, 1) == [255];
    assert Encode(v / 256 / 256, 2) == [255, 255];
    assert Encode(v / 256, 3) == [255, 255, 255];
    assert Encode(v, 4) == [255, 255, 255, 255];
    DecodeEncodeInt(-1);
  }

  /** Reading an `int` at a byte address. */
  function ReadInt(data: seq<byte>, at: nat): (v: int)
    requires at + 4 <= |data|
  {
    DecodeInt(data[at..at + 4])
  }

  function WriteInt(data: seq<byte>, at: nat, v: int): (r: seq<byte>)
    requires at + 4 <= |data|
    requires IsInt(v)
    ensures |r| == |data|
  {
    Splice(data, at, EncodeInt(v))
  }

  lemma ReadWrittenInt(data: seq<byte>, at: nat, v: int)
    requires at + 4 <= |data| && IsInt(v)
    ensures ReadInt(WriteInt(data, at, v), at) == v
  {
    assert WriteInt(data, at, v)[at..at + 4] == EncodeInt(v);
    DecodeEncodeInt(v);
  }

  /** Storing -1 over a -1 changes nothing. */
  lemma RewriteMinusOne(data: seq<byte>, at: nat)
    requires at + 4 <= |data| && ReadInt(data, at) == -1
    ensures WriteInt(data, at, -1) == data
  {
    EncodeDecode(data[at..at + 4]);
    assert EncodeInt(-1) == data[at..at + 4];
  }

  /** An `int` depends on its own four bytes only. */
  lemma ReadIntFrame(data: seq<byte>, data': seq<byte>, at: nat)
    requires at + 4 <= |data| == |data'|
    requires forall i :: at <= i < at + 4 ==> data[i] == data'[i]
    ensures ReadInt(data, at) == ReadInt(data', at)
  {
    assert data[at..at + 4] == data'[at..at + 4];
  }
}
