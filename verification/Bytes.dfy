/** The byte-level view of the host's C data: bytes, 32-bit integers in two's
    complement, and their little-endian layout on the i386 the system is built for. */
module Bytes {
  type byte = x: int | 0 <= x < 256
  type int32 = x: int | -0x8000_0000 <= x < 0x8000_0000
  type uint32 = x: int | 0 <= x < 0x1_0000_0000

  /** The unsigned value with the same 32 bits. */
  function Unsigned(n: int32): uint32 {
    if n < 0 then n + 0x1_0000_0000 else n
  }

  /** The two's complement value with the same 32 bits. */
  function Signed(u: uint32): int32 {
    if u < 0x8000_0000 then u else u - 0x1_0000_0000
  }

  /** Reduces any integer to 32 bits, as C's int arithmetic does on the machine modelled. */
  function Wrap32(n: int): int32 {
    Signed(n % 0x1_0000_0000)
  }

  /** Both readings of a word have the same bits, and each undoes the other. */
  lemma SameBits(n: int32, u: uint32)
    ensures (Unsigned(n) - n) % 0x1_0000_0000 == 0 && (Signed(u) - u) % 0x1_0000_0000 == 0
    ensures Signed(Unsigned(n)) == n && Unsigned(Signed(u)) == u
  {
  }

  /** Reduction changes a number by a multiple of 2^32 only, and a number that fits not at all. */
  lemma WrapKeepsBits(n: int)
    ensures (Wrap32(n) - n) % 0x1_0000_0000 == 0
    ensures -0x8000_0000 <= n < 0x8000_0000 ==> Wrap32(n) == n
  {
    var m := n % 0x1_0000_0000;
    assert n == n / 0x1_0000_0000 * 0x1_0000_0000 + m;
    assert Signed(m) == m || Signed(m) == m - 0x1_0000_0000;
  }

  function Magnitude(n: int): (m: nat)
    ensures m == n || m == -n
  {
    if n < 0 then -n else n
  }

  /** Division as C does it, truncating toward zero. */
  function CDiv(a: int, b: int): (q: int)
    requires b > 0
  {
    if a >= 0 then a / b else -((-a) / b)
  }

  /** The remainder that goes with it is smaller than the divisor and has the sign of the dividend. */
  lemma CDivTruncates(a: int, b: int)
    requires b > 0
    ensures var r := a - b * CDiv(a, b); -b < r < b && (a >= 0 ==> r >= 0) && (a <= 0 ==> r <= 0)
  {
    if a < 0 {
      var q := (-a) / b;
      assert -a == b * q + (-a) % b;
      assert b * (-q) == -(b * q);
    }
  }

  /** The four bytes of a word, lowest first. */
  function Le(u: uint32): (b: seq<byte>)
    ensures |b| == 4
  {
    [u % 256, u / 0x100 % 256, u / 0x1_0000 % 256, u / 0x100_0000]
  }

  function FromLe(b: seq<byte>): uint32
    requires |b| == 4
  {
    (b[0] as int) + 0x100 * (b[1] as int) + 0x1_0000 * (b[2] as int) + 0x100_0000 * (b[3] as int)
  }

  function Pow256(i: nat): (p: nat)
    ensures p > 0
  {
    if i == 0 then 1 else 256 * Pow256(i - 1)
  }

  /** Byte i of a word has weight 256^i. */
  lemma LeByte(u: uint32, i: nat)
    requires i < 4
    ensures Le(u)[i] == u / Pow256(i) % 256
  {
    assert Pow256(0) == 1 && Pow256(1) == 0x100 && Pow256(2) == 0x1_0000 && Pow256(3) == 0x100_0000;
  }

  /** Any four bytes are those of the word that they stand for. */
  lemma FromLeRoundTrip(b: seq<byte>)
    requires |b| == 4
    ensures Le(FromLe(b)) == b
  {
    var u := FromLe(b);
    var x: int, y: int, z: int := b[1], b[2], b[3];
    assert u / 0x100 == x + 0x100 * y + 0x1_0000 * z;
    assert u / 0x1_0000 == y + 0x100 * z;
    assert u / 0x100_0000 == z;
  }

  lemma LeRoundTrip(u: uint32)
    ensures FromLe(Le(u)) == u
  {
    assert u / 0x100 / 0x100 == u / 0x1_0000;
    assert u / 0x1_0000 / 0x100 == u / 0x100_0000;
  }

  /** The bytes of an array of words. */
  function Words(ws: seq<uint32>): (b: seq<byte>)
    ensures |b| == 4 * |ws|
  {
    seq(4 * |ws|, k requires 0 <= k < 4 * |ws| => Le(ws[k / 4])[k % 4])
  }

  function WordAt(b: seq<byte>, i: nat): uint32
    requires 4 * i + 4 <= |b|
  {
    FromLe(b[4 * i..4 * i + 4])
  }

  /** Reading word i of an encoded word array gives back word i. */
  lemma WordsRoundTrip(ws: seq<uint32>, i: nat)
    requires i < |ws|
    ensures WordAt(Words(ws), i) == ws[i]
  {
    assert Words(ws)[4 * i..4 * i + 4] == Le(ws[i]);
    LeRoundTrip(ws[i]);
  }
}
