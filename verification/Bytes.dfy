/** Bytes and little-endian integers in byte buffers. */
module Bytes {

  type byte = x: int | 0 <= x < 256

  function LE16(b: seq<byte>, o: nat): (r: nat)
    requires o + 2 <= |b|
    ensures r < 0x1_0000
  {
    (b[o] as int) + 256 * (b[o + 1] as int)
  }

  function LE32(b: seq<byte>, o: nat): (r: nat)
    requires o + 4 <= |b|
    ensures r < 0x1_0000_0000
  {
    LE16(b, o) + 0x1_0000 * LE16(b, o + 2)
  }

  /** The bytes of a little-endian number, lowest first. */
  lemma {:induction false} LE32Is(b: seq<byte>, o: nat)
    requires o + 4 <= |b|
    ensures LE32(b, o) == (b[o] as int) + 0x100 * (b[o + 1] as int) + 0x1_0000 * (b[o + 2] as int) + 0x100_0000 * (b[o + 3] as int)
    ensures LE16(b, o) == (b[o] as int) + 0x100 * (b[o + 1] as int)
  {
  }

  /** The `n` low bytes of a number, lowest first. */
  function Le(x: nat, n: nat): (s: seq<byte>)
    ensures |s| == n
  {
    if n == 0 then [] else [x % 256] + Le(x / 256, n - 1)
  }

  lemma {:induction false} LeBytes(x: nat)
    ensures Le(x, 2) == [x % 256, x / 256 % 256]
    ensures Le(x, 4) == [x % 256, x / 256 % 256, x / 256 / 256 % 256, x / 256 / 256 / 256 % 256]
  {
    assert Le(x, 4) == [x % 256] + ([x / 256 % 256] + Le(x / 256 / 256, 2));
    var y := x / 256 / 256;
    assert Le(y, 2) == [y % 256] + ([y / 256 % 256] + Le(y / 256 / 256, 0));
    assert Le(x, 2) == [x % 256] + ([x / 256 % 256] + Le(x / 256 / 256, 0));
  }

  /** A number stored in two bytes is read back. */
  lemma {:induction false} LeRead16(b: seq<byte>, o: nat, x: nat)
    requires x < 0x1_0000 && o + 2 <= |b| && b[o..o + 2] == Le(x, 2)
    ensures LE16(b, o) == x
  {
    LeBytes(x);
    var s := b[o..o + 2];
    assert s[0] == b[o] && s[1] == b[o + 1];
  }

  /** A number stored in four bytes is read back. */
  lemma {:induction false} LeRead32(b: seq<byte>, o: nat, x: nat)
    requires x < 0x1_0000_0000 && o + 4 <= |b| && b[o..o + 4] == Le(x, 4)
    ensures LE32(b, o) == x
  {
    LeBytes(x);
    var s := b[o..o + 4];
    assert s[0] == b[o] && s[1] == b[o + 1] && s[2] == b[o + 2] && s[3] == b[o + 3];
    LE32Is(b, o);
    FourDigits(x);
  }

  lemma {:induction false} FourDigits(x: nat)
    requires x < 0x1_0000_0000
    ensures x == x % 256 + 0x100 * (x / 256 % 256) + 0x1_0000 * (x / 256 / 256 % 256) + 0x100_0000 * (x / 256 / 256 / 256 % 256)
  {
    var y := x / 256;
    var z := y / 256;
    assert x == 256 * y + x % 256 && y == 256 * z + y % 256 && z == 256 * (z / 256) + z % 256 && z / 256 < 256;
  }

  function LE64(b: seq<byte>, o: nat): (r: nat)
    requires o + 8 <= |b|
    ensures r < 0x1_0000_0000_0000_0000
  {
    LE32(b, o) + 0x1_0000_0000 * LE32(b, o + 4)
  }
}
