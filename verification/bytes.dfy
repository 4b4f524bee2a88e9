/** Bytes, little-endian 32-bit words and in-place splices of byte strings. */
module Bytes {

  type byte = x: int | 0 <= x < 256

  const TWO32: nat := 0x1_0000_0000

  /** The little-endian 32-bit word stored at `off`. */
  function Word(s: seq<byte>, off: nat): (w: nat)
    requires off + 4 <= |s|
    ensures w < TWO32
  {
    s[off] as int + 0x100 * s[off + 1] as int + 0x1_0000 * s[off + 2] as int + 0x100_0000 * s[off + 3] as int
  }

  /** The four bytes a 32-bit store writes; reading them back gives the word. */
  function WordBytes(w: nat): (s: seq<byte>)
    requires w < TWO32
    ensures |s| == 4 && Word(s, 0) == w
  {
    var w1 := w / 0x100;
    var w2 := w1 / 0x100;
    [w % 0x100, w1 % 0x100, w2 % 0x100, w2 / 0x100]
  }

  lemma PeelByte(a: byte, x: nat, b: byte, y: nat)
    requires a as int + 0x100 * x == b as int + 0x100 * y
    ensures a == b && x == y
  {
  }

  lemma FourBytes(a: byte, b: byte, c: byte, e: byte, a': byte, b': byte, c': byte, e': byte)
    requires a as nat + 0x100 * b as nat + 0x1_0000 * c as nat + 0x100_0000 * e as nat
          == a' as nat + 0x100 * b' as nat + 0x1_0000 * c' as nat + 0x100_0000 * e' as nat
    ensures (a, b, c, e) == (a', b', c', e')
  {
    var u, u' := c as nat + 0x100 * e as nat, c' as nat + 0x100 * e' as nat;
    PeelByte(a, b as nat + 0x100 * u, a', b' as nat + 0x100 * u');
    PeelByte(b, u, b', u');
    PeelByte(c, e as nat, c', e' as nat);
  }

  /** `s` with the bytes from `off` on replaced by `t`. */
  function Splice<T>(s: seq<T>, off: nat, t: seq<T>): (r: seq<T>)
    requires off + |t| <= |s|
    ensures |r| == |s|
    ensures forall k :: 0 <= k < |s| ==> r[k] == if off <= k < off + |t| then t[k - off] else s[k]
  {
    seq(|s|, k requires 0 <= k < |s| => if off <= k < off + |t| then t[k - off] else s[k])
  }

  function Zeros(n: nat): (z: seq<byte>)
    ensures |z| == n && forall k :: 0 <= k < n ==> z[k] == 0
  {
    seq(n, _ => 0)
  }

  /** A non-negative value cut to `uint32_t`. */
  function Wrap32(x: nat): (r: nat)
    ensures r < TWO32
  {
    if x < TWO32 then x else Wrap32(x - TWO32)
  }

  /** `uint32_t` subtraction. */
  function Sub32(a: nat, b: nat): (r: nat)
    requires a < TWO32 && b < TWO32
    ensures r < TWO32
  {
    if a >= b then a - b else a + TWO32 - b
  }

  function Min(a: int, b: int): int { if a <= b then a else b }

  function Max(a: int, b: int): int { if a >= b then a else b }
}
