/**
  Byte-order helpers.  The tool set reads and writes 8-, 16- and 32-bit
  integers through memory streams that carry a byte order (big-endian by
  default, little-endian for byte-swapped RARC files); the stream library is
  not part of this model, only the byte layout of those integers is.
*/
module Bytes {
  import opened Util

  /** An unsigned 8-bit value. */
  newtype byte = x: int | 0 <= x < 256

  datatype ByteOrder = Big | Little

  /** A file or folder name: its bytes, without the terminating NUL. */
  type Name = seq<byte>

  /** File contents whose length fits a `uint32_t` size field. */
  type Data = s: seq<byte> | |s| < TWO_32 witness []

  /** A byte as an unbounded natural. */
  function Val(b: byte): (r: nat)
    ensures r < 256
  {
    b as nat
  }

  /** Two bytes with the same value are the same byte. */
  lemma ValInjective(a: byte, b: byte)
    requires Val(a) == Val(b)
    ensures a == b
  {
  }

  /** The byte holding a natural below 256, `(uint8_t)x`. */
  function Byte(x: nat): (r: byte)
    requires x < 256
    ensures Val(r) == x
  {
    x as byte
  }

  /** `b >> 4`: the high nibble. */
  function Hi(b: byte): (r: nat)
    ensures r < 16
  {
    Val(b) / 16
  }

  /** `b & 0x0F`: the low nibble. */
  function Lo(b: byte): (r: nat)
    ensures r < 16
  {
    Val(b) % 16
  }

  lemma ByteOfVal(b: byte)
    ensures Byte(Val(b)) == b
  {
    ValInjective(Byte(Val(b)), b);
  }

  // ---------------------------------------------------------------------
  // Reading
  // ---------------------------------------------------------------------

  function U16BE(s: seq<byte>, i: nat): (r: nat)
    requires i + 2 <= |s|
    ensures r < 0x1_0000
  {
    Val(s[i]) * 256 + Val(s[i + 1])
  }

  function U32BE(s: seq<byte>, i: nat): (r: u32)
    requires i + 4 <= |s|
  {
    ((Val(s[i]) * 256 + Val(s[i + 1])) * 256 + Val(s[i + 2])) * 256 + Val(s[i + 3])
  }

  function U16LE(s: seq<byte>, i: nat): (r: nat)
    requires i + 2 <= |s|
    ensures r < 0x1_0000
  {
    Val(s[i + 1]) * 256 + Val(s[i])
  }

  function U32LE(s: seq<byte>, i: nat): (r: u32)
    requires i + 4 <= |s|
  {
    ((Val(s[i + 3]) * 256 + Val(s[i + 2])) * 256 + Val(s[i + 1])) * 256 + Val(s[i])
  }

  function Read16(order: ByteOrder, s: seq<byte>, i: nat): (r: nat)
    requires i + 2 <= |s|
    ensures r < 0x1_0000
  {
    if order == Big then U16BE(s, i) else U16LE(s, i)
  }

  function Read32(order: ByteOrder, s: seq<byte>, i: nat): u32
    requires i + 4 <= |s|
  {
    if order == Big then U32BE(s, i) else U32LE(s, i)
  }

  // ---------------------------------------------------------------------
  // Writing
  // ---------------------------------------------------------------------

  function Be16(x: nat): (r: seq<byte>)
    requires x < 0x1_0000
    ensures |r| == 2
  {
    [Byte(x / 0x100), Byte(x % 0x100)]
  }

  function Be32(x: u32): (r: seq<byte>)
    ensures |r| == 4
  {
    [Byte(x / 0x100 / 0x100 / 0x100), Byte(x / 0x100 / 0x100 % 0x100),
     Byte(x / 0x100 % 0x100), Byte(x % 0x100)]
  }

  /** `n` zero bytes. */
  function Zeros(n: nat): (z: seq<byte>)
    ensures |z| == n && forall i :: 0 <= i < n ==> z[i] == 0
  {
    seq(n, _ => 0)
  }

  /** A word below 256 is three zero bytes and itself. */
  lemma Be32Small(x: nat)
    requires x < 256
    ensures Be32(x) == [0, 0, 0, Byte(x)]
  {
    assert x / 0x100 == 0 && x % 0x100 == x;
    assert Byte(0) == 0;
  }

  // ---------------------------------------------------------------------
  // Round trips
  // ---------------------------------------------------------------------

  lemma U16BEOfBe16(x: nat)
    requires x < 0x1_0000
    ensures U16BE(Be16(x), 0) == x
  {
  }

  lemma U32BEOfBe32(x: u32)
    ensures U32BE(Be32(x), 0) == x
  {
  }

  /** Reading back a big-endian word from inside a larger buffer. */
  lemma U32BEAt(a: seq<byte>, x: u32, b: seq<byte>)
    ensures U32BE(a + Be32(x) + b, |a|) == x
  {
    var s := a + Be32(x) + b;
    assert s[|a|..|a| + 4] == Be32(x);
    U32BEOfBe32(x);
  }

  lemma U16BEAt(a: seq<byte>, x: nat, b: seq<byte>)
    requires x < 0x1_0000
    ensures U16BE(a + Be16(x) + b, |a|) == x
  {
    var s := a + Be16(x) + b;
    assert s[|a|] == Be16(x)[0] && s[|a| + 1] == Be16(x)[1];
  }

  /** A word is read from its own four bytes. */
  lemma U32BEOfSlice(s: seq<byte>, i: nat)
    requires i + 4 <= |s|
    ensures U32BE(s, i) == U32BE(s[i..i + 4], 0)
  {
    var t := s[i..i + 4];
    assert t[0] == s[i] && t[1] == s[i + 1] && t[2] == s[i + 2] && t[3] == s[i + 3];
  }

  /** A half-word is read from its own two bytes. */
  lemma U16BEOfSlice(s: seq<byte>, i: nat)
    requires i + 2 <= |s|
    ensures U16BE(s, i) == U16BE(s[i..i + 2], 0)
  {
    var t := s[i..i + 2];
    assert t[0] == s[i] && t[1] == s[i + 1];
  }

  /** The big-endian bytes of a word given by its four base-256 digits. */
  lemma Be32Digits(x: u32, a: nat, b: nat, c: nat, d: nat)
    requires a < 256 && b < 256 && c < 256 && d < 256
    requires x == ((a * 256 + b) * 256 + c) * 256 + d
    ensures Be32(x) == [Byte(a), Byte(b), Byte(c), Byte(d)]
  {
    var ab := a * 256 + b;
    var abc := ab * 256 + c;
    DivModUnique(x, 0x100, abc, d);
    DivModUnique(abc, 0x100, ab, c);
    DivModUnique(ab, 0x100, a, b);
  }

  /** The other direction: four bytes are the encoding of the word they hold. */
  lemma Be32OfU32BE(s: seq<byte>, i: nat)
    requires i + 4 <= |s|
    ensures Be32(U32BE(s, i)) == s[i..i + 4]
  {
    Be32Digits(U32BE(s, i), Val(s[i]), Val(s[i + 1]), Val(s[i + 2]), Val(s[i + 3]));
    ByteOfVal(s[i]);
    ByteOfVal(s[i + 1]);
    ByteOfVal(s[i + 2]);
    ByteOfVal(s[i + 3]);
    assert s[i..i + 4] == [s[i], s[i + 1], s[i + 2], s[i + 3]];
  }
}
