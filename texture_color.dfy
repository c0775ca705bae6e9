/**
  The pixel conversions of `ColorFormat` in src/Bti.cpp.

  Channels are `uint8_t`, packed colours are `uint16_t` or `uint32_t`.  The
  source builds a packed value by OR-ing shifted fields into zero; the
  fields it ORs together never share a bit, so each `|=` is written here as
  an addition of the shifted field.  A 32-bit RGBA colour is packed
  `r << 24 | g << 16 | b << 8 | a`, so its channels are exactly its
  big-endian bytes (`Be32`), which is how the decoders take it apart.
*/
module TextureColor {
  import opened Util
  import opened Bytes

  /** A value that fits a `uint16_t`. */
  type u16 = x: nat | x < 0x1_0000

  function Max3(a: nat, b: nat, c: nat): nat {
    if a >= b && a >= c then a else if b >= c then b else c
  }

  function Min3(a: nat, b: nat, c: nat): nat {
    if a <= b && a <= c then a else if b <= c then b else c
  }

  /**
    `toGrayscale8` and `toGrayscale` (src/Bti.cpp:15-21): the weighted mean
    `(30r + 59g + 11b) / 100` in integer division (the `std::round` is
    applied to an integer and changes nothing).  The weights add up to 100,
    so the grey level lies between the darkest and the brightest channel and
    a grey pixel keeps its level.
  */
  function Gray(r: byte, g: byte, b: byte): (y: byte)
    ensures Min3(Val(r), Val(g), Val(b)) <= Val(y) <= Max3(Val(r), Val(g), Val(b))
    ensures r == g == b ==> y == r
  {
    Byte((Val(r) * 30 + Val(g) * 59 + Val(b) * 11) / 100)
  }

  /** `(p << 4) | p`: a 4-bit value stretched to 8 bits by repeating it. */
  function Expand4(p: nat): (v: byte)
    requires p < 16
    ensures Val(v) / 16 == p && Val(v) % 16 == p
  {
    Byte(p * 17)
  }

  /** `RGBA8toI4` (src/Bti.cpp:23-26): the high nibble of the grey level. */
  function RGBA8toI4(r: byte, g: byte, b: byte, a: byte): (i: nat)
    ensures i < 16 && i * 16 <= Val(Gray(r, g, b)) < i * 16 + 16
  {
    Hi(Gray(r, g, b))
  }

  /** `RGBA8toIA4` (src/Bti.cpp:28-34): alpha's high nibble above the grey level's high nibble. */
  function RGBA8toIA4(r: byte, g: byte, b: byte, a: byte): (v: byte)
    ensures Hi(v) == Hi(a) && Lo(v) == Hi(Gray(r, g, b))
  {
    Byte(Hi(Gray(r, g, b)) + Hi(a) * 16)
  }

  /** `RGBA8toI8` (src/Bti.cpp:36-39): the grey level, which always fits the low byte. */
  function RGBA8toI8(r: byte, g: byte, b: byte, a: byte): (v: byte)
    ensures r == g == b ==> v == r
  {
    Gray(r, g, b)
  }

  /** `RGBA8toIA8` (src/Bti.cpp:41-47): alpha in the high byte, the grey level in the low byte. */
  function RGBA8toIA8(r: byte, g: byte, b: byte, a: byte): (v: u16)
    ensures Be16(v) == [a, Gray(r, g, b)]
  {
    ByteOfVal(a);
    ByteOfVal(Gray(r, g, b));
    Val(a) * 256 + Val(Gray(r, g, b))
  }

  /** `RGBA8toRGB565` (src/Bti.cpp:49-55): 5, 6 and 5 high bits of red, green and blue; alpha is ignored. */
  function RGBA8toRGB565(r: byte, g: byte, b: byte, a: byte): (c: u16)
    ensures c / 2048 == Val(r) / 8 && c / 32 % 64 == Val(g) / 4 && c % 32 == Val(b) / 8
  {
    var c := Val(r) / 8 * 2048 + Val(g) / 4 * 32 + Val(b) / 8;
    Fields565(c, Val(r) / 8, Val(g) / 4, Val(b) / 8);
    c
  }

  /** The fields of a word built from a 5-bit, a 6-bit and a 5-bit field. */
  lemma Fields565(c: nat, x: nat, y: nat, z: nat)
    requires x < 32 && y < 64 && z < 32 && c == x * 2048 + y * 32 + z
    ensures c < 0x1_0000 && c / 2048 == x && c / 32 % 64 == y && c % 32 == z
  {
    DivModUnique(c, 2048, x, y * 32 + z);
    DivModUnique(c, 32, x * 64 + y, z);
    DivModUnique(x * 64 + y, 64, x, y);
  }

  /**
    `RGBA8toRGB5A3` (src/Bti.cpp:57-79).  An opaque pixel (alpha 255) sets
    bit 15 and keeps 5 bits per colour; any other pixel clears bit 15 and
    keeps 3 bits of alpha and 4 bits per colour.
  */
  function RGBA8toRGB5A3(r: byte, g: byte, b: byte, a: byte): (c: u16)
    ensures (c >= 0x8000) == (a == 255)
    ensures a == 255 ==> c / 1024 % 32 == Val(r) / 8 && c / 32 % 32 == Val(g) / 8 && c % 32 == Val(b) / 8
    ensures a != 255 ==> c / 4096 == Val(a) / 32 && c / 256 % 16 == Val(r) / 16
                         && c / 16 % 16 == Val(g) / 16 && c % 16 == Val(b) / 16
  {
    if a != 255 then
      var c := Val(a) / 32 * 4096 + Val(r) / 16 * 256 + Val(g) / 16 * 16 + Val(b) / 16;
      Fields4(c, Val(a) / 32, Val(r) / 16, Val(g) / 16, Val(b) / 16);
      c
    else
      var c := 0x8000 + Val(r) / 8 * 1024 + Val(g) / 8 * 32 + Val(b) / 8;
      Fields5(c, Val(r) / 8, Val(g) / 8, Val(b) / 8);
      c
  }

  /** The fields of a word built from a 3-bit and three 4-bit fields. */
  lemma Fields4(c: nat, x: nat, y: nat, z: nat, w: nat)
    requires x < 8 && y < 16 && z < 16 && w < 16 && c == x * 4096 + y * 256 + z * 16 + w
    ensures c < 0x8000 && c / 4096 == x && c / 256 % 16 == y && c / 16 % 16 == z && c % 16 == w
  {
    DivModUnique(c, 4096, x, y * 256 + z * 16 + w);
    DivModUnique(c, 256, x * 16 + y, z * 16 + w);
    DivModUnique(x * 16 + y, 16, x, y);
    DivModUnique(c, 16, x * 256 + y * 16 + z, w);
    DivModUnique(x * 256 + y * 16 + z, 16, x * 16 + y, z);
  }

  /** The fields of a word with bit 15 set and three 5-bit fields. */
  lemma Fields5(c: nat, x: nat, y: nat, z: nat)
    requires x < 32 && y < 32 && z < 32 && c == 0x8000 + x * 1024 + y * 32 + z
    ensures 0x8000 <= c < 0x1_0000 && c / 1024 % 32 == x && c / 32 % 32 == y && c % 32 == z
  {
    DivModUnique(c, 1024, 32 + x, y * 32 + z);
    DivModUnique(32 + x, 32, 1, x);
    DivModUnique(c, 32, 1024 + x * 32 + y, z);
    DivModUnique(1024 + x * 32 + y, 32, 32 + x, y);
  }

  // ---------------------------------------------------------------------
  // Unpacking
  // ---------------------------------------------------------------------

  /** `r << 24 | g << 16 | b << 8 | a`. */
  function Pack(r: byte, g: byte, b: byte, a: byte): (c: u32)
    ensures Be32(c) == [r, g, b, a]
  {
    var c := ((Val(r) * 256 + Val(g)) * 256 + Val(b)) * 256 + Val(a);
    Be32Digits(c, Val(r), Val(g), Val(b), Val(a));
    ByteOfVal(r);
    ByteOfVal(g);
    ByteOfVal(b);
    ByteOfVal(a);
    c
  }

  /**
    `(data & 0xF100) >> 11`, the red field of `RGB565toRGBA8`
    (src/Bti.cpp:82).  The mask keeps bits 15-12 and bit 8; the shift drops
    bit 8 again, so only the top four bits of the five-bit red field
    survive, one place up.
  */
  function Red565(data: u16): (r: nat)
    ensures r == data / 0x1000 * 2 && r <= 30
  {
    var masked := data / 0x1000 * 0x1000 + data / 0x100 % 2 * 0x100;
    DivModUnique(masked, 0x800, data / 0x1000 * 2, data / 0x100 % 2 * 0x100);
    masked / 0x800
  }

  /** `(data & 0x07E0) >> 5`, the six-bit green field. */
  function Green565(data: u16): (g: nat)
    ensures g < 64
  {
    data / 32 % 64
  }

  /** `data & 0x001F`, the five-bit blue field. */
  function Blue565(data: u16): (b: nat)
    ensures b < 32
  {
    data % 32
  }

  /**
    `RGB565toRGBA8` (src/Bti.cpp:81-92): the fields shifted back to the top
    of their bytes, alpha 0xFF.
  */
  function RGB565toRGBA8(data: u16): (c: u32)
    ensures Be32(c)[3] == 255
    ensures Val(Be32(c)[0]) == Red565(data) * 8 && Val(Be32(c)[1]) == Green565(data) * 4
            && Val(Be32(c)[2]) == Blue565(data) * 8
  {
    Pack(Byte(Red565(data) * 8), Byte(Green565(data) * 4), Byte(Blue565(data) * 8), 255)
  }

  /** `(v << 3) | (v >> 2)`: a 5-bit value stretched to 8 bits. */
  function Expand5(v: nat): (e: byte)
    requires v < 32
    ensures Val(e) / 8 == v
  {
    Byte(v * 8 + v / 4)
  }

  /** `(a << 5) | (a << 2) | (a >> 1)`: a 3-bit alpha stretched to 8 bits. */
  function Expand3(v: nat): (e: byte)
    requires v < 8
    ensures (Val(e) == 255) == (v == 7)
    ensures v < 7 ==> Val(e) / 32 == v
  {
    Byte(v * 32 + v * 4 + v / 2)
  }

  /**
    `RGB5A3toRGBA8` (src/Bti.cpp:94-128).  With bit 15 set the colour is
    opaque and has 5 bits per channel; otherwise it carries 3 bits of alpha
    and 4 bits per channel, each nibble repeated.
  */
  function RGB5A3toRGBA8(data: u16): (c: u32)
    ensures data >= 0x8000 ==> Be32(c) == [Expand5(data / 1024 % 32), Expand5(data / 32 % 32), Expand5(data % 32), 255]
    ensures data < 0x8000 ==> Be32(c) == [Expand4(data / 256 % 16), Expand4(data / 16 % 16), Expand4(data % 16), Expand3(data / 4096 % 8)]
  {
    if data >= 0x8000 then
      Pack(Expand5(data / 1024 % 32), Expand5(data / 32 % 32), Expand5(data % 32), 255)
    else
      Pack(Expand4(data / 256 % 16), Expand4(data / 16 % 16), Expand4(data % 16), Expand3(data / 4096 % 8))
  }

  // ---------------------------------------------------------------------
  // Round trips between the encoders and the decoders' expansions
  // ---------------------------------------------------------------------

  /** Decoding a 4-bit intensity and encoding the grey pixel again gives the same intensity. */
  lemma I4RoundTrip(p: nat, a: byte)
    requires p < 16
    ensures RGBA8toI4(Expand4(p), Expand4(p), Expand4(p), a) == p
  {
    assert Gray(Expand4(p), Expand4(p), Expand4(p)) == Expand4(p);
  }

  /** The IA4 byte survives decoding (`Decode::IA4`'s expansion) and re-encoding. */
  lemma IA4RoundTrip(d: byte)
    ensures var i := Expand4(Lo(d));
            RGBA8toIA4(i, i, i, Expand4(Hi(d))) == d
  {
    var i := Expand4(Lo(d));
    assert Gray(i, i, i) == i;
    var v := RGBA8toIA4(i, i, i, Expand4(Hi(d)));
    assert Val(v) == Lo(d) + Hi(d) * 16;
    ValInjective(v, d);
  }

  /**
    An RGB565 encode followed by the decoder as written keeps 6 bits of
    green and 5 of blue but only 4 bits of red (the 0xF100 mask of
    src/Bti.cpp:82), and always reports an opaque pixel.
  */
  lemma RGB565RoundTrip(r: byte, g: byte, b: byte, a: byte)
    ensures Be32(RGB565toRGBA8(RGBA8toRGB565(r, g, b, a))) ==
            [Byte(Val(r) / 16 * 16), Byte(Val(g) / 4 * 4), Byte(Val(b) / 8 * 8), 255]
  {
    var c := RGBA8toRGB565(r, g, b, a);
    assert Red565(c) == Val(r) / 16 * 2 by {
      DivModUnique(c, 0x1000, Val(r) / 16, Val(r) / 8 % 2 * 2048 + Val(g) / 4 * 32 + Val(b) / 8);
    }
    OpaqueBytes(Be32(RGB565toRGBA8(c)), Val(r) / 16 * 16, Val(g) / 4 * 4, Val(b) / 8 * 8);
  }

  /** Four bytes whose first three have the given values and whose last is 255. */
  lemma OpaqueBytes(e: seq<byte>, v0: nat, v1: nat, v2: nat)
    requires |e| == 4 && v0 < 256 && v1 < 256 && v2 < 256
    requires Val(e[0]) == v0 && Val(e[1]) == v1 && Val(e[2]) == v2 && e[3] == 255
    ensures e == [Byte(v0), Byte(v1), Byte(v2), 255]
  {
    ValInjective(e[0], Byte(v0));
    ValInjective(e[1], Byte(v1));
    ValInjective(e[2], Byte(v2));
  }

  /** Bit 11 of an RGB565 colour (the low bit of its red field) never reaches the decoded red channel. */
  lemma RGB565IgnoresRedLowBit(data: u16)
    requires data / 0x800 % 2 == 0
    ensures Be32(RGB565toRGBA8(data + 0x800))[0] == Be32(RGB565toRGBA8(data))[0]
  {
    assert (data + 0x800) / 0x1000 == data / 0x1000 by {
      DivModUnique(data, 0x1000, data / 0x1000, data % 0x1000);
      DivModUnique(data + 0x800, 0x1000, data / 0x1000, data % 0x1000 + 0x800);
    }
    ValInjective(Be32(RGB565toRGBA8(data + 0x800))[0], Be32(RGB565toRGBA8(data))[0]);
  }

  /**
    Decoding an RGB5A3 colour and encoding the pixel again restores it,
    except for a translucent colour with 3-bit alpha 7: that alpha expands
    to 255, which the encoder takes for an opaque pixel.
  */
  lemma RGB5A3RoundTrip(data: u16)
    ensures var e := Be32(RGB5A3toRGBA8(data));
            (RGBA8toRGB5A3(e[0], e[1], e[2], e[3]) == data) <==> (data >= 0x8000 || data / 4096 % 8 < 7)
  {
    var e := Be32(RGB5A3toRGBA8(data));
    var c := RGBA8toRGB5A3(e[0], e[1], e[2], e[3]);
    if data >= 0x8000 {
      assert c / 1024 % 32 == data / 1024 % 32 && c / 32 % 32 == data / 32 % 32 && c % 32 == data % 32;
      SplitWord5(c);
      SplitWord5(data);
    } else if data / 4096 % 8 < 7 {
      assert c / 4096 == data / 4096 % 8;
      SplitWord4(c);
      SplitWord4(data);
    } else {
      assert c >= 0x8000;
    }
  }

  /** A 16-bit word with bit 15 set is determined by its three 5-bit fields. */
  lemma SplitWord5(c: u16)
    requires c >= 0x8000
    ensures c == 0x8000 + c / 1024 % 32 * 1024 + c / 32 % 32 * 32 + c % 32
  {
    DivModUnique(c, 1024, 32 + c / 1024 % 32, c % 1024);
    DivModUnique(c % 1024, 32, c / 32 % 32, c % 32);
  }

  /** A 16-bit word with bit 15 clear is determined by its 3-bit and three 4-bit fields. */
  lemma SplitWord4(c: u16)
    requires c < 0x8000
    ensures c == c / 4096 % 8 * 4096 + c / 256 % 16 * 256 + c / 16 % 16 * 16 + c % 16
  {
    DivModUnique(c, 4096, c / 4096 % 8, c % 4096);
    DivModUnique(c % 4096, 256, c / 256 % 16, c % 256);
    DivModUnique(c % 256, 16, c / 16 % 16, c % 16);
  }

  // ---------------------------------------------------------------------
  // CMPR sub-blocks
  // ---------------------------------------------------------------------

  /** Red, green, blue and alpha of a packed colour: `(c & 0xFF000000) >> 24` and so on. */
  function Channel(c: u32, k: nat): nat
    requires k < 4
  {
    Val(Be32(c)[k])
  }

  /** `(2 * x + y) / 3` on each colour channel: the colour two thirds of the way from `y` to `x`. */
  function Blend21(x: u32, y: u32, alpha: byte): (c: u32)
    ensures Channel(c, 0) == (2 * Channel(x, 0) + Channel(y, 0)) / 3
    ensures Channel(c, 1) == (2 * Channel(x, 1) + Channel(y, 1)) / 3
    ensures Channel(c, 2) == (2 * Channel(x, 2) + Channel(y, 2)) / 3
    ensures Channel(c, 3) == Val(alpha)
  {
    var ex, ey := Be32(x), Be32(y);
    Pack(Byte((2 * Val(ex[0]) + Val(ey[0])) / 3), Byte((2 * Val(ex[1]) + Val(ey[1])) / 3),
         Byte((2 * Val(ex[2]) + Val(ey[2])) / 3), alpha)
  }

  /** `(x + y) / 2` on each colour channel. */
  function Average(x: u32, y: u32, alpha: byte): (c: u32)
    ensures Channel(c, 0) == (Channel(x, 0) + Channel(y, 0)) / 2
    ensures Channel(c, 1) == (Channel(x, 1) + Channel(y, 1)) / 2
    ensures Channel(c, 2) == (Channel(x, 2) + Channel(y, 2)) / 2
    ensures Channel(c, 3) == Val(alpha)
  {
    var ex, ey := Be32(x), Be32(y);
    Pack(Byte((Val(ex[0]) + Val(ey[0])) / 2), Byte((Val(ex[1]) + Val(ey[1])) / 2),
         Byte((Val(ex[2]) + Val(ey[2])) / 2), alpha)
  }

  /**
    The four-entry colour table of `DecodeCMPRSubBlock`
    (src/Bti.cpp:137-173): the two endpoint colours, then either the 2:1
    and 1:2 blends, both opaque (when `color0 > color1`), or the average
    and the 1:2 blend with alpha 0.
  */
  function Palette(c0: u16, c1: u16): (t: seq<u32>)
    ensures |t| == 4 && t[0] == RGB565toRGBA8(c0) && t[1] == RGB565toRGBA8(c1)
    ensures t[2] == if c0 > c1 then Blend21(t[0], t[1], 255) else Average(t[0], t[1], 255)
    ensures t[3] == Blend21(t[1], t[0], if c0 > c1 then 255 else 0)
  {
    var e0, e1 := RGB565toRGBA8(c0), RGB565toRGBA8(c1);
    [e0, e1, if c0 > c1 then Blend21(e0, e1, 255) else Average(e0, e1, 255),
     Blend21(e1, e0, if c0 > c1 then 255 else 0)]
  }

  /** Only the third palette entry of a block with `color0 <= color1` is transparent. */
  lemma PaletteAlpha(c0: u16, c1: u16, k: nat)
    requires k < 4
    ensures Channel(Palette(c0, c1)[k], 3) == if k == 3 && c0 <= c1 then 0 else 255
  {
    var t := Palette(c0, c1);
    assert Channel(t[0], 3) == 255 && Channel(t[1], 3) == 255;
  }

  /** `4^k`. */
  function Pow4(k: nat): (r: nat)
    ensures r >= 1
  {
    if k == 0 then 1 else 4 * Pow4(k - 1)
  }

  /** `(bits >> ((15 - i) * 2)) & 3`: the palette entry of pixel `i`, pixel 0 in the top two bits. */
  function Select(bits: u32, i: nat): (si: nat)
    requires i < 16
    ensures si < 4
  {
    bits / Pow4(15 - i) % 4
  }

  /** Byte `k` of a pixel buffer lies in pixel `k / 4`, channel `k % 4`. */
  lemma Quad(i: nat, k: nat)
    requires 4 * i <= k < 4 * i + 4
    ensures k / 4 == i && k % 4 == k - 4 * i
  {
    DivModUnique(k, 4, i, k - 4 * i);
  }

  /** Byte `k` of a 4x4 RGBA sub-block drawn from palette `t`: channel `k % 4` of pixel `k / 4`. */
  function SubBlockByte(t: seq<u32>, bits: u32, k: nat): byte
    requires |t| == 4 && k < 64
  {
    Be32(t[Select(bits, k / 4)])[k % 4]
  }

  /** Writes the four bytes `px` of one RGBA pixel at `di`; the rest of `data` is unchanged. */
  method PutPixel(data: array<byte>, di: nat, px: seq<byte>)
    requires |px| == 4 && di + 4 <= data.Length
    modifies data
    ensures forall k :: 0 <= k < data.Length ==> data[k] == if di <= k < di + 4 then px[k - di] else old(data[k])
  {
    data[di], data[di + 1], data[di + 2], data[di + 3] := px[0], px[1], px[2], px[3];
  }

  /**
    `DecodeCMPRSubBlock` (src/Bti.cpp:130-190): reads two big-endian
    RGB565 colours and a 32-bit index word at `pos`, and fills a fresh
    4x4 RGBA buffer in which pixel `i` is the palette entry chosen by
    index bits `30 - 2i` and `31 - 2i`.
  */
  method DecodeCMPRSubBlock(s: seq<byte>, pos: nat) returns (data: array<byte>, pos': nat)
    requires pos + 8 <= |s|
    ensures fresh(data) && data.Length == 64 && pos' == pos + 8
    ensures forall k :: 0 <= k < 64 ==>
      data[k] == SubBlockByte(Palette(U16BE(s, pos), U16BE(s, pos + 2)), U32BE(s, pos + 4), k)
  {
    var color0 := U16BE(s, pos);
    var color1 := U16BE(s, pos + 2);
    var bits := U32BE(s, pos + 4);
    pos' := pos + 8;
    var colorTable := Palette(color0, color1);
    data := new byte[64];
    var pixelY := 0;
    while pixelY < 4
      invariant 0 <= pixelY <= 4
      invariant forall k :: 0 <= k < pixelY * 16 ==> data[k] == SubBlockByte(colorTable, bits, k)
    {
      SubBlockRow(data, colorTable, bits, pixelY);
      pixelY := pixelY + 1;
    }
  }

  /** One pass of the `pixelY` loop of `DecodeCMPRSubBlock`: the four pixels of row `pixelY`. */
  method SubBlockRow(data: array<byte>, colorTable: seq<u32>, bits: u32, pixelY: nat)
    requires data.Length == 64 && pixelY < 4 && |colorTable| == 4
    requires forall k :: 0 <= k < pixelY * 16 ==> data[k] == SubBlockByte(colorTable, bits, k)
    modifies data
    ensures forall k :: 0 <= k < pixelY * 16 + 16 ==> data[k] == SubBlockByte(colorTable, bits, k)
  {
    var pixelX := 0;
    while pixelX < 4
      invariant 0 <= pixelX <= 4
      invariant forall k :: 0 <= k < pixelY * 16 + pixelX * 4 ==> data[k] == SubBlockByte(colorTable, bits, k)
    {
      var i := pixelY * 4 + pixelX;
      PutPixel(data, i * 4, Be32(colorTable[Select(bits, i)]));
      forall k | i * 4 <= k < i * 4 + 4
        ensures data[k] == SubBlockByte(colorTable, bits, k)
      {
        Quad(i, k);
      }
      pixelX := pixelX + 1;
    }
  }
}
