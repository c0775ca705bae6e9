/**
  The tiled encoders of src/Bti.cpp (`ImageFormat::Encode::*`, all but
  CMPR).  Each one reads a `width * height * 4` RGBA buffer and writes, in
  storage order, one stream unit per unit of its tiling: one byte (I8, IA4),
  one byte per pair of pixels (I4), or one big-endian 16-bit word (IA8,
  RGB565, RGB5A3).

  An encoder is specified by `Encoded`: the units of its tiling in order,
  each written only when its pixel lies inside the image.  `EmittedAt`
  places every unit in the stream, and `RoundTrip` states what the matching
  decoder of src/Bti.cpp makes of the stream again.
*/
module TextureEncode {
  import opened Util
  import opened Bytes
  import opened TextureColor
  import opened TextureTiles
  import opened TextureDecode

  /**
    The units an encoder walks.  I4, I8, IA4, IA8 and RGB565 visit only the
    whole tiles (`width / 8` or `width / 4` of them across); I4 treats a
    pair of pixels as one unit, so its 8x8 pixel tiles are 4x8 tiles of
    pairs.  RGB5A3 steps its tiles across the whole image, partial tiles
    included (src/Bti.cpp:628-661).
  */
  function EncodeTiles(f: Format, w: nat, h: nat): (g: Tiling)
    requires f != CMPR
    ensures g.Valid()
  {
    if f == I4 then Tiling(4, 8, w / 8, h / 8)
    else if f == RGB565 then Tiling(4, 4, w / 4, h / 4)
    else if f == RGB5A3 then Tiling(4, 4, (w + 3) / 4, (h + 3) / 4)
    else Tiling(8, 4, w / 8, h / 4)
  }

  /** Bytes of one unit: `writeUInt8` for I4, I8 and IA4, `writeUInt16` for the rest. */
  function UnitBytes(f: Format): nat {
    match f
    case I4 => 1
    case I8 => 1
    case IA4 => 1
    case _ => 2
  }

  /** The image column of the first pixel of unit column `c`. */
  function UnitX(f: Format, c: nat): nat {
    if f == I4 then 2 * c else c
  }

  /** The encoders' bounds check: the unit's (first) pixel lies inside the image. */
  predicate InImage(f: Format, w: nat, h: nat, c: nat, r: nat) {
    UnitX(f, c) < w && r < h
  }

  /** The RGBA bytes of pixel `(x, y)`: `imageData[((y * width) + x) * 4 + i]` for `i` below 4. */
  function PixelAt(img: seq<byte>, w: nat, h: nat, x: nat, y: nat): (p: seq<byte>)
    requires |img| == w * h * 4 && x < w && y < h
    ensures |p| == 4
  {
    PixelInImage(w, h, x, y);
    img[4 * (y * w + x)..4 * (y * w + x) + 4]
  }

  /**
    The bytes an encoder writes for unit `(c, r)`.  I4 packs the 4-bit
    intensities of the pixel and its right neighbour into one byte, the
    first in the high nibble.  IA8 passes `imageData[srcIndex] + 3`, red
    plus 3 truncated to a byte, as the alpha of `RGBA8toIA8`
    (src/Bti.cpp:767).
  */
  function Unit(f: Format, img: seq<byte>, w: nat, h: nat, c: nat, r: nat): (u: seq<byte>)
    requires f != CMPR && |img| == w * h * 4 && InImage(f, w, h, c, r)
    requires f == I4 ==> 2 * c + 1 < w
    ensures |u| == UnitBytes(f)
  {
    if f == I4 then
      var p := PixelAt(img, w, h, 2 * c, r);
      var q := PixelAt(img, w, h, 2 * c + 1, r);
      [Byte(RGBA8toI4(p[0], p[1], p[2], p[3]) * 16 + RGBA8toI4(q[0], q[1], q[2], q[3]))]
    else
      PixelUnit(f, PixelAt(img, w, h, c, r))
  }

  /** The bytes written for one pixel `p` by the encoders with one unit per pixel. */
  function PixelUnit(f: Format, p: seq<byte>): (u: seq<byte>)
    requires f != CMPR && f != I4 && |p| == 4
    ensures |u| == UnitBytes(f)
  {
    match f
    case I8 => [RGBA8toI8(p[0], p[1], p[2], p[3])]
    case IA4 => [RGBA8toIA4(p[0], p[1], p[2], p[3])]
    case IA8 => Be16(RGBA8toIA8(p[0], p[1], p[2], Byte((Val(p[0]) + 3) % 256)))
    case RGB565 => Be16(RGBA8toRGB565(p[0], p[1], p[2], p[3]))
    case RGB5A3 => Be16(RGBA8toRGB5A3(p[0], p[1], p[2], p[3]))
  }

  /** Every unit of the I4 tiling covers two pixels inside the image. */
  lemma PairInImage(w: nat, c: nat)
    requires c < 4 * (w / 8)
    ensures 2 * c + 1 < w
  {
  }

  /** The stream an encoder has written after its first `n` units. */
  function Emitted(f: Format, img: seq<byte>, w: nat, h: nat, n: nat): seq<byte>
    requires f != CMPR && |img| == w * h * 4 && n <= EncodeTiles(f, w, h).Count()
  {
    if n == 0 then []
    else Emitted(f, img, w, h, n - 1) + UnitAt(f, img, w, h, n - 1)
  }

  /** The bytes written for unit `t`: its `Unit` when its pixel lies inside the image, nothing otherwise. */
  function UnitAt(f: Format, img: seq<byte>, w: nat, h: nat, t: nat): seq<byte>
    requires f != CMPR && |img| == w * h * 4 && t < EncodeTiles(f, w, h).Count()
  {
    var g := EncodeTiles(f, w, h);
    CoordsBound(g, t);
    var c, r := Col(g, t), Row(g, t);
    if InImage(f, w, h, c, r) then
      if f == I4 then PairInImage(w, c); Unit(f, img, w, h, c, r)
      else Unit(f, img, w, h, c, r)
    else []
  }

  /** The whole stream an encoder writes; nothing for an empty image. */
  function Encoded(f: Format, img: seq<byte>, w: nat, h: nat): seq<byte>
    requires f != CMPR && |img| == w * h * 4
  {
    if w == 0 || h == 0 then [] else Emitted(f, img, w, h, EncodeTiles(f, w, h).Count())
  }

  /** `out` is the stream written for the first `t` units. */
  ghost predicate EmittedUpTo(out: seq<byte>, f: Format, img: seq<byte>, w: nat, h: nat, t: nat)
    requires f != CMPR && |img| == w * h * 4
  {
    t <= EncodeTiles(f, w, h).Count() && out == Emitted(f, img, w, h, t)
  }

  // ---------------------------------------------------------------------
  // One unit
  // ---------------------------------------------------------------------

  /**
    The body of the encoders' innermost loop for unit `(c, r)`, whose index
    in the tiling is `t`: skip it when its pixel is outside the image,
    otherwise read the pixel (two for I4), convert it (`Unit`) and write
    the unit.
  */
  method EncodeUnit(f: Format, img: seq<byte>, w: nat, h: nat, ghost t: nat, c: nat, r: nat, out: seq<byte>)
    returns (out': seq<byte>)
    requires f != CMPR && |img| == w * h * 4
    requires c < EncodeTiles(f, w, h).tw * EncodeTiles(f, w, h).bw
    requires r < EncodeTiles(f, w, h).th * EncodeTiles(f, w, h).bh
    requires t == Index(EncodeTiles(f, w, h), c, r)
    requires EmittedUpTo(out, f, img, w, h, t)
    ensures EmittedUpTo(out', f, img, w, h, t + 1)
  {
    var g := EncodeTiles(f, w, h);
    IndexBound(g, c, r);
    IndexCoords(g, c, r);
    var x := if f == I4 then 2 * c else c;
    if x >= w || r >= h {
      out' := out;
      return;
    }
    if f == I4 {
      PairInImage(w, c);
    }
    var unit := Unit(f, img, w, h, c, r);
    out' := out + unit;
  }

  // ---------------------------------------------------------------------
  // I8, IA4 and IA8: 8x4 tiles
  // ---------------------------------------------------------------------

  /**
    `Encode::IA4`, `Encode::I8` and `Encode::IA8` (src/Bti.cpp:693-772):
    the `width / 8` by `height / 4` whole 8x4 tiles, one unit per pixel.
  */
  method Encode84(f: Format, img: seq<byte>, w: nat, h: nat) returns (out: seq<byte>)
    requires (f == I8 || f == IA4 || f == IA8) && |img| == w * h * 4
    ensures out == Encoded(f, img, w, h)
  {
    out := [];
    if w == 0 || h == 0 {
      return;
    }
    var numBlocksW, numBlocksH := w / 8, h / 4;
    ghost var t := 0;
    var blockY := 0;
    while blockY < numBlocksH
      invariant blockY <= h / 4 && t == blockY * (w / 8 * 32)
      invariant EmittedUpTo(out, f, img, w, h, t)
    {
      out := EncodeTileRow84(f, img, w, h, t, blockY, out);
      MulDistrib(blockY, 1, w / 8 * 32);
      t := t + w / 8 * 32;
      blockY := blockY + 1;
    }
    EncodeShape84(f, w, h);
    assert blockY == h / 4;
    assert t == EncodeTiles(f, w, h).Count();
    EncodedEnd(out, f, img, w, h, t);
  }

  /** Once all units are written, the stream is `Encoded`. */
  lemma EncodedEnd(out: seq<byte>, f: Format, img: seq<byte>, w: nat, h: nat, t: nat)
    requires f != CMPR && |img| == w * h * 4 && w > 0 && h > 0
    requires EmittedUpTo(out, f, img, w, h, t) && t == EncodeTiles(f, w, h).Count()
    ensures out == Encoded(f, img, w, h)
  {
  }

  /** The 8x4 tiles of `Encode84` hold `height / 4 * (width / 8 * 32)` units. */
  lemma EncodeShape84(f: Format, w: nat, h: nat)
    requires f == I8 || f == IA4 || f == IA8
    ensures EncodeTiles(f, w, h).Count() == h / 4 * (w / 8 * 32)
  {
    assert EncodeTiles(f, w, h) == Tiling(8, 4, w / 8, h / 4);
  }

  /** Unit `(px, py)` of 8x4 tile `(tx, ty)`, whose first unit is `t0`, is pixel `(x, y)` and unit `t` of the tiling. */
  lemma Unit84At(f: Format, w: nat, h: nat, tx: nat, ty: nat, px: nat, py: nat, t0: nat, x: nat, y: nat, t: nat)
    requires f == I8 || f == IA4 || f == IA8
    requires tx < w / 8 && ty < h / 4 && px < 8 && py < 4
    requires t0 == (ty * (w / 8) + tx) * 32 && x == tx * 8 + px && y == ty * 4 + py && t == t0 + py * 8 + px
    ensures Index(EncodeTiles(f, w, h), x, y) == t
    ensures x < EncodeTiles(f, w, h).tw * EncodeTiles(f, w, h).bw
    ensures y < EncodeTiles(f, w, h).th * EncodeTiles(f, w, h).bh
  {
    var bw, bh := w / 8, h / 4;
    assert EncodeTiles(f, w, h) == Tiling(8, 4, bw, bh);
    TexelOf84(bw, bh, tx, ty, px, py, t0, x, y, t);
  }

  /** The `blockX` loop of `Encode84` over tile row `blockY`. */
  method EncodeTileRow84(f: Format, img: seq<byte>, w: nat, h: nat, ghost t0: nat, blockY: nat, out0: seq<byte>)
    returns (out: seq<byte>)
    requires (f == I8 || f == IA4 || f == IA8) && |img| == w * h * 4
    requires blockY < h / 4 && t0 == blockY * (w / 8 * 32)
    requires EmittedUpTo(out0, f, img, w, h, t0)
    ensures EmittedUpTo(out, f, img, w, h, t0 + w / 8 * 32)
  {
    MulAssoc(blockY, w / 8, 32);
    out := out0;
    ghost var t := t0;
    var blockX := 0;
    while blockX < w / 8
      invariant blockX <= w / 8 && t == (blockY * (w / 8) + blockX) * 32
      invariant EmittedUpTo(out, f, img, w, h, t)
    {
      out := EncodeTile84(f, img, w, h, t, blockX, blockY, out);
      t := t + 32;
      blockX := blockX + 1;
    }
  }

  /** The `pixelY` and `pixelX` loops of `Encode84` over tile `(blockX, blockY)`. */
  method EncodeTile84(f: Format, img: seq<byte>, w: nat, h: nat, ghost t0: nat, blockX: nat, blockY: nat,
                      out0: seq<byte>) returns (out: seq<byte>)
    requires (f == I8 || f == IA4 || f == IA8) && |img| == w * h * 4
    requires blockX < w / 8 && blockY < h / 4 && t0 == (blockY * (w / 8) + blockX) * 32
    requires EmittedUpTo(out0, f, img, w, h, t0)
    ensures EmittedUpTo(out, f, img, w, h, t0 + 32)
  {
    out := out0;
    ghost var t := t0;
    var pixelY := 0;
    while pixelY < 4
      invariant pixelY <= 4 && t == t0 + pixelY * 8
      invariant EmittedUpTo(out, f, img, w, h, t)
    {
      var pixelX := 0;
      while pixelX < 8
        invariant pixelX <= 8 && t == t0 + pixelY * 8 + pixelX
        invariant EmittedUpTo(out, f, img, w, h, t)
      {
        var x, y := blockX * 8 + pixelX, blockY * 4 + pixelY;
        Unit84At(f, w, h, blockX, blockY, pixelX, pixelY, t0, x, y, t);
        out := EncodeUnit(f, img, w, h, t, x, y, out);
        t := t + 1;
        pixelX := pixelX + 1;
      }
      pixelY := pixelY + 1;
    }
  }

  // ---------------------------------------------------------------------
  // I4: 8x8 tiles, two pixels per byte
  // ---------------------------------------------------------------------

  /**
    `Encode::I4` (src/Bti.cpp:663-691): the `width / 8` by `height / 8`
    whole 8x8 tiles, one byte per pair of pixels.
  */
  method EncodeI4(img: seq<byte>, w: nat, h: nat) returns (out: seq<byte>)
    requires |img| == w * h * 4
    ensures out == Encoded(I4, img, w, h)
  {
    out := [];
    if w == 0 || h == 0 {
      return;
    }
    var numBlocksW, numBlocksH := w / 8, h / 8;
    ghost var t := 0;
    var blockY := 0;
    while blockY < numBlocksH
      invariant blockY <= h / 8 && t == blockY * (w / 8 * 32)
      invariant EmittedUpTo(out, I4, img, w, h, t)
    {
      out := EncodeTileRowI4(img, w, h, t, blockY, out);
      MulDistrib(blockY, 1, w / 8 * 32);
      t := t + w / 8 * 32;
      blockY := blockY + 1;
    }
    EncodeShapeI4(w, h);
    assert blockY == h / 8;
    assert t == EncodeTiles(I4, w, h).Count();
    EncodedEnd(out, I4, img, w, h, t);
  }

  /** The 8x8 tiles of `EncodeI4` hold `height / 8 * (width / 8 * 32)` pairs. */
  lemma EncodeShapeI4(w: nat, h: nat)
    ensures EncodeTiles(I4, w, h).Count() == h / 8 * (w / 8 * 32)
  {
    assert EncodeTiles(I4, w, h) == Tiling(4, 8, w / 8, h / 8);
  }

  /** Pair `(px, py)` of 8x8 tile `(tx, ty)`, whose first pair is `t0`, is unit `(x, y)` and number `t` of the pair tiling. */
  lemma UnitI4At(w: nat, h: nat, tx: nat, ty: nat, px: nat, py: nat, t0: nat, x: nat, y: nat, t: nat)
    requires tx < w / 8 && ty < h / 8 && px < 4 && py < 8
    requires t0 == (ty * (w / 8) + tx) * 32 && x == tx * 4 + px && y == ty * 8 + py && t == t0 + py * 4 + px
    ensures Index(EncodeTiles(I4, w, h), x, y) == t
    ensures x < EncodeTiles(I4, w, h).tw * EncodeTiles(I4, w, h).bw
    ensures y < EncodeTiles(I4, w, h).th * EncodeTiles(I4, w, h).bh
  {
    var bw, bh := w / 8, h / 8;
    assert EncodeTiles(I4, w, h) == Tiling(4, 8, bw, bh);
    TexelOf48(bw, bh, tx, ty, px, py, t0, x, y, t);
  }

  /** The `blockX` loop of `EncodeI4` over tile row `blockY`. */
  method EncodeTileRowI4(img: seq<byte>, w: nat, h: nat, ghost t0: nat, blockY: nat, out0: seq<byte>)
    returns (out: seq<byte>)
    requires |img| == w * h * 4
    requires blockY < h / 8 && t0 == blockY * (w / 8 * 32)
    requires EmittedUpTo(out0, I4, img, w, h, t0)
    ensures EmittedUpTo(out, I4, img, w, h, t0 + w / 8 * 32)
  {
    MulAssoc(blockY, w / 8, 32);
    out := out0;
    ghost var t := t0;
    var blockX := 0;
    while blockX < w / 8
      invariant blockX <= w / 8 && t == (blockY * (w / 8) + blockX) * 32
      invariant EmittedUpTo(out, I4, img, w, h, t)
    {
      out := EncodeTileI4(img, w, h, t, blockX, blockY, out);
      t := t + 32;
      blockX := blockX + 1;
    }
  }

  /** The `pixelY` loop and the `pixelX += 2` loop of `EncodeI4` over tile `(blockX, blockY)`. */
  method EncodeTileI4(img: seq<byte>, w: nat, h: nat, ghost t0: nat, blockX: nat, blockY: nat, out0: seq<byte>)
    returns (out: seq<byte>)
    requires |img| == w * h * 4
    requires blockX < w / 8 && blockY < h / 8 && t0 == (blockY * (w / 8) + blockX) * 32
    requires EmittedUpTo(out0, I4, img, w, h, t0)
    ensures EmittedUpTo(out, I4, img, w, h, t0 + 32)
  {
    out := out0;
    ghost var t := t0;
    var pixelY := 0;
    while pixelY < 8
      invariant pixelY <= 8 && t == t0 + pixelY * 4
      invariant EmittedUpTo(out, I4, img, w, h, t)
    {
      var pixelX := 0;
      ghost var pair := 0;
      while pixelX < 8
        invariant pixelX == 2 * pair && pair <= 4 && t == t0 + pixelY * 4 + pair
        invariant EmittedUpTo(out, I4, img, w, h, t)
      {
        var x, y := blockX * 4 + pixelX / 2, blockY * 8 + pixelY;
        UnitI4At(w, h, blockX, blockY, pair, pixelY, t0, x, y, t);
        out := EncodeUnit(I4, img, w, h, t, x, y, out);
        t := t + 1;
        pixelX := pixelX + 2;
        pair := pair + 1;
      }
      pixelY := pixelY + 1;
    }
  }

  // ---------------------------------------------------------------------
  // RGB565 and RGB5A3: 4x4 tiles
  // ---------------------------------------------------------------------

  /**
    `Encode::RGB565` (src/Bti.cpp:594-626): the `width / 4` by
    `height / 4` whole 4x4 tiles, one 16-bit colour per pixel.
  */
  method EncodeRGB565(img: seq<byte>, w: nat, h: nat) returns (out: seq<byte>)
    requires |img| == w * h * 4
    ensures out == Encoded(RGB565, img, w, h)
  {
    out := [];
    if w == 0 || h == 0 {
      return;
    }
    var numBlocksW, numBlocksH := w / 4, h / 4;
    ghost var t := 0;
    var blockY := 0;
    while blockY < numBlocksH
      invariant blockY <= h / 4 && t == blockY * (w / 4 * 16)
      invariant EmittedUpTo(out, RGB565, img, w, h, t)
    {
      out := EncodeTileRowRGB565(img, w, h, t, blockY, out);
      MulDistrib(blockY, 1, w / 4 * 16);
      t := t + w / 4 * 16;
      blockY := blockY + 1;
    }
    EncodeShapeRGB565(w, h);
    assert blockY == h / 4;
    assert t == EncodeTiles(RGB565, w, h).Count();
    EncodedEnd(out, RGB565, img, w, h, t);
  }

  /** The 4x4 tiles of `EncodeRGB565` hold `height / 4 * (width / 4) * 16` pixels. */
  lemma EncodeShapeRGB565(w: nat, h: nat)
    ensures EncodeTiles(RGB565, w, h).Count() == h / 4 * (w / 4 * 16)
  {
    assert EncodeTiles(RGB565, w, h) == Tiling(4, 4, w / 4, h / 4);
  }

  /** The `blockX` loop of `EncodeRGB565` over tile row `blockY`. */
  method EncodeTileRowRGB565(img: seq<byte>, w: nat, h: nat, ghost t0: nat, blockY: nat, out0: seq<byte>)
    returns (out: seq<byte>)
    requires |img| == w * h * 4
    requires blockY < h / 4 && t0 == blockY * (w / 4 * 16)
    requires EmittedUpTo(out0, RGB565, img, w, h, t0)
    ensures EmittedUpTo(out, RGB565, img, w, h, t0 + w / 4 * 16)
  {
    MulAssoc(blockY, w / 4, 16);
    assert EncodeTiles(RGB565, w, h).bw == w / 4;
    out := out0;
    ghost var t := t0;
    var blockX := 0;
    while blockX < w / 4
      invariant blockX <= w / 4 && t == (blockY * (w / 4) + blockX) * 16
      invariant EmittedUpTo(out, RGB565, img, w, h, t)
    {
      out := EncodeTile44(RGB565, img, w, h, t, blockX, blockY, blockX * 4, blockY * 4, out);
      t := t + 16;
      blockX := blockX + 1;
    }
  }

  /**
    `Encode::RGB5A3` (src/Bti.cpp:628-661): tiles at every fourth row and
    column of the image, partial tiles included, one 16-bit colour per
    pixel inside the image.
  */
  method EncodeRGB5A3(img: seq<byte>, w: nat, h: nat) returns (out: seq<byte>)
    requires |img| == w * h * 4
    ensures out == Encoded(RGB5A3, img, w, h)
  {
    out := [];
    if w == 0 || h == 0 {
      return;
    }
    ghost var t: nat := 0;
    ghost var ty: nat := 0;
    var blockY := 0;
    while blockY < h
      invariant blockY == 4 * ty && ty <= (h + 3) / 4 && t == ty * ((w + 3) / 4 * 16)
      invariant EmittedUpTo(out, RGB5A3, img, w, h, t)
    {
      out := EncodeTileRowRGB5A3(img, w, h, t, ty, blockY, out);
      MulDistrib(ty, 1, (w + 3) / 4 * 16);
      t := t + (w + 3) / 4 * 16;
      blockY := blockY + 4;
      ty := ty + 1;
    }
    EncodeShapeRGB5A3(w, h);
    assert ty == (h + 3) / 4;
    assert t == EncodeTiles(RGB5A3, w, h).Count();
    EncodedEnd(out, RGB5A3, img, w, h, t);
  }

  /** The 4x4 tiles of `EncodeRGB5A3` hold `(height + 3) / 4 * ((width + 3) / 4) * 16` pixels. */
  lemma EncodeShapeRGB5A3(w: nat, h: nat)
    ensures EncodeTiles(RGB5A3, w, h).Count() == (h + 3) / 4 * ((w + 3) / 4 * 16)
  {
    assert EncodeTiles(RGB5A3, w, h) == Tiling(4, 4, (w + 3) / 4, (h + 3) / 4);
  }

  /** The `blockX += 4` loop of `EncodeRGB5A3` over the tile row at `blockY`, the `ty`th. */
  method EncodeTileRowRGB5A3(img: seq<byte>, w: nat, h: nat, ghost t0: nat, ghost ty: nat, blockY: nat,
                             out0: seq<byte>) returns (out: seq<byte>)
    requires |img| == w * h * 4
    requires blockY == 4 * ty && blockY < h && t0 == ty * ((w + 3) / 4 * 16)
    requires EmittedUpTo(out0, RGB5A3, img, w, h, t0)
    ensures EmittedUpTo(out, RGB5A3, img, w, h, t0 + (w + 3) / 4 * 16)
  {
    MulAssoc(ty, (w + 3) / 4, 16);
    out := out0;
    ghost var t: nat := t0;
    ghost var tx: nat := 0;
    var blockX := 0;
    while blockX < w
      invariant blockX == 4 * tx && tx <= (w + 3) / 4 && t == (ty * ((w + 3) / 4) + tx) * 16
      invariant EmittedUpTo(out, RGB5A3, img, w, h, t)
    {
      out := EncodeTile44(RGB5A3, img, w, h, t, tx, ty, blockX, blockY, out);
      t := t + 16;
      blockX := blockX + 4;
      tx := tx + 1;
    }
    assert tx == (w + 3) / 4;
  }

  /** Pixel `(px, py)` of 4x4 tile `(tx, ty)`, whose first pixel is `t0`, is pixel `(x, y)` and unit `t` of the tiling. */
  lemma Unit44At(f: Format, w: nat, h: nat, tx: nat, ty: nat, px: nat, py: nat, t0: nat, x: nat, y: nat, t: nat)
    requires f == RGB565 || f == RGB5A3
    requires tx < EncodeTiles(f, w, h).bw && ty < EncodeTiles(f, w, h).bh && px < 4 && py < 4
    requires t0 == (ty * EncodeTiles(f, w, h).bw + tx) * 16 && x == tx * 4 + px && y == ty * 4 + py
    requires t == t0 + py * 4 + px
    ensures Index(EncodeTiles(f, w, h), x, y) == t
    ensures x < EncodeTiles(f, w, h).tw * EncodeTiles(f, w, h).bw
    ensures y < EncodeTiles(f, w, h).th * EncodeTiles(f, w, h).bh
  {
    var g := EncodeTiles(f, w, h);
    assert g == Tiling(4, 4, g.bw, g.bh);
    TexelOf44(g.bw, g.bh, tx, ty, px, py, t0, x, y, t);
  }

  /**
    The `pixelY` and `pixelX` loops of `EncodeRGB565` and `EncodeRGB5A3`
    over tile `(tx, ty)`, whose top left pixel is `(x0, y0)`.
  */
  method EncodeTile44(f: Format, img: seq<byte>, w: nat, h: nat, ghost t0: nat, ghost tx: nat, ghost ty: nat,
                      x0: nat, y0: nat, out0: seq<byte>) returns (out: seq<byte>)
    requires (f == RGB565 || f == RGB5A3) && |img| == w * h * 4
    requires tx < EncodeTiles(f, w, h).bw && ty < EncodeTiles(f, w, h).bh && x0 == 4 * tx && y0 == 4 * ty
    requires t0 == (ty * EncodeTiles(f, w, h).bw + tx) * 16
    requires EmittedUpTo(out0, f, img, w, h, t0)
    ensures EmittedUpTo(out, f, img, w, h, t0 + 16)
  {
    out := out0;
    ghost var t := t0;
    var pixelY := 0;
    while pixelY < 4
      invariant pixelY <= 4 && t == t0 + pixelY * 4
      invariant EmittedUpTo(out, f, img, w, h, t)
    {
      var pixelX := 0;
      while pixelX < 4
        invariant pixelX <= 4 && t == t0 + pixelY * 4 + pixelX
        invariant EmittedUpTo(out, f, img, w, h, t)
      {
        var x, y := x0 + pixelX, y0 + pixelY;
        Unit44At(f, w, h, tx, ty, pixelX, pixelY, t0, x, y, t);
        out := EncodeUnit(f, img, w, h, t, x, y, out);
        t := t + 1;
        pixelX := pixelX + 1;
      }
      pixelY := pixelY + 1;
    }
  }

  // ---------------------------------------------------------------------
  // Layout of the stream
  // ---------------------------------------------------------------------

  /**
    Every unit of the tiling lies inside the image: always for the encoders
    that visit whole tiles only, and for RGB5A3 when the image is a whole
    number of 4x4 tiles.
  */
  predicate AllInImage(f: Format, w: nat, h: nat) {
    f != RGB5A3 || (w % 4 == 0 && h % 4 == 0)
  }

  /** Under `AllInImage`, the bounds check never skips a unit, and an I4 pair never reaches past the row. */
  lemma UnitInside(f: Format, w: nat, h: nat, t: nat)
    requires f != CMPR && AllInImage(f, w, h) && t < EncodeTiles(f, w, h).Count()
    ensures EncodeTiles(f, w, h).bw > 0
    ensures InImage(f, w, h, Col(EncodeTiles(f, w, h), t), Row(EncodeTiles(f, w, h), t))
    ensures f == I4 ==> 2 * Col(EncodeTiles(f, w, h), t) + 1 < w
  {
    var g := EncodeTiles(f, w, h);
    CoordsBound(g, t);
    if f == I4 {
      assert g == Tiling(4, 8, w / 8, h / 8);
    } else if f == RGB565 {
      assert g == Tiling(4, 4, w / 4, h / 4);
    } else if f == RGB5A3 {
      assert g == Tiling(4, 4, w / 4, h / 4);
    } else {
      assert g == Tiling(8, 4, w / 8, h / 4);
    }
  }

  /** Under `AllInImage`, every unit is written, `UnitBytes` bytes each. */
  lemma {:induction false} EmittedLength(f: Format, img: seq<byte>, w: nat, h: nat, n: nat)
    requires f != CMPR && |img| == w * h * 4 && AllInImage(f, w, h) && n <= EncodeTiles(f, w, h).Count()
    ensures |Emitted(f, img, w, h, n)| == UnitBytes(f) * n
  {
    if n > 0 {
      EmittedLength(f, img, w, h, n - 1);
      UnitAtLength(f, img, w, h, n - 1);
      LengthStep(Emitted(f, img, w, h, n - 1), UnitAt(f, img, w, h, n - 1), UnitBytes(f), n);
    }
  }

  /** Appending `u` bytes to `u * (k - 1)` bytes gives `u * k` bytes. */
  lemma LengthStep(a: seq<byte>, b: seq<byte>, u: nat, k: nat)
    requires k > 0 && |a| == u * (k - 1) && |b| == u
    ensures |a + b| == u * k
  {
  }

  /** Under `AllInImage`, unit `t` occupies the `UnitBytes` bytes from `UnitBytes * t` on. */
  lemma EmittedAt(f: Format, img: seq<byte>, w: nat, h: nat, t: nat, n: nat)
    requires f != CMPR && |img| == w * h * 4 && AllInImage(f, w, h)
    requires t < n <= EncodeTiles(f, w, h).Count()
    ensures UnitBytes(f) * t + UnitBytes(f) <= |Emitted(f, img, w, h, n)|
    ensures Emitted(f, img, w, h, n)[UnitBytes(f) * t..UnitBytes(f) * t + UnitBytes(f)] == UnitAt(f, img, w, h, t)
  {
    var u := UnitBytes(f);
    NatArith(u, t, 1);
    var i: nat := u * t;
    EmittedChunk(f, img, w, h, t, n);
    EmittedLength(f, img, w, h, t);
    UnitAtLength(f, img, w, h, t);
    ChunkOfPrefix(Emitted(f, img, w, h, t), UnitAt(f, img, w, h, t), Emitted(f, img, w, h, n), i, u);
  }

  /** Under `AllInImage`, unit `t` is `UnitBytes` bytes long. */
  lemma UnitAtLength(f: Format, img: seq<byte>, w: nat, h: nat, t: nat)
    requires f != CMPR && |img| == w * h * 4 && AllInImage(f, w, h) && t < EncodeTiles(f, w, h).Count()
    ensures |UnitAt(f, img, w, h, t)| == UnitBytes(f)
  {
    UnitInside(f, w, h, t);
  }

  /** Unit `t`, appended to what was written before it, is a prefix of what the encoder has written after `n > t` units. */
  lemma {:induction false} EmittedChunk(f: Format, img: seq<byte>, w: nat, h: nat, t: nat, n: nat)
    requires f != CMPR && |img| == w * h * 4 && t < n <= EncodeTiles(f, w, h).Count()
    ensures Emitted(f, img, w, h, t) + UnitAt(f, img, w, h, t) <= Emitted(f, img, w, h, n)
  {
    if t + 1 < n {
      EmittedChunk(f, img, w, h, t, n - 1);
    }
  }

  /** When `a + b` is a prefix of `c`, the `u` bytes of `c` from `i == |a|` are `b`. */
  lemma ChunkOfPrefix(a: seq<byte>, b: seq<byte>, c: seq<byte>, i: nat, u: nat)
    requires a + b <= c && |a| == i && |b| == u
    ensures i + u <= |c| && c[i..i + u] == b
  {
    assert c[i..i + u] == (a + b)[i..i + u];
  }

  /** Under `AllInImage`, the bytes of unit `t` are the `Unit` of its pixel. */
  lemma UnitAtInside(f: Format, img: seq<byte>, w: nat, h: nat, t: nat)
    requires f != CMPR && |img| == w * h * 4 && AllInImage(f, w, h) && t < EncodeTiles(f, w, h).Count()
    ensures var g := EncodeTiles(f, w, h);
      && InImage(f, w, h, Col(g, t), Row(g, t)) && (f == I4 ==> 2 * Col(g, t) + 1 < w)
      && UnitAt(f, img, w, h, t) == Unit(f, img, w, h, Col(g, t), Row(g, t))
  {
    UnitInside(f, w, h, t);
  }

  // ---------------------------------------------------------------------
  // Encoding and decoding again
  // ---------------------------------------------------------------------

  /**
    The image is a whole number of the format's tiles, so that encoder and
    decoder visit the same tiles: 8x8 for I4, 8x4 for I8, IA4 and IA8, 4x4
    for RGB565 and RGB5A3.
  */
  predicate DecodeWhole(f: Format, w: nat, h: nat) {
    if f == I4 then w % 8 == 0 && h % 8 == 0
    else if f == I8 || f == IA4 || f == IA8 then w % 8 == 0 && h % 4 == 0
    else w % 4 == 0 && h % 4 == 0
  }

  /**
    The pixel the decoder of src/Bti.cpp produces from the encoding of
    pixel `p = [r, g, b, a]`.  Intensity formats keep the high nibble (I4,
    IA4) or all (I8) of the grey level, IA4 the high nibble of alpha too.
    IA8 comes back with red plus 3 in the colour channels and the grey level
    as alpha, because the encoder stores `r + 3` where the decoder reads
    intensity.  RGB565 keeps 4 bits of red (the 0xF100 mask), 6 of green
    and 5 of blue, and is opaque.  RGB5A3 keeps 5 bits per colour of an
    opaque pixel, and 4 bits per colour and 3 of alpha of any other.
  */
  function Restored(f: Format, p: seq<byte>): (q: seq<byte>)
    requires f != CMPR && |p| == 4
    ensures |q| == 4
  {
    var gray := Gray(p[0], p[1], p[2]);
    match f
    case I4 =>
      var e := Expand4(Hi(gray));
      [e, e, e, e]
    case I8 => [gray, gray, gray, gray]
    case IA4 =>
      var e := Expand4(Hi(gray));
      [e, e, e, Expand4(Hi(p[3]))]
    case IA8 =>
      var e := Byte((Val(p[0]) + 3) % 256);
      [e, e, e, gray]
    case RGB565 => Restored565(p[0], p[1], p[2])
    case RGB5A3 => Restored5A3(p[0], p[1], p[2], p[3])
  }

  /** `Restored` for RGB565: the bits the 565 fields keep, opaque. */
  function Restored565(r: byte, g: byte, b: byte): (q: seq<byte>)
    ensures |q| == 4
  {
    [Byte(Val(r) / 16 * 16), Byte(Val(g) / 4 * 4), Byte(Val(b) / 8 * 8), 255]
  }

  /** `Restored` for RGB5A3: five bits per colour of an opaque pixel, else four per colour and three of alpha. */
  function Restored5A3(r: byte, g: byte, b: byte, a: byte): (q: seq<byte>)
    ensures |q| == 4
  {
    if a == 255 then
      [Expand5(Val(r) / 8), Expand5(Val(g) / 8), Expand5(Val(b) / 8), 255]
    else
      [Expand4(Val(r) / 16), Expand4(Val(g) / 16), Expand4(Val(b) / 16), Expand3(Val(a) / 32)]
  }

  /** On whole tiles, the formats with one unit per pixel encode and decode over the same tiling. */
  lemma SameTiles(f: Format, w: nat, h: nat)
    requires f != CMPR && f != I4 && DecodeWhole(f, w, h)
    ensures EncodeTiles(f, w, h) == Tiles(f, w, h)
    ensures InputSize(f, w, h) == UnitBytes(f) * EncodeTiles(f, w, h).Count()
    ensures w <= Tiles(f, w, h).tw * Tiles(f, w, h).bw && h <= Tiles(f, w, h).th * Tiles(f, w, h).bh
  {
    if f == RGB565 || f == RGB5A3 {
      assert EncodeTiles(f, w, h) == Tiling(4, 4, w / 4, h / 4);
      assert Tiles(f, w, h) == Tiling(4, 4, w / 4, h / 4);
    } else {
      assert EncodeTiles(f, w, h) == Tiling(8, 4, w / 8, h / 4);
      assert Tiles(f, w, h) == Tiling(8, 4, w / 8, h / 4);
    }
  }

  /** On whole tiles, I4 encodes 4x8 tiles of pixel pairs where it decodes 8x8 tiles of pixels. */
  lemma PairTiles(w: nat, h: nat)
    requires DecodeWhole(I4, w, h)
    ensures EncodeTiles(I4, w, h) == Tiling(4, 8, w / 8, h / 8)
    ensures Tiles(I4, w, h) == Tiling(8, 8, w / 8, h / 8)
    ensures InputSize(I4, w, h) == EncodeTiles(I4, w, h).Count()
  {
  }

  /** The texel index of pixel `x` of a row is twice the index of its pair, plus its place in the pair. */
  lemma PairIndex(bw: nat, x: nat, y: nat)
    ensures Index(Tiling(8, 8, bw, 0), x, y) == 2 * Index(Tiling(4, 8, bw, 0), x / 2, y) + x % 2
  {
    DivModUnique(x, 8, x / 2 / 4, x / 2 % 4 * 2 + x % 2);
  }

  /** The decoder turns the unit of pixel `p` at texel `t` into `Restored(p)`: I8, IA4 and IA8. */
  lemma ColorOfByteUnit(f: Format, e: seq<byte>, w: nat, h: nat, t: nat, p: seq<byte>)
    requires (f == I8 || f == IA4 || f == IA8) && InputSize(f, w, h) <= |e| && t < Texels(f, w, h) && |p| == 4
    requires UnitBytes(f) * t + UnitBytes(f) <= |e|
    requires e[UnitBytes(f) * t..UnitBytes(f) * t + UnitBytes(f)] == PixelUnit(f, p)
    ensures Be32(TexelColor(f, e, 0, w, h, t)) == Restored(f, p)
  {
    if f == I8 {
      assert e[t] == PixelUnit(f, p)[0];
    } else if f == IA4 {
      assert e[t] == PixelUnit(f, p)[0];
    } else {
      var u := PixelUnit(f, p);
      assert e[2 * t] == u[0] && e[2 * t + 1] == u[1];
    }
  }

  /** The decoder turns the unit of pixel `p` at texel `t` into `Restored(p)`: RGB565 and RGB5A3. */
  lemma ColorOfWordUnit(f: Format, e: seq<byte>, w: nat, h: nat, t: nat, p: seq<byte>)
    requires (f == RGB565 || f == RGB5A3) && InputSize(f, w, h) <= |e| && t < Texels(f, w, h) && |p| == 4
    requires 2 * t + 2 <= |e| && e[2 * t..2 * t + 2] == PixelUnit(f, p)
    ensures Be32(TexelColor(f, e, 0, w, h, t)) == Restored(f, p)
  {
    U16BEOfSlice(e, 2 * t);
    if f == RGB565 {
      ColorOf565(p);
    } else {
      ColorOf5A3(p);
    }
  }

  /** Reading back the RGB565 word of pixel `p` gives `Restored(RGB565, p)`. */
  lemma ColorOf565(p: seq<byte>)
    requires |p| == 4
    ensures var c := RGBA8toRGB565(p[0], p[1], p[2], p[3]);
      U16BE(Be16(c), 0) == c && Be32(RGB565toRGBA8(c)) == Restored(RGB565, p)
  {
    var c := RGBA8toRGB565(p[0], p[1], p[2], p[3]);
    U16BEOfBe16(c);
    RGB565RoundTrip(p[0], p[1], p[2], p[3]);
  }

  /** Reading back the RGB5A3 word of pixel `p` gives `Restored(RGB5A3, p)`. */
  lemma ColorOf5A3(p: seq<byte>)
    requires |p| == 4
    ensures var c := RGBA8toRGB5A3(p[0], p[1], p[2], p[3]);
      U16BE(Be16(c), 0) == c && Be32(RGB5A3toRGBA8(c)) == Restored(RGB5A3, p)
  {
    var c := RGBA8toRGB5A3(p[0], p[1], p[2], p[3]);
    U16BEOfBe16(c);
    if p[3] != 255 {
      assert c / 4096 % 8 == Val(p[3]) / 32;
    }
  }

  /** The decoder turns the I4 unit of pixels `p` and `q` into `Restored` of `p` at an even texel and of `q` at an odd one. */
  lemma ColorOfPairUnit(e: seq<byte>, w: nat, h: nat, t: nat, p: seq<byte>, q: seq<byte>)
    requires InputSize(I4, w, h) <= |e| && t < Texels(I4, w, h) && |p| == 4 && |q| == 4
    requires t / 2 < |e| && e[t / 2] == Byte(RGBA8toI4(p[0], p[1], p[2], p[3]) * 16 + RGBA8toI4(q[0], q[1], q[2], q[3]))
    ensures Be32(TexelColor(I4, e, 0, w, h, t)) == Restored(I4, if t % 2 == 0 then p else q)
  {
    var b := e[t / 2];
    var i, j := RGBA8toI4(p[0], p[1], p[2], p[3]), RGBA8toI4(q[0], q[1], q[2], q[3]);
    DivModUnique(Val(b), 16, i, j);
  }

  /**
    Round trip: on an image of whole tiles, the decoder of the same format
    restores every pixel of the encoded stream to `Restored` of the
    original pixel, and the stream holds all the bytes the decoder reads.
  */
  lemma RoundTrip(f: Format, img: seq<byte>, w: nat, h: nat, x: nat, y: nat)
    requires f != CMPR && |img| == w * h * 4 && DecodeWhole(f, w, h) && x < w && y < h
    ensures InputSize(f, w, h) <= |Encoded(f, img, w, h)|
    ensures PixelAt(Decoded(f, Encoded(f, img, w, h), 0, w, h), w, h, x, y) == Restored(f, PixelAt(img, w, h, x, y))
  {
    if f == I4 {
      RoundTripPair(img, w, h, x, y);
    } else {
      RoundTripPixel(f, img, w, h, x, y);
    }
  }

  /** `RoundTrip` for the formats with one unit per pixel. */
  lemma RoundTripPixel(f: Format, img: seq<byte>, w: nat, h: nat, x: nat, y: nat)
    requires f != CMPR && f != I4 && |img| == w * h * 4 && DecodeWhole(f, w, h) && x < w && y < h
    ensures InputSize(f, w, h) <= |Encoded(f, img, w, h)|
    ensures PixelAt(Decoded(f, Encoded(f, img, w, h), 0, w, h), w, h, x, y) == Restored(f, PixelAt(img, w, h, x, y))
  {
    var g := EncodeTiles(f, w, h);
    var e := Encoded(f, img, w, h);
    SameTiles(f, w, h);
    assert e == Emitted(f, img, w, h, g.Count());
    EmittedLength(f, img, w, h, g.Count());
    var t := TexelIndex(f, w, h, x, y);
    assert t == Index(g, x, y);
    var d := Decoded(f, e, 0, w, h);
    DecodedPixel(f, e, 0, w, h, x, y);
    EmittedAt(f, img, w, h, t, g.Count());
    UnitAtInside(f, img, w, h, t);
    IndexCoords(g, x, y);
    var p := PixelAt(img, w, h, x, y);
    assert UnitAt(f, img, w, h, t) == PixelUnit(f, p);
    if f == I8 || f == IA4 || f == IA8 {
      ColorOfByteUnit(f, e, w, h, t, p);
    } else {
      ColorOfWordUnit(f, e, w, h, t, p);
    }
  }

  /** `RoundTrip` for I4, whose units hold two pixels. */
  lemma RoundTripPair(img: seq<byte>, w: nat, h: nat, x: nat, y: nat)
    requires |img| == w * h * 4 && DecodeWhole(I4, w, h) && x < w && y < h
    ensures InputSize(I4, w, h) <= |Encoded(I4, img, w, h)|
    ensures PixelAt(Decoded(I4, Encoded(I4, img, w, h), 0, w, h), w, h, x, y) == Restored(I4, PixelAt(img, w, h, x, y))
  {
    var e := Encoded(I4, img, w, h);
    PairInStream(img, w, h, x, y);
    var x0 := 2 * (x / 2);
    var p, q := PixelAt(img, w, h, x0, y), PixelAt(img, w, h, x0 + 1, y);
    PairDecodes(e, w, h, x, y, p, q);
    assert PixelAt(img, w, h, x, y) == if x % 2 == 0 then p else q by {
      if x % 2 == 0 { assert x0 == x; } else { assert x0 + 1 == x; }
    }
  }

  /** When byte `Index(x / 2, y)` of an I4 stream packs the levels of `p` and `q`, pixel `(x, y)` decodes to `Restored` of `p` for even `x` and of `q` for odd `x`. */
  lemma PairDecodes(e: seq<byte>, w: nat, h: nat, x: nat, y: nat, p: seq<byte>, q: seq<byte>)
    requires DecodeWhole(I4, w, h) && InputSize(I4, w, h) <= |e| && x < w && y < h && |p| == 4 && |q| == 4
    requires var c := Index(EncodeTiles(I4, w, h), x / 2, y);
      c < |e| && e[c] == Byte(RGBA8toI4(p[0], p[1], p[2], p[3]) * 16 + RGBA8toI4(q[0], q[1], q[2], q[3]))
    ensures PixelAt(Decoded(I4, e, 0, w, h), w, h, x, y) == Restored(I4, if x % 2 == 0 then p else q)
  {
    var t := TexelIndex(I4, w, h, x, y);
    PairOfTexel(w, h, x, y);
    DecodedPixel(I4, e, 0, w, h, x, y);
    ColorOfPairUnit(e, w, h, t, p, q);
  }

  /** On whole tiles, the I4 texel of pixel `x` is in the byte of pair `x / 2`, in the high nibble for even `x`. */
  lemma PairOfTexel(w: nat, h: nat, x: nat, y: nat)
    requires DecodeWhole(I4, w, h)
    ensures TexelIndex(I4, w, h, x, y) / 2 == Index(EncodeTiles(I4, w, h), x / 2, y)
    ensures TexelIndex(I4, w, h, x, y) % 2 == x % 2
  {
    PairTiles(w, h);
    PairIndex(w / 8, x, y);
    assert Index(Tiling(8, 8, w / 8, 0), x, y) == TexelIndex(I4, w, h, x, y);
    assert Index(Tiling(4, 8, w / 8, 0), x / 2, y) == Index(EncodeTiles(I4, w, h), x / 2, y);
  }

  /** On whole tiles, byte `c` of the I4 stream packs the levels of the pair of pixels whose unit index is `c`. */
  lemma PairInStream(img: seq<byte>, w: nat, h: nat, x: nat, y: nat)
    requires |img| == w * h * 4 && DecodeWhole(I4, w, h) && x < w && y < h
    ensures InputSize(I4, w, h) == |Encoded(I4, img, w, h)|
    ensures 2 * (x / 2) + 1 < w
    ensures var c := Index(EncodeTiles(I4, w, h), x / 2, y);
      var p, q := PixelAt(img, w, h, 2 * (x / 2), y), PixelAt(img, w, h, 2 * (x / 2) + 1, y);
      && c < |Encoded(I4, img, w, h)|
      && Encoded(I4, img, w, h)[c] == Byte(RGBA8toI4(p[0], p[1], p[2], p[3]) * 16 + RGBA8toI4(q[0], q[1], q[2], q[3]))
  {
    var g := EncodeTiles(I4, w, h);
    var n := g.Count();
    var e := Encoded(I4, img, w, h);
    PairTiles(w, h);
    assert e == Emitted(I4, img, w, h, n);
    assert UnitBytes(I4) == 1;
    EmittedLength(I4, img, w, h, n);
    var c := Index(g, x / 2, y);
    PairCell(w, h, x, y);
    EmittedAt(I4, img, w, h, c, n);
    UnitAtInside(I4, img, w, h, c);
    assert e[c] == e[c..c + 1][0];
  }

  /** On whole tiles, the unit of the pair holding pixel `(x, y)` is one of the I4 tiling's units, and its column and row are `x / 2` and `y`. */
  lemma PairCell(w: nat, h: nat, x: nat, y: nat)
    requires DecodeWhole(I4, w, h) && x < w && y < h
    ensures 2 * (x / 2) + 1 < w
    ensures var g := EncodeTiles(I4, w, h); var c := Index(g, x / 2, y);
      g.Valid() && g.bw > 0 && c < g.Count() && Col(g, c) == x / 2 && Row(g, c) == y
  {
    var g := EncodeTiles(I4, w, h);
    PairTiles(w, h);
    var bw, bh := w / 8, h / 8;
    assert x / 2 < 4 * bw && y < 8 * bh;
    IndexBound(Tiling(4, 8, bw, bh), x / 2, y);
    IndexCoords(Tiling(4, 8, bw, bh), x / 2, y);
  }

  /**
    A grey pixel keeps its level through I8, but not its alpha: the I8
    decoder writes the intensity into all four channels (src/Bti.cpp:339-360).
  */
  lemma GreyI8(v: byte, a: byte)
    ensures Restored(I8, [v, v, v, a]) == [v, v, v, v]
  {
  }

  /**
    IA8 swaps the roles: the encoder puts `r + 3` in the high byte and the
    grey level in the low byte (src/Bti.cpp:41-47, 767), while the decoder
    reads the high byte as intensity (src/Bti.cpp:405-406), so a black
    opaque pixel comes back with level 3 and alpha 0.
  */
  lemma IA8Swapped()
    ensures Restored(IA8, [0, 0, 0, 255]) == [3, 3, 3, 0]
  {
  }
}
