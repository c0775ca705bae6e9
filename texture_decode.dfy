/**
  The tiled decoders of src/Bti.cpp (`ImageFormat::Decode::*`).  Each one
  walks the tiles of a texture in storage order, reads one stream unit per
  texel and writes the pixel's RGBA bytes into a `width * height * 4`
  buffer, skipping the pixels of partial tiles that fall outside the image.

  The stream is a byte sequence `s` read from a cursor; every decoder
  consumes a fixed number of bytes per tile (`InputSize`).  What a decoder
  leaves in the buffer is stated per byte: `Final` gives byte `k` of the
  buffer, which is channel `k % 4` of the colour stored for the texel of
  pixel `k / 4`, or the old byte when no tile of the format covers that
  pixel.  The loops keep `DecodedUpTo(t)`: the pixels whose texel index is
  below `t` are decoded and all others are untouched.
*/
module TextureDecode {
  import opened Util
  import opened Bytes
  import opened TextureColor
  import opened TextureTiles

  /** The pixel formats of a BTI texture (`mFormat` values 0-5 and 0x0E). */
  datatype Format = I4 | I8 | IA4 | IA8 | RGB565 | RGB5A3 | CMPR

  /**
    The tiles a decoder walks: 8x8 for I4 and CMPR, 8x4 for I8, IA4 and
    IA8, each covering the image with partial tiles at the edges; 4x4 for
    RGB565 and RGB5A3, whose decoders visit only the `width / 4` by
    `height / 4` whole tiles (src/Bti.cpp:233-297).
  */
  function Tiles(f: Format, w: nat, h: nat): (g: Tiling)
    ensures g.Valid()
  {
    match f
    case I4 => Tiling(8, 8, (w + 7) / 8, (h + 7) / 8)
    case CMPR => Tiling(8, 8, (w + 7) / 8, (h + 7) / 8)
    case I8 => Tiling(8, 4, (w + 7) / 8, (h + 3) / 4)
    case IA4 => Tiling(8, 4, (w + 7) / 8, (h + 3) / 4)
    case IA8 => Tiling(8, 4, (w + 7) / 8, (h + 3) / 4)
    case RGB565 => Tiling(4, 4, w / 4, h / 4)
    case RGB5A3 => Tiling(4, 4, w / 4, h / 4)
  }

  /** Texels a decoder visits. */
  function Texels(f: Format, w: nat, h: nat): nat {
    Tiles(f, w, h).Count()
  }

  /** Bytes of one tile in the stream: 4 bits per texel for I4 and CMPR, 8 for I8 and IA4, 16 for the rest. */
  function TileBytes(f: Format): nat {
    match f
    case IA8 => 64
    case _ => 32
  }

  /** Bytes a decoder consumes. */
  function InputSize(f: Format, w: nat, h: nat): nat {
    Tiles(f, w, h).bw * Tiles(f, w, h).bh * TileBytes(f)
  }

  /** Texel index of pixel `(x, y)` in the format's storage order. */
  function TexelIndex(f: Format, w: nat, h: nat, x: nat, y: nat): nat {
    if f == CMPR then CmprIndex(Tiles(f, w, h).bw, x, y) else Index(Tiles(f, w, h), x, y)
  }

  /** Pixel `(x, y)` lies in the image and in a tile the decoder visits. */
  predicate Covered(f: Format, w: nat, h: nat, x: nat, y: nat) {
    x < w && y < h && x < Tiles(f, w, h).tw * Tiles(f, w, h).bw && y < Tiles(f, w, h).th * Tiles(f, w, h).bh
  }

  /** Covered pixels have texel indices below `Texels`. */
  lemma TexelIndexBound(f: Format, w: nat, h: nat, x: nat, y: nat)
    requires Covered(f, w, h, x, y)
    ensures TexelIndex(f, w, h, x, y) < Texels(f, w, h)
  {
    var g := Tiles(f, w, h);
    if f == CMPR {
      CmprIndexBound(g.bw, g.bh, x, y);
    } else {
      IndexBound(g, x, y);
    }
  }

  /** Distinct pixels of the tiles' columns have distinct texel indices. */
  lemma TexelIndexInjective(f: Format, w: nat, h: nat, x1: nat, y1: nat, x2: nat, y2: nat)
    requires x1 < Tiles(f, w, h).tw * Tiles(f, w, h).bw && x2 < Tiles(f, w, h).tw * Tiles(f, w, h).bw
    requires TexelIndex(f, w, h, x1, y1) == TexelIndex(f, w, h, x2, y2)
    ensures x1 == x2 && y1 == y2
  {
    var g := Tiles(f, w, h);
    if f == CMPR {
      CmprIndexInjective(g.bw, x1, y1, x2, y2);
    } else {
      IndexInjective(g, x1, y1, x2, y2);
    }
  }

  /** The data of texel `t` lies inside the bytes the decoder consumes. */
  lemma UnitInInput(f: Format, w: nat, h: nat, t: nat)
    requires t < Texels(f, w, h)
    ensures f == I4 ==> t / 2 + 1 <= InputSize(f, w, h)
    ensures (f == I8 || f == IA4) ==> t + 1 <= InputSize(f, w, h)
    ensures (f == IA8 || f == RGB565 || f == RGB5A3) ==> 2 * t + 2 <= InputSize(f, w, h)
    ensures f == CMPR ==> 8 * (t / 16) + 8 <= InputSize(f, w, h)
  {
    var g := Tiles(f, w, h);
    NatArith(g.bw, g.bh, 1);
    var n: nat := g.bw * g.bh;
    assert Texels(f, w, h) == n * (g.tw * g.th);
    assert InputSize(f, w, h) == n * TileBytes(f);
    if f == I4 || f == CMPR {
      assert g.tw * g.th == 64 && TileBytes(f) == 32;
      UnitsOf64(n, t);
    } else if f == I8 || f == IA4 || f == IA8 {
      assert g.tw * g.th == 32;
      UnitsOf32(n, t);
    } else {
      assert g.tw * g.th == 16 && TileBytes(f) == 32;
      UnitsOf16(n, t);
    }
  }

  /** Below `n` tiles of 64 texels, 4 bits each, sit `n` tiles of 32 bytes. */
  lemma UnitsOf64(n: nat, t: nat)
    requires t < n * 64
    ensures t / 2 + 1 <= n * 32 && 8 * (t / 16) + 8 <= n * 32
  {
  }

  /** Below `n` tiles of 32 texels, 8 or 16 bits each, sit `n` tiles of 32 or 64 bytes. */
  lemma UnitsOf32(n: nat, t: nat)
    requires t < n * 32
    ensures t + 1 <= n * 32 && 2 * t + 2 <= n * 64
  {
  }

  /** Below `n` tiles of 16 texels, 16 bits each, sit `n` tiles of 32 bytes. */
  lemma UnitsOf16(n: nat, t: nat)
    requires t < n * 16
    ensures 2 * t + 2 <= n * 32
  {
  }

  /**
    The RGBA colour the decoder stores for texel `t` of the stream at
    `pos`: I4 expands the high nibble of byte `t / 2` for even `t` and the
    low one for odd `t`; I8 repeats its byte; IA4 holds intensity in the
    low and alpha in the high nibble; IA8 reads intensity and then alpha;
    RGB565 and RGB5A3 read a big-endian 16-bit colour; CMPR picks entry
    `Select(bits, t % 16)` of the palette of its 8-byte sub-block.
  */
  function TexelColor(f: Format, s: seq<byte>, pos: nat, w: nat, h: nat, t: nat): u32
    requires pos + InputSize(f, w, h) <= |s| && t < Texels(f, w, h)
  {
    UnitInInput(f, w, h, t);
    match f
    case I4 =>
      var b := s[pos + t / 2];
      var e := Expand4(if t % 2 == 0 then Hi(b) else Lo(b));
      Pack(e, e, e, e)
    case I8 =>
      var d := s[pos + t];
      Pack(d, d, d, d)
    case IA4 =>
      var d := s[pos + t];
      Pack(Expand4(Lo(d)), Expand4(Lo(d)), Expand4(Lo(d)), Expand4(Hi(d)))
    case IA8 =>
      Pack(s[pos + 2 * t], s[pos + 2 * t], s[pos + 2 * t], s[pos + 2 * t + 1])
    case RGB565 => RGB565toRGBA8(U16BE(s, pos + 2 * t))
    case RGB5A3 => RGB5A3toRGBA8(U16BE(s, pos + 2 * t))
    case CMPR =>
      var o := pos + 8 * (t / 16);
      Palette(U16BE(s, o), U16BE(s, o + 2))[Select(U32BE(s, o + 4), t % 16)]
  }

  /** Column of the pixel holding byte `k` of a buffer `w` pixels wide. */
  function PixelX(w: nat, k: nat): nat
    requires w > 0
  {
    (k / 4) % w
  }

  /** Row of the pixel holding byte `k` of a buffer `w` pixels wide. */
  function PixelY(w: nat, k: nat): nat
    requires w > 0
  {
    (k / 4) / w
  }

  /**
    Byte `k` of the buffer once the texels below `t` are decoded: channel
    `k % 4` of its texel's colour when the pixel is covered and its texel
    index is below `t`, the old byte `before` otherwise.
  */
  function Expected(f: Format, s: seq<byte>, pos: nat, w: nat, h: nat, t: nat, k: nat, before: byte): byte
    requires pos + InputSize(f, w, h) <= |s| && t <= Texels(f, w, h)
  {
    if w > 0 && Covered(f, w, h, PixelX(w, k), PixelY(w, k)) && TexelIndex(f, w, h, PixelX(w, k), PixelY(w, k)) < t then
      Be32(TexelColor(f, s, pos, w, h, TexelIndex(f, w, h, PixelX(w, k), PixelY(w, k))))[k % 4]
    else
      before
  }

  /** The buffer `img`, which held `init`, has the texels below `t` decoded and nothing else changed. */
  ghost predicate DecodedUpTo(img: seq<byte>, init: seq<byte>, f: Format, s: seq<byte>, pos: nat, w: nat, h: nat, t: nat)
    requires pos + InputSize(f, w, h) <= |s|
  {
    && t <= Texels(f, w, h)
    && |img| == |init| == w * h * 4
    && forall k :: 0 <= k < |img| ==> img[k] == Expected(f, s, pos, w, h, t, k, init[k])
  }

  /** Byte `k` of a buffer that held `before` at `k`, after the whole texture is decoded. */
  function Final(f: Format, s: seq<byte>, pos: nat, w: nat, h: nat, k: nat, before: byte): byte
    requires pos + InputSize(f, w, h) <= |s|
  {
    if w > 0 && Covered(f, w, h, PixelX(w, k), PixelY(w, k)) then
      TexelIndexBound(f, w, h, PixelX(w, k), PixelY(w, k));
      Be32(TexelColor(f, s, pos, w, h, TexelIndex(f, w, h, PixelX(w, k), PixelY(w, k))))[k % 4]
    else
      before
  }

  /**
    The RGBA buffer `Bti::Load` ends with: zero-filled, then decoded.
    Pixel `(x, y)` is at bytes `4 * (y * w + x)` to `4 * (y * w + x) + 3`.
  */
  function Decoded(f: Format, s: seq<byte>, pos: nat, w: nat, h: nat): (img: seq<byte>)
    requires pos + InputSize(f, w, h) <= |s|
    ensures |img| == w * h * 4
  {
    seq(w * h * 4, k requires 0 <= k < w * h * 4 => Final(f, s, pos, w, h, k, 0))
  }

  // ---------------------------------------------------------------------
  // The invariant
  // ---------------------------------------------------------------------

  /** Nothing is decoded before the first texel. */
  lemma DecodedStart(img: seq<byte>, f: Format, s: seq<byte>, pos: nat, w: nat, h: nat)
    requires pos + InputSize(f, w, h) <= |s| && |img| == w * h * 4
    ensures DecodedUpTo(img, img, f, s, pos, w, h, 0)
  {
  }

  /** Once every texel is visited, the buffer holds `Final` everywhere. */
  lemma DecodedEnd(img: seq<byte>, init: seq<byte>, f: Format, s: seq<byte>, pos: nat, w: nat, h: nat)
    requires pos + InputSize(f, w, h) <= |s|
    requires DecodedUpTo(img, init, f, s, pos, w, h, Texels(f, w, h))
    ensures forall k :: 0 <= k < |img| ==> img[k] == Final(f, s, pos, w, h, k, init[k])
  {
    forall k | 0 <= k < |img|
      ensures img[k] == Final(f, s, pos, w, h, k, init[k])
    {
      if w > 0 && Covered(f, w, h, PixelX(w, k), PixelY(w, k)) {
        TexelIndexBound(f, w, h, PixelX(w, k), PixelY(w, k));
      }
    }
  }

  /** The buffer byte of pixel `(x, y)` and channel `c` is `Final` of that texel. */
  lemma PixelOfByte(w: nat, x: nat, y: nat, k: nat)
    requires x < w && 4 * (y * w + x) <= k < 4 * (y * w + x) + 4
    ensures PixelX(w, k) == x && PixelY(w, k) == y && k % 4 == k - 4 * (y * w + x)
  {
    DivModUnique(k, 4, y * w + x, k - 4 * (y * w + x));
    DivModUnique(y * w + x, w, y, x);
  }

  /** Byte `k` belongs to pixel `PixelY * w + PixelX`. */
  lemma PixelSplit(w: nat, k: nat)
    requires w > 0
    ensures k / 4 == PixelY(w, k) * w + PixelX(w, k)
  {
  }

  /** The four bytes of a pixel inside the image lie inside the buffer. */
  lemma PixelInImage(w: nat, h: nat, x: nat, y: nat)
    requires x < w && y < h
    ensures 4 * (y * w + x) + 4 <= w * h * 4
  {
    MulMonotone(y + 1, h, w);
  }

  /** A texel whose pixel `(x, y)` lies outside the image changes nothing. */
  lemma DecodedSkip(img: seq<byte>, init: seq<byte>, f: Format, s: seq<byte>, pos: nat, w: nat, h: nat, t: nat, x: nat, y: nat)
    requires pos + InputSize(f, w, h) <= |s|
    requires DecodedUpTo(img, init, f, s, pos, w, h, t) && t < Texels(f, w, h)
    requires x < Tiles(f, w, h).tw * Tiles(f, w, h).bw && TexelIndex(f, w, h, x, y) == t
    requires x >= w || y >= h
    ensures DecodedUpTo(img, init, f, s, pos, w, h, t + 1)
  {
    forall k | 0 <= k < |img|
      ensures img[k] == Expected(f, s, pos, w, h, t + 1, k, init[k])
    {
      if w > 0 && Covered(f, w, h, PixelX(w, k), PixelY(w, k)) && TexelIndex(f, w, h, PixelX(w, k), PixelY(w, k)) == t {
        TexelIndexInjective(f, w, h, PixelX(w, k), PixelY(w, k), x, y);
        assert false;
      }
    }
  }

  /** Writing texel `t` to its pixel `(x, y)`, whose bytes start at `di`, extends the decoded prefix by one texel. */
  lemma DecodedPut(img: seq<byte>, img': seq<byte>, init: seq<byte>, f: Format, s: seq<byte>, pos: nat, w: nat, h: nat,
                   t: nat, x: nat, y: nat, px: seq<byte>, di: nat)
    requires pos + InputSize(f, w, h) <= |s|
    requires DecodedUpTo(img, init, f, s, pos, w, h, t) && t < Texels(f, w, h)
    requires Covered(f, w, h, x, y) && TexelIndex(f, w, h, x, y) == t
    requires px == Be32(TexelColor(f, s, pos, w, h, t)) && di == 4 * (y * w + x)
    requires |img'| == |img|
    requires forall k :: 0 <= k < |img'| ==> img'[k] == if di <= k < di + 4 then px[k - di] else img[k]
    ensures DecodedUpTo(img', init, f, s, pos, w, h, t + 1)
  {
    forall k | 0 <= k < |img'|
      ensures img'[k] == Expected(f, s, pos, w, h, t + 1, k, init[k])
    {
      DecodedPutAt(img, img', init, f, s, pos, w, h, t, x, y, px, di, k);
    }
  }

  lemma DecodedPutAt(img: seq<byte>, img': seq<byte>, init: seq<byte>, f: Format, s: seq<byte>, pos: nat, w: nat, h: nat,
                     t: nat, x: nat, y: nat, px: seq<byte>, di: nat, k: nat)
    requires pos + InputSize(f, w, h) <= |s|
    requires DecodedUpTo(img, init, f, s, pos, w, h, t) && t < Texels(f, w, h)
    requires Covered(f, w, h, x, y) && TexelIndex(f, w, h, x, y) == t
    requires px == Be32(TexelColor(f, s, pos, w, h, t)) && di == 4 * (y * w + x)
    requires |img'| == |img| && k < |img'|
    requires img'[k] == if di <= k < di + 4 then px[k - di] else img[k]
    ensures img'[k] == Expected(f, s, pos, w, h, t + 1, k, init[k])
  {
    if di <= k < di + 4 {
      PixelOfByte(w, x, y, k);
    } else {
      assert img[k] == Expected(f, s, pos, w, h, t, k, init[k]);
      OtherPixel(f, s, pos, w, h, t, x, y, k, init[k]);
    }
  }

  /** A byte outside pixel `(x, y)`, whose texel index is `t`, is expected the same before and after texel `t`. */
  lemma OtherPixel(f: Format, s: seq<byte>, pos: nat, w: nat, h: nat, t: nat, x: nat, y: nat, k: nat, before: byte)
    requires pos + InputSize(f, w, h) <= |s| && t < Texels(f, w, h)
    requires x < Tiles(f, w, h).tw * Tiles(f, w, h).bw && TexelIndex(f, w, h, x, y) == t
    requires !(4 * (y * w + x) <= k < 4 * (y * w + x) + 4)
    ensures Expected(f, s, pos, w, h, t + 1, k, before) == Expected(f, s, pos, w, h, t, k, before)
  {
    if w > 0 && Covered(f, w, h, PixelX(w, k), PixelY(w, k)) && TexelIndex(f, w, h, PixelX(w, k), PixelY(w, k)) == t {
      TexelIndexInjective(f, w, h, PixelX(w, k), PixelY(w, k), x, y);
      PixelSplit(w, k);
      assert false;
    }
  }

  /** Stores texel `t`'s four bytes `px` at pixel `(x, y)`, as the decoders' `imageData[destIndex + i] = ...` lines do. */
  method PutTexel(img: array<byte>, ghost init: seq<byte>, f: Format, s: seq<byte>, pos: nat, w: nat, h: nat,
                  ghost t: nat, x: nat, y: nat, px: seq<byte>)
    requires pos + InputSize(f, w, h) <= |s|
    requires DecodedUpTo(img[..], init, f, s, pos, w, h, t) && t < Texels(f, w, h)
    requires Covered(f, w, h, x, y) && TexelIndex(f, w, h, x, y) == t
    requires px == Be32(TexelColor(f, s, pos, w, h, t))
    modifies img
    ensures DecodedUpTo(img[..], init, f, s, pos, w, h, t + 1)
  {
    ghost var before := img[..];
    NatArith(y, w, 1);
    var destIndex := 4 * (y * w + x);
    PixelInImage(w, h, x, y);
    PutPixel(img, destIndex, px);
    ghost var after := img[..];
    assert forall k :: 0 <= k < |after| ==> after[k] == if destIndex <= k < destIndex + 4 then px[k - destIndex] else before[k];
    DecodedPut(before, after, init, f, s, pos, w, h, t, x, y, px, destIndex);
  }

  // ---------------------------------------------------------------------
  // I8, IA4 and IA8: 8x4 tiles, one or two bytes per texel
  // ---------------------------------------------------------------------

  /** Stream bytes per texel of the 8x4-tile formats. */
  function Bpp(f: Format): nat
    requires f == I8 || f == IA4 || f == IA8
  {
    if f == IA8 then 2 else 1
  }

  /**
    `Decode::I8`, `Decode::IA4` and `Decode::IA8` (src/Bti.cpp:339-423):
    the three share their loops over 8x4 tiles and differ only in how a
    texel is read; every texel is read, in range or not, and only pixels
    inside the image are written.
  */
  method Decode84(f: Format, s: seq<byte>, pos: nat, w: nat, h: nat, img: array<byte>) returns (cur: nat)
    requires f == I8 || f == IA4 || f == IA8
    requires img.Length == w * h * 4 && pos + InputSize(f, w, h) <= |s|
    modifies img
    ensures cur == pos + InputSize(f, w, h)
    ensures forall k :: 0 <= k < img.Length ==> img[k] == Final(f, s, pos, w, h, k, old(img[k]))
  {
    ghost var init := img[..];
    ghost var g := Tiles(f, w, h);
    DecodedStart(init, f, s, pos, w, h);
    cur := pos;
    ghost var rowT: nat := g.bw * 32;
    ghost var t: nat := 0;
    var blockY := 0;
    ghost var ty := 0;
    while blockY < h
      invariant blockY == 4 * ty && ty <= g.bh
      invariant t == ty * rowT && cur == pos + Bpp(f) * t
      invariant DecodedUpTo(img[..], init, f, s, pos, w, h, t)
    {
      MulAssoc(ty, g.bw, 32);
      cur := DecodeTileRow84(f, s, pos, w, h, img, init, t, blockY, ty, cur);
      MulDistrib(ty, 1, rowT);
      t := t + rowT;
      blockY := blockY + 4;
      ty := ty + 1;
    }
    Shape84(f, w, h, ty);
    MulAssoc(ty, g.bw, 32);
    DecodedEnd(img[..], init, f, s, pos, w, h);
  }

  /** The `blockX` loop of `Decode84` over the tiles of tile row `ty`, whose first texel is `t0`. */
  method DecodeTileRow84(f: Format, s: seq<byte>, pos: nat, w: nat, h: nat, img: array<byte>, ghost init: seq<byte>,
                         ghost t0: nat, blockY: nat, ghost ty: nat, cur0: nat) returns (cur: nat)
    requires f == I8 || f == IA4 || f == IA8
    requires pos + InputSize(f, w, h) <= |s|
    requires blockY == 4 * ty && ty < Tiles(f, w, h).bh && blockY < h
    requires t0 == ty * Tiles(f, w, h).bw * 32 && cur0 == pos + Bpp(f) * t0
    requires DecodedUpTo(img[..], init, f, s, pos, w, h, t0)
    modifies img
    ensures cur == pos + Bpp(f) * (t0 + Tiles(f, w, h).bw * 32)
    ensures DecodedUpTo(img[..], init, f, s, pos, w, h, t0 + Tiles(f, w, h).bw * 32)
  {
    ghost var g := Tiles(f, w, h);
    cur := cur0;
    ghost var t := t0;
    var blockX := 0;
    ghost var tx := 0;
    while blockX < w
      invariant blockX == 8 * tx && tx <= g.bw
      invariant t == (ty * g.bw + tx) * 32 && cur == pos + Bpp(f) * t
      invariant DecodedUpTo(img[..], init, f, s, pos, w, h, t)
    {
      cur := DecodeTile84(f, s, pos, w, h, img, init, t, blockX, blockY, tx, ty, cur);
      t := t + 32;
      blockX := blockX + 8;
      tx := tx + 1;
    }
    assert tx == g.bw;
  }

  /** The `pixelY` and `pixelX` loops of `Decode84` over tile `(tx, ty)`, whose first texel is `t0`. */
  method DecodeTile84(f: Format, s: seq<byte>, pos: nat, w: nat, h: nat, img: array<byte>, ghost init: seq<byte>,
                      ghost t0: nat, blockX: nat, blockY: nat, ghost tx: nat, ghost ty: nat, cur0: nat) returns (cur: nat)
    requires f == I8 || f == IA4 || f == IA8
    requires pos + InputSize(f, w, h) <= |s|
    requires blockX == 8 * tx && blockY == 4 * ty && tx < Tiles(f, w, h).bw && ty < Tiles(f, w, h).bh
    requires t0 == (ty * Tiles(f, w, h).bw + tx) * 32 && cur0 == pos + Bpp(f) * t0
    requires DecodedUpTo(img[..], init, f, s, pos, w, h, t0)
    modifies img
    ensures cur == pos + Bpp(f) * (t0 + 32)
    ensures DecodedUpTo(img[..], init, f, s, pos, w, h, t0 + 32)
  {
    cur := cur0;
    ghost var t := t0;
    var pixelY := 0;
    while pixelY < 4
      invariant pixelY <= 4 && t == t0 + pixelY * 8 && cur == pos + Bpp(f) * t
      invariant DecodedUpTo(img[..], init, f, s, pos, w, h, t)
    {
      var pixelX := 0;
      while pixelX < 8
        invariant pixelX <= 8 && t == t0 + pixelY * 8 + pixelX && cur == pos + Bpp(f) * t
        invariant DecodedUpTo(img[..], init, f, s, pos, w, h, t)
      {
        var x, y := blockX + pixelX, blockY + pixelY;
        Texel84At(f, w, h, tx, ty, pixelX, pixelY, t0, x, y, t);
        cur := Texel84(f, s, pos, w, h, img, init, t, x, y, cur);
        t := t + 1;
        pixelX := pixelX + 1;
      }
      pixelY := pixelY + 1;
    }
  }

  /** Once `4 * ty` reaches the height, all `bh` tile rows, `Texels` texels and `InputSize` bytes are done. */
  lemma Shape84(f: Format, w: nat, h: nat, ty: nat)
    requires f == I8 || f == IA4 || f == IA8
    requires ty <= Tiles(f, w, h).bh && 4 * ty >= h
    ensures ty == Tiles(f, w, h).bh
    ensures Texels(f, w, h) == ty * Tiles(f, w, h).bw * 32
    ensures InputSize(f, w, h) == Bpp(f) * (ty * Tiles(f, w, h).bw * 32)
  {
    var g := Tiles(f, w, h);
    assert g == Tiling(8, 4, (w + 7) / 8, (h + 3) / 4);
  }

  /** Pixel `(px, py)` of 8x4 tile `(tx, ty)`, whose first texel is `t0`, is pixel `(x, y)` and texel `t`. */
  lemma Texel84At(f: Format, w: nat, h: nat, tx: nat, ty: nat, px: nat, py: nat, t0: nat, x: nat, y: nat, t: nat)
    requires f == I8 || f == IA4 || f == IA8
    requires tx < Tiles(f, w, h).bw && ty < Tiles(f, w, h).bh && px < 8 && py < 4
    requires t0 == (ty * Tiles(f, w, h).bw + tx) * 32
    requires x == 8 * tx + px && y == 4 * ty + py && t == t0 + py * 8 + px
    ensures TexelIndex(f, w, h, x, y) == t && t < Texels(f, w, h)
    ensures x < 8 * Tiles(f, w, h).bw && y < 4 * Tiles(f, w, h).bh
  {
    var bw, bh := (w + 7) / 8, (h + 3) / 4;
    assert Tiles(f, w, h) == Tiling(8, 4, bw, bh);
    TexelOf84(bw, bh, tx, ty, px, py, t0, x, y, t);
  }

  /** One texel of `Decode84`: read it, then store it when its pixel is inside the image. */
  method Texel84(f: Format, s: seq<byte>, pos: nat, w: nat, h: nat, img: array<byte>, ghost init: seq<byte>,
                 ghost t: nat, x: nat, y: nat, cur0: nat) returns (cur: nat)
    requires f == I8 || f == IA4 || f == IA8
    requires pos + InputSize(f, w, h) <= |s|
    requires DecodedUpTo(img[..], init, f, s, pos, w, h, t) && t < Texels(f, w, h)
    requires x < 8 * Tiles(f, w, h).bw && y < 4 * Tiles(f, w, h).bh && TexelIndex(f, w, h, x, y) == t
    requires cur0 == pos + Bpp(f) * t
    modifies img
    ensures cur == cur0 + Bpp(f)
    ensures DecodedUpTo(img[..], init, f, s, pos, w, h, t + 1)
  {
    UnitInInput(f, w, h, t);
    var px: seq<byte>;
    if f == I8 {
      var data := s[cur0];
      cur := cur0 + 1;
      px := [data, data, data, data];
    } else if f == IA4 {
      var data := s[cur0];
      cur := cur0 + 1;
      var intensity, alpha := Expand4(Lo(data)), Expand4(Hi(data));
      px := [intensity, intensity, intensity, alpha];
    } else {
      var intensity := s[cur0];
      var alpha := s[cur0 + 1];
      cur := cur0 + 2;
      px := [intensity, intensity, intensity, alpha];
    }
    assert px == Be32(TexelColor(f, s, pos, w, h, t));
    if x >= w || y >= h {
      DecodedSkip(img[..], init, f, s, pos, w, h, t, x, y);
    } else {
      PutTexel(img, init, f, s, pos, w, h, t, x, y, px);
    }
  }

  // ---------------------------------------------------------------------
  // I4: 8x8 tiles, two texels per byte
  // ---------------------------------------------------------------------

  /**
    `Decode::I4` (src/Bti.cpp:299-337): 8x8 tiles, one byte per pair of
    texels, the left one in the high nibble.  A byte is read for every
    pair; a row below the image is skipped, and each of the two pixels is
    written only when it is inside the image.
  */
  method DecodeI4(s: seq<byte>, pos: nat, w: nat, h: nat, img: array<byte>) returns (cur: nat)
    requires img.Length == w * h * 4 && pos + InputSize(I4, w, h) <= |s|
    modifies img
    ensures cur == pos + InputSize(I4, w, h)
    ensures forall k :: 0 <= k < img.Length ==> img[k] == Final(I4, s, pos, w, h, k, old(img[k]))
  {
    ghost var init := img[..];
    ghost var g := Tiles(I4, w, h);
    DecodedStart(init, I4, s, pos, w, h);
    cur := pos;
    ghost var t := 0;
    var blockY := 0;
    ghost var ty := 0;
    while blockY < h
      invariant blockY == 8 * ty && ty <= g.bh
      invariant t == ty * g.bw * 64 && 2 * cur == 2 * pos + t
      invariant DecodedUpTo(img[..], init, I4, s, pos, w, h, t)
    {
      cur := DecodeTileRowI4(s, pos, w, h, img, init, t, blockY, ty, cur);
      t := t + g.bw * 64;
      blockY := blockY + 8;
      ty := ty + 1;
    }
    ShapeI4(w, h, ty);
    DecodedEnd(img[..], init, I4, s, pos, w, h);
  }

  /** Once `8 * ty` reaches the height, all `bh` tile rows, `Texels` texels and `InputSize` bytes are done. */
  lemma ShapeI4(w: nat, h: nat, ty: nat)
    requires ty <= Tiles(I4, w, h).bh && 8 * ty >= h
    ensures ty == Tiles(I4, w, h).bh
    ensures Texels(I4, w, h) == ty * Tiles(I4, w, h).bw * 64
    ensures 2 * InputSize(I4, w, h) == ty * Tiles(I4, w, h).bw * 64
  {
  }

  /** The `blockX` loop of `DecodeI4` over tile row `ty`, whose first texel is `t0`. */
  method DecodeTileRowI4(s: seq<byte>, pos: nat, w: nat, h: nat, img: array<byte>, ghost init: seq<byte>,
                         ghost t0: nat, blockY: nat, ghost ty: nat, cur0: nat) returns (cur: nat)
    requires pos + InputSize(I4, w, h) <= |s|
    requires blockY == 8 * ty && ty < Tiles(I4, w, h).bh
    requires t0 == ty * Tiles(I4, w, h).bw * 64 && 2 * cur0 == 2 * pos + t0
    requires DecodedUpTo(img[..], init, I4, s, pos, w, h, t0)
    modifies img
    ensures 2 * cur == 2 * pos + t0 + Tiles(I4, w, h).bw * 64
    ensures DecodedUpTo(img[..], init, I4, s, pos, w, h, t0 + Tiles(I4, w, h).bw * 64)
  {
    ghost var g := Tiles(I4, w, h);
    cur := cur0;
    ghost var t := t0;
    var blockX := 0;
    ghost var tx := 0;
    while blockX < w
      invariant blockX == 8 * tx && tx <= g.bw
      invariant t == (ty * g.bw + tx) * 64 && 2 * cur == 2 * pos + t
      invariant DecodedUpTo(img[..], init, I4, s, pos, w, h, t)
    {
      cur := DecodeTileI4(s, pos, w, h, img, init, t, blockX, blockY, tx, ty, cur);
      t := t + 64;
      blockX := blockX + 8;
      tx := tx + 1;
    }
    assert tx == g.bw;
  }

  /** Pixel `(x, y)`, pixel `(px, py)` of I4 tile `(tx, ty)` whose first texel is `t0`, has texel index `t0 + py * 8 + px`. */
  lemma TexelI4At(w: nat, h: nat, tx: nat, ty: nat, px: nat, py: nat, t0: nat, x: nat, y: nat, t: nat)
    requires tx < Tiles(I4, w, h).bw && ty < Tiles(I4, w, h).bh && px < 8 && py < 8
    requires t0 == (ty * Tiles(I4, w, h).bw + tx) * 64
    requires x == 8 * tx + px && y == 8 * ty + py && t == t0 + py * 8 + px
    ensures TexelIndex(I4, w, h, x, y) == t && t < Texels(I4, w, h)
    ensures x < Tiles(I4, w, h).tw * Tiles(I4, w, h).bw && y < Tiles(I4, w, h).th * Tiles(I4, w, h).bh
  {
    var bw, bh := (w + 7) / 8, (h + 7) / 8;
    assert Tiles(I4, w, h) == Tiling(8, 8, bw, bh);
    TexelOf88(bw, bh, tx, ty, px, py, t0, x, y, t);
  }

  /** The `pixelY` loop of `DecodeI4` over tile `(tx, ty)`. */
  method DecodeTileI4(s: seq<byte>, pos: nat, w: nat, h: nat, img: array<byte>, ghost init: seq<byte>,
                      ghost t0: nat, blockX: nat, blockY: nat, ghost tx: nat, ghost ty: nat, cur0: nat) returns (cur: nat)
    requires pos + InputSize(I4, w, h) <= |s|
    requires blockX == 8 * tx && blockY == 8 * ty && tx < Tiles(I4, w, h).bw && ty < Tiles(I4, w, h).bh
    requires t0 == (ty * Tiles(I4, w, h).bw + tx) * 64 && 2 * cur0 == 2 * pos + t0
    requires DecodedUpTo(img[..], init, I4, s, pos, w, h, t0)
    modifies img
    ensures 2 * cur == 2 * pos + t0 + 64
    ensures DecodedUpTo(img[..], init, I4, s, pos, w, h, t0 + 64)
  {
    cur := cur0;
    ghost var t := t0;
    var pixelY := 0;
    while pixelY < 8
      invariant pixelY <= 8 && t == t0 + pixelY * 8 && 2 * cur == 2 * pos + t
      invariant DecodedUpTo(img[..], init, I4, s, pos, w, h, t)
    {
      cur := DecodeLineI4(s, pos, w, h, img, init, t0, blockX, blockY, tx, ty, pixelY, cur);
      t := t + 8;
      pixelY := pixelY + 1;
    }
  }

  /** The `pixelX` loop of `DecodeI4`, stepping by two along row `pixelY` of tile `(tx, ty)`. */
  method DecodeLineI4(s: seq<byte>, pos: nat, w: nat, h: nat, img: array<byte>, ghost init: seq<byte>,
                      ghost t0: nat, blockX: nat, blockY: nat, ghost tx: nat, ghost ty: nat, pixelY: nat, cur0: nat)
    returns (cur: nat)
    requires pos + InputSize(I4, w, h) <= |s|
    requires blockX == 8 * tx && blockY == 8 * ty && tx < Tiles(I4, w, h).bw && ty < Tiles(I4, w, h).bh && pixelY < 8
    requires t0 == (ty * Tiles(I4, w, h).bw + tx) * 64 && 2 * cur0 == 2 * pos + t0 + pixelY * 8
    requires DecodedUpTo(img[..], init, I4, s, pos, w, h, t0 + pixelY * 8)
    modifies img
    ensures 2 * cur == 2 * pos + t0 + pixelY * 8 + 8
    ensures DecodedUpTo(img[..], init, I4, s, pos, w, h, t0 + pixelY * 8 + 8)
  {
    cur := cur0;
    var pixelX := 0;
    ghost var pairs := 0;
    while pixelX < 8
      invariant pixelX == 2 * pairs && pixelX <= 8 && 2 * cur == 2 * pos + t0 + pixelY * 8 + pixelX
      invariant DecodedUpTo(img[..], init, I4, s, pos, w, h, t0 + pixelY * 8 + pixelX)
    {
      cur := TexelPairI4(s, pos, w, h, img, init, t0, blockX, blockY, tx, ty, pixelX, pixelY, cur);
      pairs := pairs + 1;
      pixelX := pixelX + 2;
    }
  }

  /** One byte of `DecodeI4`: the texels of pixels `(pixelX, pixelY)` and `(pixelX + 1, pixelY)` of tile `(tx, ty)`. */
  method TexelPairI4(s: seq<byte>, pos: nat, w: nat, h: nat, img: array<byte>, ghost init: seq<byte>,
                     ghost t0: nat, blockX: nat, blockY: nat, ghost tx: nat, ghost ty: nat, pixelX: nat, pixelY: nat, cur0: nat)
    returns (cur: nat)
    requires pos + InputSize(I4, w, h) <= |s|
    requires blockX == 8 * tx && blockY == 8 * ty && tx < Tiles(I4, w, h).bw && ty < Tiles(I4, w, h).bh
    requires pixelX + 1 < 8 && pixelY < 8 && t0 == (ty * Tiles(I4, w, h).bw + tx) * 64
    requires 2 * cur0 == 2 * pos + t0 + pixelY * 8 + pixelX
    requires DecodedUpTo(img[..], init, I4, s, pos, w, h, t0 + pixelY * 8 + pixelX)
    modifies img
    ensures cur == cur0 + 1
    ensures DecodedUpTo(img[..], init, I4, s, pos, w, h, t0 + pixelY * 8 + pixelX + 2)
  {
    ghost var t := t0 + pixelY * 8 + pixelX;
    var x, y := blockX + pixelX, blockY + pixelY;
    TexelI4At(w, h, tx, ty, pixelX, pixelY, t0, x, y, t);
    TexelI4At(w, h, tx, ty, pixelX + 1, pixelY, t0, x + 1, y, t + 1);
    PairI4(s, pos, w, h, t, cur0);
    var data := s[cur0];
    cur := cur0 + 1;
    var pixel0, pixel1 := Expand4(Hi(data)), Expand4(Lo(data));
    if y >= h {
      SkipPairI4(img[..], init, s, pos, w, h, t, x, y);
    } else {
      StorePairI4(img, init, s, pos, w, h, t, x, y, [pixel0, pixel0, pixel0, pixel0], [pixel1, pixel1, pixel1, pixel1]);
    }
  }

  /** A pair of I4 texels on a row below the image changes nothing. */
  lemma SkipPairI4(img: seq<byte>, init: seq<byte>, s: seq<byte>, pos: nat, w: nat, h: nat, t: nat, x: nat, y: nat)
    requires pos + InputSize(I4, w, h) <= |s|
    requires DecodedUpTo(img, init, I4, s, pos, w, h, t) && t + 1 < Texels(I4, w, h)
    requires x + 1 < Tiles(I4, w, h).tw * Tiles(I4, w, h).bw && y >= h
    requires TexelIndex(I4, w, h, x, y) == t && TexelIndex(I4, w, h, x + 1, y) == t + 1
    ensures DecodedUpTo(img, init, I4, s, pos, w, h, t + 2)
  {
    DecodedSkip(img, init, I4, s, pos, w, h, t, x, y);
    DecodedSkip(img, init, I4, s, pos, w, h, t + 1, x + 1, y);
  }

  /** The two `if (... < width)` stores of a pair of I4 texels on a row inside the image. */
  method StorePairI4(img: array<byte>, ghost init: seq<byte>, s: seq<byte>, pos: nat, w: nat, h: nat,
                     ghost t: nat, x: nat, y: nat, px0: seq<byte>, px1: seq<byte>)
    requires pos + InputSize(I4, w, h) <= |s|
    requires DecodedUpTo(img[..], init, I4, s, pos, w, h, t) && t + 1 < Texels(I4, w, h)
    requires x + 1 < Tiles(I4, w, h).tw * Tiles(I4, w, h).bw && y < h && y < Tiles(I4, w, h).th * Tiles(I4, w, h).bh
    requires TexelIndex(I4, w, h, x, y) == t && TexelIndex(I4, w, h, x + 1, y) == t + 1
    requires px0 == Be32(TexelColor(I4, s, pos, w, h, t)) && px1 == Be32(TexelColor(I4, s, pos, w, h, t + 1))
    modifies img
    ensures DecodedUpTo(img[..], init, I4, s, pos, w, h, t + 2)
  {
    StoreInside(img, init, I4, s, pos, w, h, t, x, y, px0);
    StoreInside(img, init, I4, s, pos, w, h, t + 1, x + 1, y, px1);
  }

  /** The byte at cursor `cur` holds texels `t` (high nibble) and `t + 1` (low nibble). */
  lemma PairI4(s: seq<byte>, pos: nat, w: nat, h: nat, t: nat, cur: nat)
    requires pos + InputSize(I4, w, h) <= |s| && t + 1 < Texels(I4, w, h) && 2 * cur == 2 * pos + t
    ensures cur < |s|
    ensures Be32(TexelColor(I4, s, pos, w, h, t)) == [Expand4(Hi(s[cur])), Expand4(Hi(s[cur])), Expand4(Hi(s[cur])), Expand4(Hi(s[cur]))]
    ensures Be32(TexelColor(I4, s, pos, w, h, t + 1)) == [Expand4(Lo(s[cur])), Expand4(Lo(s[cur])), Expand4(Lo(s[cur])), Expand4(Lo(s[cur]))]
  {
    var q: nat := cur - pos;
    DivModUnique(t, 2, q, 0);
    DivModUnique(t + 1, 2, q, 1);
    NibbleI4(s, pos, w, h, t, cur, true);
    NibbleI4(s, pos, w, h, t + 1, cur, false);
  }

  /** Texel `t` of I4 is the high (`hi`) or low nibble of the byte at `cur`, expanded to all four channels. */
  lemma NibbleI4(s: seq<byte>, pos: nat, w: nat, h: nat, t: nat, cur: nat, hi: bool)
    requires pos + InputSize(I4, w, h) <= |s| && t < Texels(I4, w, h)
    requires cur == pos + t / 2 && hi == (t % 2 == 0)
    ensures cur < |s|
    ensures Be32(TexelColor(I4, s, pos, w, h, t)) == if hi then [Expand4(Hi(s[cur])), Expand4(Hi(s[cur])), Expand4(Hi(s[cur])), Expand4(Hi(s[cur]))]
                                                    else [Expand4(Lo(s[cur])), Expand4(Lo(s[cur])), Expand4(Lo(s[cur])), Expand4(Lo(s[cur]))]
  {
    UnitInInput(I4, w, h, t);
  }

  /** `if (x < width)`: texel `t` of pixel `(x, y)`, on a row inside the image, is stored only when its column is inside too. */
  method StoreInside(img: array<byte>, ghost init: seq<byte>, f: Format, s: seq<byte>, pos: nat, w: nat, h: nat,
                     ghost t: nat, x: nat, y: nat, px: seq<byte>)
    requires pos + InputSize(f, w, h) <= |s|
    requires DecodedUpTo(img[..], init, f, s, pos, w, h, t) && t < Texels(f, w, h)
    requires y < h && x < Tiles(f, w, h).tw * Tiles(f, w, h).bw && y < Tiles(f, w, h).th * Tiles(f, w, h).bh
    requires TexelIndex(f, w, h, x, y) == t && px == Be32(TexelColor(f, s, pos, w, h, t))
    modifies img
    ensures DecodedUpTo(img[..], init, f, s, pos, w, h, t + 1)
  {
    if x < w {
      PutTexel(img, init, f, s, pos, w, h, t, x, y, px);
    } else {
      DecodedSkip(img[..], init, f, s, pos, w, h, t, x, y);
    }
  }

  // ---------------------------------------------------------------------
  // RGB565 and RGB5A3: whole 4x4 tiles, a 16-bit colour per texel
  // ---------------------------------------------------------------------

  /**
    `Decode::RGB5A3` and `Decode::RGB565` (src/Bti.cpp:233-297): the loops
    run over the `width / 4` by `height / 4` whole tiles only, so the last
    `width % 4` columns and `height % 4` rows stay as they were.  RGB5A3
    reads a texel before its bounds check and RGB565 after it; inside whole
    tiles the bounds test always passes and the two agree.
  */
  method Decode44(f: Format, s: seq<byte>, pos: nat, w: nat, h: nat, img: array<byte>) returns (cur: nat)
    requires f == RGB565 || f == RGB5A3
    requires img.Length == w * h * 4 && pos + InputSize(f, w, h) <= |s|
    modifies img
    ensures cur == pos + InputSize(f, w, h)
    ensures forall k :: 0 <= k < img.Length ==> img[k] == Final(f, s, pos, w, h, k, old(img[k]))
  {
    ghost var init := img[..];
    DecodedStart(init, f, s, pos, w, h);
    var numBlocksW, numBlocksH := w / 4, h / 4;
    cur := pos;
    ghost var rowT: nat := numBlocksW * 16;
    ghost var t: nat := 0;
    var blockY := 0;
    while blockY < numBlocksH
      invariant blockY <= numBlocksH
      invariant t == blockY * rowT && cur == pos + 2 * t
      invariant DecodedUpTo(img[..], init, f, s, pos, w, h, t)
    {
      MulAssoc(blockY, numBlocksW, 16);
      cur := DecodeTileRow44(f, s, pos, w, h, img, init, t, blockY, cur);
      MulDistrib(blockY, 1, rowT);
      t := t + rowT;
      blockY := blockY + 1;
    }
    Shape44(f, w, h);
    MulAssoc(numBlocksH, numBlocksW, 16);
    assert t == Texels(f, w, h);
    DecodedEnd(img[..], init, f, s, pos, w, h);
  }

  /** The whole 4x4 tiles hold `Texels` texels of 2 bytes each. */
  lemma Shape44(f: Format, w: nat, h: nat)
    requires f == RGB565 || f == RGB5A3
    ensures Texels(f, w, h) == h / 4 * (w / 4) * 16
    ensures InputSize(f, w, h) == 2 * (h / 4 * (w / 4) * 16)
  {
    assert Tiles(f, w, h) == Tiling(4, 4, w / 4, h / 4);
  }

  /** The `blockX` loop of `Decode44` over tile row `blockY`, whose first texel is `t0`. */
  method DecodeTileRow44(f: Format, s: seq<byte>, pos: nat, w: nat, h: nat, img: array<byte>, ghost init: seq<byte>,
                         ghost t0: nat, blockY: nat, cur0: nat) returns (cur: nat)
    requires f == RGB565 || f == RGB5A3
    requires pos + InputSize(f, w, h) <= |s|
    requires blockY < h / 4
    requires t0 == blockY * (w / 4) * 16 && cur0 == pos + 2 * t0
    requires DecodedUpTo(img[..], init, f, s, pos, w, h, t0)
    modifies img
    ensures cur == pos + 2 * (t0 + w / 4 * 16)
    ensures DecodedUpTo(img[..], init, f, s, pos, w, h, t0 + w / 4 * 16)
  {
    cur := cur0;
    ghost var t := t0;
    var blockX := 0;
    while blockX < w / 4
      invariant blockX <= w / 4
      invariant t == (blockY * (w / 4) + blockX) * 16 && cur == pos + 2 * t
      invariant DecodedUpTo(img[..], init, f, s, pos, w, h, t)
    {
      cur := DecodeTile44(f, s, pos, w, h, img, init, t, blockX, blockY, cur);
      t := t + 16;
      blockX := blockX + 1;
    }
  }

  /** Pixel `(px, py)` of 4x4 tile `(tx, ty)`, whose first texel is `t0`, is pixel `(x, y)` and texel `t`. */
  lemma Texel44At(f: Format, w: nat, h: nat, tx: nat, ty: nat, px: nat, py: nat, t0: nat, x: nat, y: nat, t: nat)
    requires f == RGB565 || f == RGB5A3
    requires tx < w / 4 && ty < h / 4 && px < 4 && py < 4
    requires t0 == (ty * (w / 4) + tx) * 16
    requires x == 4 * tx + px && y == 4 * ty + py && t == t0 + py * 4 + px
    ensures TexelIndex(f, w, h, x, y) == t && t < Texels(f, w, h)
    ensures Covered(f, w, h, x, y)
  {
    var bw, bh := w / 4, h / 4;
    assert Tiles(f, w, h) == Tiling(4, 4, bw, bh);
    TexelOf44(bw, bh, tx, ty, px, py, t0, x, y, t);
  }

  /** The `pixelY` and `pixelX` loops of `Decode44` over tile `(blockX, blockY)`. */
  method DecodeTile44(f: Format, s: seq<byte>, pos: nat, w: nat, h: nat, img: array<byte>, ghost init: seq<byte>,
                      ghost t0: nat, blockX: nat, blockY: nat, cur0: nat) returns (cur: nat)
    requires f == RGB565 || f == RGB5A3
    requires pos + InputSize(f, w, h) <= |s|
    requires blockX < w / 4 && blockY < h / 4
    requires t0 == (blockY * (w / 4) + blockX) * 16 && cur0 == pos + 2 * t0
    requires DecodedUpTo(img[..], init, f, s, pos, w, h, t0)
    modifies img
    ensures cur == pos + 2 * (t0 + 16)
    ensures DecodedUpTo(img[..], init, f, s, pos, w, h, t0 + 16)
  {
    cur := cur0;
    ghost var t := t0;
    var pixelY := 0;
    while pixelY < 4
      invariant pixelY <= 4 && t == t0 + pixelY * 4 && cur == pos + 2 * t
      invariant DecodedUpTo(img[..], init, f, s, pos, w, h, t)
    {
      var pixelX := 0;
      while pixelX < 4
        invariant pixelX <= 4 && t == t0 + pixelY * 4 + pixelX && cur == pos + 2 * t
        invariant DecodedUpTo(img[..], init, f, s, pos, w, h, t)
      {
        var x, y := blockX * 4 + pixelX, blockY * 4 + pixelY;
        Texel44At(f, w, h, blockX, blockY, pixelX, pixelY, t0, x, y, t);
        cur := Texel44(f, s, pos, w, h, img, init, t, x, y, cur);
        t := t + 1;
        pixelX := pixelX + 1;
      }
      pixelY := pixelY + 1;
    }
  }

  /** One texel of `Decode44`: a big-endian 16-bit colour, converted and stored. */
  method Texel44(f: Format, s: seq<byte>, pos: nat, w: nat, h: nat, img: array<byte>, ghost init: seq<byte>,
                 ghost t: nat, x: nat, y: nat, cur0: nat) returns (cur: nat)
    requires f == RGB565 || f == RGB5A3
    requires pos + InputSize(f, w, h) <= |s|
    requires DecodedUpTo(img[..], init, f, s, pos, w, h, t) && t < Texels(f, w, h)
    requires Covered(f, w, h, x, y) && TexelIndex(f, w, h, x, y) == t
    requires cur0 == pos + 2 * t
    modifies img
    ensures cur == cur0 + 2
    ensures DecodedUpTo(img[..], init, f, s, pos, w, h, t + 1)
  {
    UnitInInput(f, w, h, t);
    var data := U16BE(s, cur0);
    cur := cur0 + 2;
    var rgba8 := if f == RGB565 then RGB565toRGBA8(data) else RGB5A3toRGBA8(data);
    PutTexel(img, init, f, s, pos, w, h, t, x, y, Be32(rgba8));
  }

  // ---------------------------------------------------------------------
  // CMPR: 8x8 tiles of four 4x4 sub-blocks
  // ---------------------------------------------------------------------

  /** `std::max(0, std::min(4, v))`: how many of a sub-block's four columns (or rows) lie inside the image. */
  function Span(v: int): (r: nat)
    ensures r <= 4 && (v >= 4 ==> r == 4) && (0 <= v < 4 ==> r == v) && (v < 0 ==> r == 0)
  {
    if v < 0 then 0 else if v < 4 then v else 4
  }

  /**
    Pixel `(px, py)` of sub-block `(sx, sy)` of CMPR tile `(tx, ty)`, which is
    sub-block `sb` of the stream, is pixel `(x, y)` and texel `t`: the texels
    of the sub-blocks before it come first.
  */
  lemma TexelCmprAt(w: nat, h: nat, tx: nat, ty: nat, sx: nat, sy: nat, px: nat, py: nat, sb: nat, x: nat, y: nat, t: nat)
    requires tx < (w + 7) / 8 && ty < (h + 7) / 8 && sx < 2 && sy < 2 && px < 4 && py < 4
    requires sb == ((ty * ((w + 7) / 8) + tx) * 2 + sy) * 2 + sx
    requires x == tx * 8 + sx * 4 + px && y == ty * 8 + sy * 4 + py && t == sb * 16 + py * 4 + px
    ensures TexelIndex(CMPR, w, h, x, y) == t && sb * 16 + 16 <= Texels(CMPR, w, h)
    ensures x < Tiles(CMPR, w, h).tw * Tiles(CMPR, w, h).bw && y < Tiles(CMPR, w, h).th * Tiles(CMPR, w, h).bh
    ensures t / 16 == sb && t % 16 == py * 4 + px
  {
    var bw, bh := (w + 7) / 8, (h + 7) / 8;
    ShapeCMPR(w, h);
    CmprSubBlock(bw, bh, tx, ty, sx, sy, px, py, sb, x, y, t);
  }

  /** `TexelCmprAt` for a grid of `bw` by `bh` CMPR tiles. */
  lemma CmprSubBlock(bw: nat, bh: nat, tx: nat, ty: nat, sx: nat, sy: nat, px: nat, py: nat, sb: nat, x: nat, y: nat, t: nat)
    requires tx < bw && ty < bh && sx < 2 && sy < 2 && px < 4 && py < 4
    requires sb == ((ty * bw + tx) * 2 + sy) * 2 + sx
    requires x == tx * 8 + sx * 4 + px && y == ty * 8 + sy * 4 + py && t == sb * 16 + py * 4 + px
    ensures CmprIndex(bw, x, y) == t && sb * 16 + 16 <= bh * bw * 64
    ensures x < 8 * bw && y < 8 * bh
    ensures t / 16 == sb && t % 16 == py * 4 + px
  {
    NatArith(ty, bw, 1);
    var b: nat := ty * bw + tx;
    CmprIndexOfTile(bw, tx, ty, sx, sy, px, py);
    assert b < bw * bh by {
      MulMonotone(ty + 1, bh, bw);
    }
    SubBlockBelow(b, bw * bh, sx, sy);
    DivModUnique(t, 16, sb, py * 4 + px);
  }

  /**
    `Decode::CMPR` (src/Bti.cpp:194-231): 8x8 tiles covering the image,
    each four 8-byte sub-blocks decoded by `DecodeCMPRSubBlock`; of every
    sub-block only the rows and columns inside the image are copied.
  */
  method DecodeCMPR(s: seq<byte>, pos: nat, w: nat, h: nat, img: array<byte>) returns (cur: nat)
    requires img.Length == w * h * 4 && pos + InputSize(CMPR, w, h) <= |s|
    modifies img
    ensures cur == pos + InputSize(CMPR, w, h)
    ensures forall k :: 0 <= k < img.Length ==> img[k] == Final(CMPR, s, pos, w, h, k, old(img[k]))
  {
    ghost var init := img[..];
    DecodedStart(init, CMPR, s, pos, w, h);
    var numBlocksW, numBlocksH := (w + 7) / 8, (h + 7) / 8;
    cur := pos;
    ghost var rowT: nat := numBlocksW * 64;
    ghost var t: nat := 0;
    var blockY := 0;
    while blockY < numBlocksH
      invariant blockY <= numBlocksH
      invariant t == blockY * rowT && 2 * cur == 2 * pos + t
      invariant DecodedUpTo(img[..], init, CMPR, s, pos, w, h, t)
    {
      MulAssoc(blockY, numBlocksW, 64);
      cur := DecodeTileRowCMPR(s, pos, w, h, img, init, t, blockY, cur);
      MulDistrib(blockY, 1, rowT);
      t := t + rowT;
      blockY := blockY + 1;
    }
    ShapeCMPR(w, h);
    MulAssoc(numBlocksH, numBlocksW, 64);
    assert t == Texels(CMPR, w, h);
    DecodedEnd(img[..], init, CMPR, s, pos, w, h);
  }

  /** The CMPR tiles hold `Texels` texels, half a byte each. */
  lemma ShapeCMPR(w: nat, h: nat)
    ensures Tiles(CMPR, w, h) == Tiling(8, 8, (w + 7) / 8, (h + 7) / 8)
    ensures Texels(CMPR, w, h) == (h + 7) / 8 * ((w + 7) / 8) * 64
    ensures 2 * InputSize(CMPR, w, h) == (h + 7) / 8 * ((w + 7) / 8) * 64
  {
  }

  /** The `blockX` loop of `DecodeCMPR` over tile row `blockY`, whose first texel is `t0`. */
  method DecodeTileRowCMPR(s: seq<byte>, pos: nat, w: nat, h: nat, img: array<byte>, ghost init: seq<byte>,
                           ghost t0: nat, blockY: nat, cur0: nat) returns (cur: nat)
    requires pos + InputSize(CMPR, w, h) <= |s|
    requires blockY < (h + 7) / 8
    requires t0 == blockY * ((w + 7) / 8) * 64 && 2 * cur0 == 2 * pos + t0
    requires DecodedUpTo(img[..], init, CMPR, s, pos, w, h, t0)
    modifies img
    ensures 2 * cur == 2 * pos + t0 + (w + 7) / 8 * 64
    ensures DecodedUpTo(img[..], init, CMPR, s, pos, w, h, t0 + (w + 7) / 8 * 64)
  {
    cur := cur0;
    ghost var t := t0;
    var blockX := 0;
    while blockX < (w + 7) / 8
      invariant blockX <= (w + 7) / 8
      invariant t == (blockY * ((w + 7) / 8) + blockX) * 64 && 2 * cur == 2 * pos + t
      invariant DecodedUpTo(img[..], init, CMPR, s, pos, w, h, t)
    {
      cur := DecodeTileCMPR(s, pos, w, h, img, init, t, blockX, blockY, cur);
      t := t + 64;
      blockX := blockX + 1;
    }
  }

  /** The `subBlockY` and `subBlockX` loops of `DecodeCMPR` over tile `(blockX, blockY)`. */
  method DecodeTileCMPR(s: seq<byte>, pos: nat, w: nat, h: nat, img: array<byte>, ghost init: seq<byte>,
                        ghost t0: nat, blockX: nat, blockY: nat, cur0: nat) returns (cur: nat)
    requires pos + InputSize(CMPR, w, h) <= |s|
    requires blockX < (w + 7) / 8 && blockY < (h + 7) / 8
    requires t0 == (blockY * ((w + 7) / 8) + blockX) * 64 && 2 * cur0 == 2 * pos + t0
    requires DecodedUpTo(img[..], init, CMPR, s, pos, w, h, t0)
    modifies img
    ensures 2 * cur == 2 * pos + t0 + 64
    ensures DecodedUpTo(img[..], init, CMPR, s, pos, w, h, t0 + 64)
  {
    cur := cur0;
    ghost var t := t0;
    var subBlockY := 0;
    while subBlockY < 2
      invariant subBlockY <= 2 && t == t0 + subBlockY * 32 && 2 * cur == 2 * pos + t
      invariant DecodedUpTo(img[..], init, CMPR, s, pos, w, h, t)
    {
      var subBlockX := 0;
      while subBlockX < 2
        invariant subBlockX <= 2 && t == t0 + subBlockY * 32 + subBlockX * 16 && 2 * cur == 2 * pos + t
        invariant DecodedUpTo(img[..], init, CMPR, s, pos, w, h, t)
      {
        ghost var sb := ((blockY * ((w + 7) / 8) + blockX) * 2 + subBlockY) * 2 + subBlockX;
        cur := DecodeSubBlockCMPR(s, pos, w, h, img, init, sb, blockX, blockY, subBlockX, subBlockY, cur);
        t := t + 16;
        subBlockX := subBlockX + 1;
      }
      subBlockY := subBlockY + 1;
    }
  }

  /** The 8-byte sub-block `sb` lies inside the bytes `DecodeCMPR` consumes. */
  lemma SubBlockInInput(w: nat, h: nat, sb: nat)
    requires sb * 16 + 16 <= Texels(CMPR, w, h)
    ensures 8 * sb + 8 <= InputSize(CMPR, w, h)
  {
    var g := Tiles(CMPR, w, h);
    assert Texels(CMPR, w, h) == g.bw * g.bh * 64;
  }

  /**
    Sub-block `sb`, `(subBlockX, subBlockY)` of tile `(blockX, blockY)`, of
    `DecodeCMPR`: decode its 8 bytes, then copy its first `subBlockHeight`
    rows, `subBlockWidth` pixels each, into the image.
  */
  method DecodeSubBlockCMPR(s: seq<byte>, pos: nat, w: nat, h: nat, img: array<byte>, ghost init: seq<byte>,
                            ghost sb: nat, blockX: nat, blockY: nat, subBlockX: nat, subBlockY: nat, cur0: nat)
    returns (cur: nat)
    requires pos + InputSize(CMPR, w, h) <= |s|
    requires blockX < (w + 7) / 8 && blockY < (h + 7) / 8 && subBlockX < 2 && subBlockY < 2
    requires sb == ((blockY * ((w + 7) / 8) + blockX) * 2 + subBlockY) * 2 + subBlockX
    requires cur0 == pos + 8 * sb
    requires DecodedUpTo(img[..], init, CMPR, s, pos, w, h, sb * 16)
    modifies img
    ensures cur == cur0 + 8
    ensures DecodedUpTo(img[..], init, CMPR, s, pos, w, h, sb * 16 + 16)
  {
    TexelCmprAt(w, h, blockX, blockY, subBlockX, subBlockY, 0, 0, sb, blockX * 8 + subBlockX * 4, blockY * 8 + subBlockY * 4, sb * 16);
    SubBlockInInput(w, h, sb);
    var subBlockWidth := Span(w - (subBlockX * 4 + blockX * 8));
    var subBlockHeight := Span(h - (subBlockY * 4 + blockY * 8));
    var subBlockData;
    subBlockData, cur := DecodeCMPRSubBlock(s, cur0);
    var sub := subBlockData[..];
    ghost var t := sb * 16;
    var pixelY := 0;
    while pixelY < subBlockHeight
      invariant pixelY <= subBlockHeight && t == sb * 16 + pixelY * 4
      invariant DecodedUpTo(img[..], init, CMPR, s, pos, w, h, t)
    {
      var destX := blockX * 8 + subBlockX * 4;
      var destY := blockY * 8 + subBlockY * 4 + pixelY;
      CopyRowCMPR(s, pos, w, h, img, init, sb, blockX, blockY, subBlockX, subBlockY, pixelY,
                  sub, cur0, subBlockWidth, destX, destY);
      t := t + 4;
      pixelY := pixelY + 1;
    }
    SkipRowsCMPR(img[..], init, s, pos, w, h, sb, blockX, blockY, subBlockX, subBlockY, pixelY);
  }

  /** Rows `py` to 3 of sub-block `sb` lie below the image: their texels change nothing. */
  lemma SkipRowsCMPR(img: seq<byte>, init: seq<byte>, s: seq<byte>, pos: nat, w: nat, h: nat, sb: nat,
                     tx: nat, ty: nat, sx: nat, sy: nat, py: nat)
    requires pos + InputSize(CMPR, w, h) <= |s|
    requires tx < (w + 7) / 8 && ty < (h + 7) / 8 && sx < 2 && sy < 2 && py <= 4
    requires sb == ((ty * ((w + 7) / 8) + tx) * 2 + sy) * 2 + sx
    requires py < 4 ==> ty * 8 + sy * 4 + py >= h
    requires DecodedUpTo(img, init, CMPR, s, pos, w, h, sb * 16 + py * 4)
    ensures DecodedUpTo(img, init, CMPR, s, pos, w, h, sb * 16 + 16)
    decreases 4 - py
  {
    if py < 4 {
      SkipColumnsCMPR(img, init, s, pos, w, h, sb, tx, ty, sx, sy, py, 0);
      SkipRowsCMPR(img, init, s, pos, w, h, sb, tx, ty, sx, sy, py + 1);
    }
  }

  /** Columns `px` to 3 of row `py` of sub-block `sb` lie outside the image: their texels change nothing. */
  lemma SkipColumnsCMPR(img: seq<byte>, init: seq<byte>, s: seq<byte>, pos: nat, w: nat, h: nat, sb: nat,
                        tx: nat, ty: nat, sx: nat, sy: nat, py: nat, px: nat)
    requires pos + InputSize(CMPR, w, h) <= |s|
    requires tx < (w + 7) / 8 && ty < (h + 7) / 8 && sx < 2 && sy < 2 && py < 4 && px <= 4
    requires sb == ((ty * ((w + 7) / 8) + tx) * 2 + sy) * 2 + sx
    requires px < 4 ==> tx * 8 + sx * 4 + px >= w || ty * 8 + sy * 4 + py >= h
    requires DecodedUpTo(img, init, CMPR, s, pos, w, h, sb * 16 + py * 4 + px)
    ensures DecodedUpTo(img, init, CMPR, s, pos, w, h, sb * 16 + py * 4 + 4)
    decreases 4 - px
  {
    if px < 4 {
      var x, y, t := tx * 8 + sx * 4 + px, ty * 8 + sy * 4 + py, sb * 16 + py * 4 + px;
      TexelCmprAt(w, h, tx, ty, sx, sy, px, py, sb, x, y, t);
      DecodedSkip(img, init, CMPR, s, pos, w, h, t, x, y);
      SkipColumnsCMPR(img, init, s, pos, w, h, sb, tx, ty, sx, sy, py, px + 1);
    }
  }

  /**
    Row `pixelY` of decoded sub-block `sb`: the `memcpy` of `subBlockWidth`
    pixels to `(destX, destY)`, written here as a copy pixel by pixel; the
    columns past `subBlockWidth` lie outside the image.
  */
  method CopyRowCMPR(s: seq<byte>, pos: nat, w: nat, h: nat, img: array<byte>, ghost init: seq<byte>,
                     ghost sb: nat, blockX: nat, blockY: nat, subBlockX: nat, subBlockY: nat, pixelY: nat,
                     sub: seq<byte>, ghost at: nat, subBlockWidth: nat, destX: nat, destY: nat)
    requires pos + InputSize(CMPR, w, h) <= |s|
    requires blockX < (w + 7) / 8 && blockY < (h + 7) / 8 && subBlockX < 2 && subBlockY < 2 && pixelY < 4
    requires sb == ((blockY * ((w + 7) / 8) + blockX) * 2 + subBlockY) * 2 + subBlockX
    requires destX == blockX * 8 + subBlockX * 4 && destY == blockY * 8 + subBlockY * 4 + pixelY && destY < h
    requires subBlockWidth == Span(w - destX)
    requires at == pos + 8 * sb && at + 8 <= |s|
    requires |sub| == 64 && forall k :: 0 <= k < 64 ==>
      sub[k] == SubBlockByte(Palette(U16BE(s, at), U16BE(s, at + 2)), U32BE(s, at + 4), k)
    requires DecodedUpTo(img[..], init, CMPR, s, pos, w, h, sb * 16 + pixelY * 4)
    modifies img
    ensures DecodedUpTo(img[..], init, CMPR, s, pos, w, h, sb * 16 + pixelY * 4 + 4)
  {
    if destX >= w || destY >= h {
      SkipColumnsCMPR(img[..], init, s, pos, w, h, sb, blockX, blockY, subBlockX, subBlockY, pixelY, 0);
    } else {
      var i := 0;
      while i < subBlockWidth
        invariant i <= subBlockWidth
        invariant DecodedUpTo(img[..], init, CMPR, s, pos, w, h, sb * 16 + pixelY * 4 + i)
      {
        CopyPixelCMPR(s, pos, w, h, img, init, sb, blockX, blockY, subBlockX, subBlockY, pixelY, i,
                      sub, at, destX, destY);
        i := i + 1;
      }
      SkipColumnsCMPR(img[..], init, s, pos, w, h, sb, blockX, blockY, subBlockX, subBlockY, pixelY, i);
    }
  }

  /** Pixel `i` of row `pixelY` of decoded sub-block `sb`, copied to `(destX + i, destY)`. */
  method CopyPixelCMPR(s: seq<byte>, pos: nat, w: nat, h: nat, img: array<byte>, ghost init: seq<byte>,
                       ghost sb: nat, blockX: nat, blockY: nat, subBlockX: nat, subBlockY: nat, pixelY: nat, i: nat,
                       sub: seq<byte>, ghost at: nat, destX: nat, destY: nat)
    requires pos + InputSize(CMPR, w, h) <= |s|
    requires blockX < (w + 7) / 8 && blockY < (h + 7) / 8 && subBlockX < 2 && subBlockY < 2 && pixelY < 4 && i < 4
    requires sb == ((blockY * ((w + 7) / 8) + blockX) * 2 + subBlockY) * 2 + subBlockX
    requires destX == blockX * 8 + subBlockX * 4 && destY == blockY * 8 + subBlockY * 4 + pixelY
    requires destX + i < w && destY < h
    requires at == pos + 8 * sb && at + 8 <= |s|
    requires |sub| == 64 && forall k :: 0 <= k < 64 ==>
      sub[k] == SubBlockByte(Palette(U16BE(s, at), U16BE(s, at + 2)), U32BE(s, at + 4), k)
    requires DecodedUpTo(img[..], init, CMPR, s, pos, w, h, sb * 16 + pixelY * 4 + i)
    modifies img
    ensures DecodedUpTo(img[..], init, CMPR, s, pos, w, h, sb * 16 + pixelY * 4 + i + 1)
  {
    ghost var t := sb * 16 + pixelY * 4 + i;
    var x := destX + i;
    var j: nat := pixelY * 4 + i;
    TexelCmprAt(w, h, blockX, blockY, subBlockX, subBlockY, i, pixelY, sb, x, destY, t);
    SubBlockTexel(s, pos, w, h, t, at, j, sub);
    PutTexel(img, init, CMPR, s, pos, w, h, t, x, destY, sub[4 * j..4 * j + 4]);
  }

  /** Bytes `4 * i` to `4 * i + 3` of the sub-block `d` decoded at `at` are the colour of its texel `t`, `i == t % 16`. */
  lemma SubBlockTexel(s: seq<byte>, pos: nat, w: nat, h: nat, t: nat, at: nat, i: nat, d: seq<byte>)
    requires pos + InputSize(CMPR, w, h) <= |s| && t < Texels(CMPR, w, h) && at + 8 <= |s|
    requires i == t % 16 && at == pos + 8 * (t / 16)
    requires |d| == 64 && forall k :: 0 <= k < 64 ==>
      d[k] == SubBlockByte(Palette(U16BE(s, at), U16BE(s, at + 2)), U32BE(s, at + 4), k)
    ensures d[4 * i..4 * i + 4] == Be32(TexelColor(CMPR, s, pos, w, h, t))
  {
    var table, bits := Palette(U16BE(s, at), U16BE(s, at + 2)), U32BE(s, at + 4);
    var c := table[Select(bits, i)];
    assert TexelColor(CMPR, s, pos, w, h, t) == c;
    forall j | 0 <= j < 4
      ensures d[4 * i..4 * i + 4][j] == Be32(c)[j]
    {
      Quad(i, 4 * i + j);
      assert d[4 * i + j] == SubBlockByte(table, bits, 4 * i + j);
    }
  }

  /**
    Every pixel a tile of the format covers ends up holding, in R, G, B, A
    order, the colour the stream stores for its texel.
  */
  lemma DecodedPixel(f: Format, s: seq<byte>, pos: nat, w: nat, h: nat, x: nat, y: nat)
    requires pos + InputSize(f, w, h) <= |s| && Covered(f, w, h, x, y)
    ensures TexelIndex(f, w, h, x, y) < Texels(f, w, h)
    ensures 0 <= y * w && 4 * (y * w + x) + 4 <= w * h * 4
    ensures Decoded(f, s, pos, w, h)[4 * (y * w + x)..4 * (y * w + x) + 4]
         == Be32(TexelColor(f, s, pos, w, h, TexelIndex(f, w, h, x, y)))
  {
    TexelIndexBound(f, w, h, x, y);
    PixelInImage(w, h, x, y);
    NatArith(y, w, 1);
    var o: nat := 4 * (y * w + x);
    DecodedQuad(f, s, pos, w, h, x, y, o, Decoded(f, s, pos, w, h), Be32(TexelColor(f, s, pos, w, h, TexelIndex(f, w, h, x, y))));
  }

  /** The four bytes of covered pixel `(x, y)`, from `o`, are its texel's colour `c`. */
  lemma DecodedQuad(f: Format, s: seq<byte>, pos: nat, w: nat, h: nat, x: nat, y: nat, o: nat, d: seq<byte>, c: seq<byte>)
    requires pos + InputSize(f, w, h) <= |s| && Covered(f, w, h, x, y)
    requires TexelIndex(f, w, h, x, y) < Texels(f, w, h)
    requires o == 4 * (y * w + x) && o + 4 <= w * h * 4
    requires d == Decoded(f, s, pos, w, h) && c == Be32(TexelColor(f, s, pos, w, h, TexelIndex(f, w, h, x, y)))
    ensures d[o..o + 4] == c
  {
    DecodedChannel(f, s, pos, w, h, x, y, 0, o, d, c);
    DecodedChannel(f, s, pos, w, h, x, y, 1, o + 1, d, c);
    DecodedChannel(f, s, pos, w, h, x, y, 2, o + 2, d, c);
    DecodedChannel(f, s, pos, w, h, x, y, 3, o + 3, d, c);
    SliceOfFour(d, o, c);
  }

  /** Byte `k`, channel `i` of covered pixel `(x, y)`, is channel `i` of its texel's colour. */
  lemma DecodedChannel(f: Format, s: seq<byte>, pos: nat, w: nat, h: nat, x: nat, y: nat, i: nat, k: nat, d: seq<byte>, c: seq<byte>)
    requires pos + InputSize(f, w, h) <= |s| && Covered(f, w, h, x, y) && i < 4
    requires TexelIndex(f, w, h, x, y) < Texels(f, w, h)
    requires k == 4 * (y * w + x) + i && k < w * h * 4
    requires d == Decoded(f, s, pos, w, h) && c == Be32(TexelColor(f, s, pos, w, h, TexelIndex(f, w, h, x, y)))
    ensures d[k] == c[i]
  {
    DecodedAt(f, s, pos, w, h, k);
    FinalOfPixel(f, s, pos, w, h, x, y, i, k);
  }

  /** Byte `k` of the decoded buffer is `Final` of a zero byte. */
  lemma DecodedAt(f: Format, s: seq<byte>, pos: nat, w: nat, h: nat, k: nat)
    requires pos + InputSize(f, w, h) <= |s| && k < w * h * 4
    ensures Decoded(f, s, pos, w, h)[k] == Final(f, s, pos, w, h, k, 0)
  {
  }

  /** Channel `i` of covered pixel `(x, y)` is channel `i` of its texel's colour. */
  lemma FinalOfPixel(f: Format, s: seq<byte>, pos: nat, w: nat, h: nat, x: nat, y: nat, i: nat, k: nat)
    requires pos + InputSize(f, w, h) <= |s| && Covered(f, w, h, x, y) && i < 4
    requires TexelIndex(f, w, h, x, y) < Texels(f, w, h) && k == 4 * (y * w + x) + i
    ensures Final(f, s, pos, w, h, k, 0) == Be32(TexelColor(f, s, pos, w, h, TexelIndex(f, w, h, x, y)))[i]
  {
    PixelOfByte(w, x, y, k);
  }

  /** Four bytes that agree one by one make the same four-byte slice. */
  lemma SliceOfFour(d: seq<byte>, o: nat, c: seq<byte>)
    requires o + 4 <= |d| && |c| == 4
    requires d[o] == c[0] && d[o + 1] == c[1] && d[o + 2] == c[2] && d[o + 3] == c[3]
    ensures d[o..o + 4] == c
  {
    assert d[o..o + 4] == [d[o], d[o + 1], d[o + 2], d[o + 3]];
  }

  /** The colour of a texel depends only on the bytes from the cursor on, wherever they sit in the stream. */
  lemma TexelColorShift(f: Format, p: seq<byte>, e: seq<byte>, w: nat, h: nat, t: nat)
    requires InputSize(f, w, h) <= |e| && t < Texels(f, w, h)
    ensures TexelColor(f, p + e, |p|, w, h, t) == TexelColor(f, e, 0, w, h, t)
  {
    if f == CMPR {
      CmprColorShift(p, e, w, h, t);
    } else if f == RGB565 || f == RGB5A3 {
      WordColorShift(f, p, e, w, h, t);
    } else {
      ByteColorShift(f, p, e, w, h, t);
    }
  }

  /** `TexelColorShift` for CMPR: the sub-block's palette and index word are read past the prefix. */
  lemma CmprColorShift(p: seq<byte>, e: seq<byte>, w: nat, h: nat, t: nat)
    requires InputSize(CMPR, w, h) <= |e| && t < Texels(CMPR, w, h)
    ensures TexelColor(CMPR, p + e, |p|, w, h, t) == TexelColor(CMPR, e, 0, w, h, t)
  {
    UnitInInput(CMPR, w, h, t);
    var o := 8 * (t / 16);
    HalfShift(p, e, o);
    HalfShift(p, e, o + 2);
    WordShift(p, e, o + 4);
    CmprColorSame(p + e, |p|, e, 0, w, h, t, |p| + o, o);
  }

  /** Two streams whose sub-block for texel `t` reads the same give `t` the same CMPR colour. */
  lemma CmprColorSame(s1: seq<byte>, pos1: nat, s2: seq<byte>, pos2: nat, w: nat, h: nat, t: nat, at1: nat, at2: nat)
    requires pos1 + InputSize(CMPR, w, h) <= |s1| && pos2 + InputSize(CMPR, w, h) <= |s2| && t < Texels(CMPR, w, h)
    requires at1 == pos1 + 8 * (t / 16) && at1 + 8 <= |s1| && at2 == pos2 + 8 * (t / 16) && at2 + 8 <= |s2|
    requires U16BE(s1, at1) == U16BE(s2, at2) && U16BE(s1, at1 + 2) == U16BE(s2, at2 + 2)
    requires U32BE(s1, at1 + 4) == U32BE(s2, at2 + 4)
    ensures TexelColor(CMPR, s1, pos1, w, h, t) == TexelColor(CMPR, s2, pos2, w, h, t)
  {
    CmprColorAt(s1, pos1, w, h, t, at1);
    CmprColorAt(s2, pos2, w, h, t, at2);
  }

  /** The CMPR colour of texel `t` from the three words of its sub-block at `at`. */
  lemma CmprColorAt(s: seq<byte>, pos: nat, w: nat, h: nat, t: nat, at: nat)
    requires pos + InputSize(CMPR, w, h) <= |s| && t < Texels(CMPR, w, h)
    requires at == pos + 8 * (t / 16) && at + 8 <= |s|
    ensures TexelColor(CMPR, s, pos, w, h, t) == Palette(U16BE(s, at), U16BE(s, at + 2))[Select(U32BE(s, at + 4), t % 16)]
  {
  }

  /** `TexelColorShift` for the 16-bit colour formats. */
  lemma WordColorShift(f: Format, p: seq<byte>, e: seq<byte>, w: nat, h: nat, t: nat)
    requires f == RGB565 || f == RGB5A3
    requires InputSize(f, w, h) <= |e| && t < Texels(f, w, h)
    ensures TexelColor(f, p + e, |p|, w, h, t) == TexelColor(f, e, 0, w, h, t)
  {
    UnitInInput(f, w, h, t);
    HalfShift(p, e, 2 * t);
  }

  /** `TexelColorShift` for the intensity formats. */
  lemma ByteColorShift(f: Format, p: seq<byte>, e: seq<byte>, w: nat, h: nat, t: nat)
    requires f == I4 || f == I8 || f == IA4 || f == IA8
    requires InputSize(f, w, h) <= |e| && t < Texels(f, w, h)
    ensures TexelColor(f, p + e, |p|, w, h, t) == TexelColor(f, e, 0, w, h, t)
  {
    UnitInInput(f, w, h, t);
    var s, q := p + e, |p|;
    if f == IA8 {
      assert s[q + 2 * t] == e[2 * t] && s[q + 2 * t + 1] == e[2 * t + 1];
    } else if f == I4 {
      assert s[q + t / 2] == e[t / 2];
    } else {
      assert s[q + t] == e[t];
    }
  }

  /** A half-word read past a prefix is the half-word read from the rest. */
  lemma HalfShift(p: seq<byte>, e: seq<byte>, j: nat)
    requires j + 2 <= |e|
    ensures U16BE(p + e, |p| + j) == U16BE(e, j)
  {
    assert (p + e)[|p| + j] == e[j] && (p + e)[|p| + j + 1] == e[j + 1];
  }

  /** A word read past a prefix is the word read from the rest. */
  lemma WordShift(p: seq<byte>, e: seq<byte>, j: nat)
    requires j + 4 <= |e|
    ensures U32BE(p + e, |p| + j) == U32BE(e, j)
  {
    var s := p + e;
    assert s[|p| + j] == e[j] && s[|p| + j + 1] == e[j + 1];
    assert s[|p| + j + 2] == e[j + 2] && s[|p| + j + 3] == e[j + 3];
  }

  /** Decoding from cursor `|p|` of `p + e` is decoding `e` from its start. */
  lemma DecodedShift(f: Format, p: seq<byte>, e: seq<byte>, w: nat, h: nat)
    requires InputSize(f, w, h) <= |e|
    ensures Decoded(f, p + e, |p|, w, h) == Decoded(f, e, 0, w, h)
  {
    forall k | 0 <= k < w * h * 4
      ensures Final(f, p + e, |p|, w, h, k, 0) == Final(f, e, 0, w, h, k, 0)
    {
      if w > 0 && Covered(f, w, h, PixelX(w, k), PixelY(w, k)) {
        TexelIndexBound(f, w, h, PixelX(w, k), PixelY(w, k));
        TexelColorShift(f, p, e, w, h, TexelIndex(f, w, h, PixelX(w, k), PixelY(w, k)));
      }
    }
    forall k | 0 <= k < w * h * 4
      ensures Decoded(f, p + e, |p|, w, h)[k] == Decoded(f, e, 0, w, h)[k]
    {
      DecodedAt(f, p + e, |p|, w, h, k);
      DecodedAt(f, e, 0, w, h, k);
    }
  }
}
