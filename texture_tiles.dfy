/**
  Tile geometry of the GameCube texture formats (src/Bti.cpp).  A texture
  is stored tile by tile, tiles left to right and then top to bottom, and
  inside a tile row by row.  The position of a pixel in that order is its
  texel index; the decoders read, and the encoders write, one stream unit
  per texel index.
*/
module TextureTiles {
  import opened Util

  /** `bw` x `bh` tiles of `tw` x `th` pixels each. */
  datatype Tiling = Tiling(tw: nat, th: nat, bw: nat, bh: nat)
  {
    predicate Valid() {
      tw > 0 && th > 0
    }

    /** Pixels in all tiles. */
    function Count(): nat {
      bw * bh * (tw * th)
    }
  }

  /** Texel index of pixel `(x, y)`: the tiles before its tile, then the rows and columns before it inside the tile. */
  function Index(g: Tiling, x: nat, y: nat): nat
    requires g.Valid()
  {
    NatArith(y, g.bw, g.th);
    NatArith(x, y / g.th * g.bw, g.tw);
    NatArith(y / g.th * g.bw + x / g.tw, g.tw * g.th, 1);
    NatArith(y % g.th, g.tw, 1);
    NatArith(g.tw, g.th, 1);
    ((y / g.th) * g.bw + x / g.tw) * (g.tw * g.th) + (y % g.th) * g.tw + x % g.tw
  }

  /** Column of the pixel with texel index `t`. */
  function Col(g: Tiling, t: nat): nat
    requires g.Valid() && g.bw > 0
  {
    (t / (g.tw * g.th)) % g.bw * g.tw + (t % (g.tw * g.th)) % g.tw
  }

  /** Row of the pixel with texel index `t`. */
  function Row(g: Tiling, t: nat): nat
    requires g.Valid() && g.bw > 0
  {
    NatArith(g.tw, g.th, 1);
    NatArith(t, 1, g.tw * g.th);
    NatArith(t / (g.tw * g.th), 1, g.bw);
    NatArith(t / (g.tw * g.th) / g.bw, g.th, g.tw);
    NatArith(t % (g.tw * g.th), 1, g.tw);
    var tile: nat := t / (g.tw * g.th) / g.bw;
    tile * g.th + (t % (g.tw * g.th)) / g.tw
  }

  /** Within a tile, the offset `(y % th) * tw + x % tw` stays below the tile's area. */
  lemma InTile(tw: nat, th: nat, px: nat, py: nat)
    requires px < tw && py < th
    ensures py * tw + px < tw * th
  {
    MulMonotone(py + 1, th, tw);
  }

  /** A pixel whose column lies in the tiling is found again from its texel index. */
  lemma IndexCoords(g: Tiling, x: nat, y: nat)
    requires g.Valid() && x < g.tw * g.bw
    ensures Col(g, Index(g, x, y)) == x && Row(g, Index(g, x, y)) == y
  {
    var a := g.tw * g.th;
    var b := (y / g.th) * g.bw + x / g.tw;
    var r := (y % g.th) * g.tw + x % g.tw;
    InTile(g.tw, g.th, x % g.tw, y % g.th);
    DivModUnique(Index(g, x, y), a, b, r);
    if x / g.tw >= g.bw {
      MulMonotone(g.bw, x / g.tw, g.tw);
      assert false;
    }
    DivModUnique(b, g.bw, y / g.th, x / g.tw);
    DivModUnique(r, g.tw, y % g.th, x % g.tw);
  }

  /** Two pixels of the tiling's columns with the same texel index are the same pixel. */
  lemma IndexInjective(g: Tiling, x1: nat, y1: nat, x2: nat, y2: nat)
    requires g.Valid() && x1 < g.tw * g.bw && x2 < g.tw * g.bw
    requires Index(g, x1, y1) == Index(g, x2, y2)
    ensures x1 == x2 && y1 == y2
  {
    IndexCoords(g, x1, y1);
    IndexCoords(g, x2, y2);
  }

  /** The pixel of every texel index below the pixel count lies in the tiles' columns and rows. */
  lemma CoordsBound(g: Tiling, t: nat)
    requires g.Valid() && g.bw > 0 && t < g.Count()
    ensures Col(g, t) < g.tw * g.bw && Row(g, t) < g.th * g.bh
  {
    var a := g.tw * g.th;
    NatArith(g.tw, g.th, 1);
    NatArith(t, 1, a);
    var q: nat, r: nat := t / a, t % a;
    assert g.Count() == (g.bw * g.bh) * a;
    TileBelow(t, a, g.bw * g.bh);
    TileBelow(q, g.bw, g.bh);
    NatArith(q, 1, g.bw);
    var qx: nat, qy: nat := q % g.bw, q / g.bw;
    assert r / g.tw < g.th by {
      TileBelow(r, g.tw, g.th);
    }
    assert Col(g, t) == qx * g.tw + r % g.tw;
    MulBelow(qx, g.bw, g.tw);
    assert Row(g, t) == qy * g.th + r / g.tw;
    MulBelow(qy, g.bh, g.th);
  }

  /** Every texel index is the index of its own pixel. */
  lemma CoordsIndex(g: Tiling, t: nat)
    requires g.Valid() && g.bw > 0
    ensures Index(g, Col(g, t), Row(g, t)) == t
  {
    var a := g.tw * g.th;
    NatArith(g.tw, g.th, 1);
    NatArith(t, 1, a);
    var q: nat, r: nat := t / a, t % a;
    NatArith(q, 1, g.bw);
    NatArith(r, 1, g.tw);
    var qx: nat, qy: nat := q % g.bw, q / g.bw;
    var x, y := Col(g, t), Row(g, t);
    assert x == qx * g.tw + r % g.tw;
    assert y == qy * g.th + r / g.tw;
    assert r / g.tw < g.th by {
      TileBelow(r, g.tw, g.th);
    }
    DivModUnique(y, g.th, qy, r / g.tw);
    DivModUnique(x, g.tw, qx, r % g.tw);
    assert q == qy * g.bw + qx;
    assert r == (r / g.tw) * g.tw + r % g.tw;
    assert t == q * a + r;
  }

  /** A coordinate below `n` tiles of size `d` lies in one of those tiles. */
  lemma TileBelow(v: nat, d: nat, n: nat)
    requires d > 0 && v < d * n
    ensures v / d < n
  {
    if v / d >= n {
      MulMonotone(n, v / d, d);
    }
  }

  /** Whole tiles before `b` plus an offset inside tile `b` stay below `n` tiles. */
  lemma BeforeTile(b: nat, r: nat, a: nat, n: nat)
    requires r < a && b < n
    ensures b * a + r < n * a
  {
    MulMonotone(b + 1, n, a);
  }

  /** Every pixel covered by the tiles has a texel index below the tiling's pixel count. */
  lemma IndexBound(g: Tiling, x: nat, y: nat)
    requires g.Valid() && x < g.tw * g.bw && y < g.th * g.bh
    ensures Index(g, x, y) < g.Count()
  {
    var tx: nat, ty: nat := x / g.tw, y / g.th;
    TileBelow(x, g.tw, g.bw);
    TileBelow(y, g.th, g.bh);
    assert ty * g.bw + tx < g.bw * g.bh by {
      MulMonotone(ty + 1, g.bh, g.bw);
    }
    InTile(g.tw, g.th, x % g.tw, y % g.th);
    BeforeTile(ty * g.bw + tx, (y % g.th) * g.tw + x % g.tw, g.tw * g.th, g.bw * g.bh);
  }

  /** The texel index of pixel `(px, py)` of tile `(tx, ty)` counts the tiles, rows and pixels before it. */
  lemma IndexOfTile(g: Tiling, tx: nat, ty: nat, px: nat, py: nat)
    requires g.Valid() && px < g.tw && py < g.th
    ensures Index(g, tx * g.tw + px, ty * g.th + py) == ((ty * g.bw + tx) * g.th + py) * g.tw + px
  {
    DivModUnique(tx * g.tw + px, g.tw, tx, px);
    DivModUnique(ty * g.th + py, g.th, ty, py);
    MulAssoc(ty * g.bw + tx, g.th, g.tw);
  }

  /** Pixel `(px, py)` of 8x8 tile `(tx, ty)`, whose first texel is `t0`, is pixel `(x, y)` and texel `t`. */
  lemma TexelOf88(bw: nat, bh: nat, tx: nat, ty: nat, px: nat, py: nat, t0: nat, x: nat, y: nat, t: nat)
    requires tx < bw && ty < bh && px < 8 && py < 8
    requires t0 == (ty * bw + tx) * 64 && x == 8 * tx + px && y == 8 * ty + py && t == t0 + py * 8 + px
    ensures Index(Tiling(8, 8, bw, bh), x, y) == t && t < bw * bh * 64 && x < 8 * bw && y < 8 * bh
  {
    NatArith(ty, bw, 1);
    var b: nat := ty * bw + tx;
    IndexOfTile(Tiling(8, 8, bw, bh), tx, ty, px, py);
    assert b < bw * bh by {
      MulMonotone(ty + 1, bh, bw);
    }
    BeforeTile(b, py * 8 + px, 64, bw * bh);
  }

  /** Pixel `(px, py)` of 8x4 tile `(tx, ty)`, whose first texel is `t0`, is pixel `(x, y)` and texel `t`. */
  lemma TexelOf84(bw: nat, bh: nat, tx: nat, ty: nat, px: nat, py: nat, t0: nat, x: nat, y: nat, t: nat)
    requires tx < bw && ty < bh && px < 8 && py < 4
    requires t0 == (ty * bw + tx) * 32 && x == 8 * tx + px && y == 4 * ty + py && t == t0 + py * 8 + px
    ensures Index(Tiling(8, 4, bw, bh), x, y) == t && t < bw * bh * 32 && x < 8 * bw && y < 4 * bh
  {
    NatArith(ty, bw, 1);
    var b: nat := ty * bw + tx;
    IndexOfTile(Tiling(8, 4, bw, bh), tx, ty, px, py);
    assert b < bw * bh by {
      MulMonotone(ty + 1, bh, bw);
    }
    BeforeTile(b, py * 8 + px, 32, bw * bh);
  }

  /** Unit `(px, py)` of 4x8 tile `(tx, ty)`, whose first unit is `t0`, is unit `(x, y)` and number `t`. */
  lemma TexelOf48(bw: nat, bh: nat, tx: nat, ty: nat, px: nat, py: nat, t0: nat, x: nat, y: nat, t: nat)
    requires tx < bw && ty < bh && px < 4 && py < 8
    requires t0 == (ty * bw + tx) * 32 && x == 4 * tx + px && y == 8 * ty + py && t == t0 + py * 4 + px
    ensures Index(Tiling(4, 8, bw, bh), x, y) == t && t < bw * bh * 32 && x < 4 * bw && y < 8 * bh
  {
    NatArith(ty, bw, 1);
    var b: nat := ty * bw + tx;
    IndexOfTile(Tiling(4, 8, bw, bh), tx, ty, px, py);
    assert b < bw * bh by {
      MulMonotone(ty + 1, bh, bw);
    }
    BeforeTile(b, py * 4 + px, 32, bw * bh);
  }

  /** Pixel `(px, py)` of 4x4 tile `(tx, ty)`, whose first texel is `t0`, is pixel `(x, y)` and texel `t`. */
  lemma TexelOf44(bw: nat, bh: nat, tx: nat, ty: nat, px: nat, py: nat, t0: nat, x: nat, y: nat, t: nat)
    requires tx < bw && ty < bh && px < 4 && py < 4
    requires t0 == (ty * bw + tx) * 16 && x == 4 * tx + px && y == 4 * ty + py && t == t0 + py * 4 + px
    ensures Index(Tiling(4, 4, bw, bh), x, y) == t && t < bw * bh * 16 && x < 4 * bw && y < 4 * bh
  {
    NatArith(ty, bw, 1);
    var b: nat := ty * bw + tx;
    IndexOfTile(Tiling(4, 4, bw, bh), tx, ty, px, py);
    assert b < bw * bh by {
      MulMonotone(ty + 1, bh, bw);
    }
    BeforeTile(b, py * 4 + px, 16, bw * bh);
  }

  // ---------------------------------------------------------------------
  // CMPR: 8x8 tiles of four 4x4 sub-blocks
  // ---------------------------------------------------------------------

  /** The four 4x4 sub-blocks of a CMPR tile, in the order they are stored. */
  const SubBlocks: Tiling := Tiling(4, 4, 2, 2)

  /**
    Texel index of pixel `(x, y)` of a CMPR texture with `bw` tiles across:
    64 texels per 8x8 tile, and inside the tile the 4x4 sub-blocks in
    order, each row by row.
  */
  function CmprIndex(bw: nat, x: nat, y: nat): nat {
    TileStart(bw, x / 8, y / 8) * 64 + Index(SubBlocks, x % 8, y % 8)
  }

  /** Tiles before tile `(tx, ty)` of a texture `bw` tiles wide. */
  function TileStart(bw: nat, tx: nat, ty: nat): nat {
    ty * bw + tx
  }

  /** Two pixels of the tiles' columns with the same CMPR texel index are the same pixel. */
  lemma CmprIndexInjective(bw: nat, x1: nat, y1: nat, x2: nat, y2: nat)
    requires x1 < 8 * bw && x2 < 8 * bw
    requires CmprIndex(bw, x1, y1) == CmprIndex(bw, x2, y2)
    ensures x1 == x2 && y1 == y2
  {
    var t := CmprIndex(bw, x1, y1);
    IndexBound(SubBlocks, x1 % 8, y1 % 8);
    IndexBound(SubBlocks, x2 % 8, y2 % 8);
    DivModUnique(t, 64, (y1 / 8) * bw + x1 / 8, Index(SubBlocks, x1 % 8, y1 % 8));
    DivModUnique(t, 64, (y2 / 8) * bw + x2 / 8, Index(SubBlocks, x2 % 8, y2 % 8));
    DivModUnique((y1 / 8) * bw + x1 / 8, bw, y1 / 8, x1 / 8);
    DivModUnique((y2 / 8) * bw + x2 / 8, bw, y2 / 8, x2 / 8);
    IndexInjective(SubBlocks, x1 % 8, y1 % 8, x2 % 8, y2 % 8);
  }

  /** Every pixel covered by `bw` x `bh` CMPR tiles has a texel index below `64 * bw * bh`. */
  lemma CmprIndexBound(bw: nat, bh: nat, x: nat, y: nat)
    requires x < 8 * bw && y < 8 * bh
    ensures CmprIndex(bw, x, y) < bw * bh * 64
  {
    IndexBound(SubBlocks, x % 8, y % 8);
    var b := (y / 8) * bw + x / 8;
    assert b < bw * bh by {
      MulMonotone(y / 8 + 1, bh, bw);
    }
  }

  /**
    The texel index of pixel `(px, py)` of sub-block `(sx, sy)` of tile
    `(tx, ty)`: sixteen texels per sub-block, four sub-blocks per tile.
  */
  lemma CmprIndexOfTile(bw: nat, tx: nat, ty: nat, sx: nat, sy: nat, px: nat, py: nat)
    requires sx < 2 && sy < 2 && px < 4 && py < 4
    ensures CmprIndex(bw, tx * 8 + sx * 4 + px, ty * 8 + sy * 4 + py)
         == (((ty * bw + tx) * 2 + sy) * 2 + sx) * 16 + py * 4 + px
  {
    DivModUnique(tx * 8 + sx * 4 + px, 8, tx, sx * 4 + px);
    DivModUnique(ty * 8 + sy * 4 + py, 8, ty, sy * 4 + py);
    IndexOfTile(SubBlocks, sx, sy, px, py);
  }

  /** Sub-block `(sx, sy)` of tile `tile`, one of `n` tiles, ends within the `n * 64` texels. */
  lemma SubBlockBelow(tile: nat, n: nat, sx: nat, sy: nat)
    requires tile < n && sx < 2 && sy < 2
    ensures ((tile * 2 + sy) * 2 + sx) * 16 + 16 <= n * 64
  {
    MulMonotone(tile + 1, n, 64);
  }
}
