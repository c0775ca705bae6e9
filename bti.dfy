/**
  The BTI texture container of src/Bti.cpp (`Bti::Load`, `Bti::Save`,
  `Bti::SetData`) and the magic check of `Tpl::Load`.

  A BTI file is a 0x20-byte big-endian header followed, at the offset the
  header's last word names, by the tiled pixel data of one texture format.
  A `Bti` object keeps the header fields and an RGBA buffer of
  `width * height * 4` bytes.  Streams are byte sequences: `Save` appends to
  the bytes already in its output, and `Load` reads the header at a cursor
  and the pixel data at the absolute offset the header gives.
*/
module BtiFile {
  import opened Util
  import opened Bytes
  import opened TextureColor
  import opened TextureDecode
  import opened TextureEncode

  /** The fields of a BTI header, in the order `Bti::Save` writes them. */
  datatype Header = Header(
    format: byte, enableAlpha: byte, width: u16, height: u16,
    wrapS: byte, wrapT: byte, paletteFormat: u16, numPaletteEntries: u16, paletteOffset: u32,
    mipMapEnabled: byte, edgeLODEnabled: byte, clampLODBias: byte, maxAnisotropy: byte,
    minFilter: byte, magFilter: byte, minLOD: byte, maxLOD: byte, numImages: byte, lodBias: u16)
  {
    /** Bytes of the RGBA buffer the dimensions call for. */
    function ImageSize(): nat {
      width * height * 4
    }
  }

  const HEADER_SIZE: nat := 0x20

  /** The header of a newly constructed `Bti`: every field zero (include/Bti.hpp:35-57). */
  const EmptyHeader: Header := Header(0, 0, 0, 0, 0, 0, 0, 0, 0, 0, 0, 0, 0, 0, 0, 0, 0, 0, 0)

  /** The `mFormat` codes: 0-5 and 0x0E name a format, every other code none. */
  function FormatOf(code: byte): (r: Option<Format>)
    ensures r.Some? <==> (Val(code) <= 5 || Val(code) == 0x0E)
    ensures r.Some? ==> FormatCode(r.value) == code
  {
    if code == 0 then Some(I4)
    else if code == 1 then Some(I8)
    else if code == 2 then Some(IA4)
    else if code == 3 then Some(IA8)
    else if code == 4 then Some(RGB565)
    else if code == 5 then Some(RGB5A3)
    else if code == 0x0E then Some(CMPR)
    else None
  }

  /** The code of each format. */
  function FormatCode(f: Format): byte {
    match f
    case I4 => 0
    case I8 => 1
    case IA4 => 2
    case IA8 => 3
    case RGB565 => 4
    case RGB5A3 => 5
    case CMPR => 0x0E
  }

  // ---------------------------------------------------------------------
  // Header bytes
  // ---------------------------------------------------------------------

  /** The first 0x1C header bytes `Bti::Save` writes, up to the LOD bias. */
  function HeaderFields(h: Header): (r: seq<byte>)
    ensures |r| == 0x1C
  {
    [h.format, h.enableAlpha] + Be16(h.width) + Be16(h.height)
    + [h.wrapS, h.wrapT] + Be16(h.paletteFormat) + Be16(h.numPaletteEntries) + Be32(h.paletteOffset)
    + [h.mipMapEnabled, h.edgeLODEnabled, h.clampLODBias, h.maxAnisotropy,
       h.minFilter, h.magFilter, h.minLOD, h.maxLOD, h.numImages, 0]
    + Be16(h.lodBias)
  }

  /** The whole header: the fields, then the offset of the pixel data. */
  function HeaderBytes(h: Header, dataOffset: u32): (r: seq<byte>)
    ensures |r| == HEADER_SIZE
  {
    HeaderFields(h) + Be32(dataOffset)
  }

  /** The header `Bti::Load` reads from the 0x20 bytes at `pos`; byte 0x19 is skipped. */
  function ParseHeader(s: seq<byte>, pos: nat): Header
    requires pos + HEADER_SIZE <= |s|
  {
    Header(s[pos], s[pos + 1], U16BE(s, pos + 2), U16BE(s, pos + 4),
           s[pos + 6], s[pos + 7], U16BE(s, pos + 8), U16BE(s, pos + 10), U32BE(s, pos + 12),
           s[pos + 16], s[pos + 17], s[pos + 18], s[pos + 19],
           s[pos + 20], s[pos + 21], s[pos + 22], s[pos + 23], s[pos + 24], U16BE(s, pos + 26))
  }

  /** `imageDataOffset`, the header's last word. */
  function DataOffset(s: seq<byte>, pos: nat): u32
    requires pos + HEADER_SIZE <= |s|
  {
    U32BE(s, pos + 28)
  }

  /** Reading a written header gives back every field and the data offset, whatever surrounds it. */
  lemma HeaderRoundTrip(a: seq<byte>, h: Header, off: u32, b: seq<byte>)
    ensures |a| + HEADER_SIZE <= |a + HeaderBytes(h, off) + b|
    ensures ParseHeader(a + HeaderBytes(h, off) + b, |a|) == h
    ensures DataOffset(a + HeaderBytes(h, off) + b, |a|) == off
  {
    var hb := HeaderBytes(h, off);
    var s := a + hb + b;
    var i := |a|;
    forall k | 0 <= k < HEADER_SIZE
      ensures s[i + k] == hb[k]
    {
    }
    HeaderLayout(h, off);
    HalfAt(s, i + 2, h.width, hb, 2);
    HalfAt(s, i + 4, h.height, hb, 4);
    HalfAt(s, i + 8, h.paletteFormat, hb, 8);
    HalfAt(s, i + 10, h.numPaletteEntries, hb, 10);
    WordAt(s, i + 12, h.paletteOffset, hb, 12);
    HalfAt(s, i + 26, h.lodBias, hb, 26);
    WordAt(s, i + 28, off, hb, 28);
  }

  /** Where each field lies in the header bytes. */
  lemma HeaderLayout(h: Header, off: u32)
    ensures var hb := HeaderBytes(h, off);
      && hb[0] == h.format && hb[1] == h.enableAlpha
      && hb[2] == Be16(h.width)[0] && hb[3] == Be16(h.width)[1]
      && hb[4] == Be16(h.height)[0] && hb[5] == Be16(h.height)[1]
      && hb[6] == h.wrapS && hb[7] == h.wrapT
      && hb[8] == Be16(h.paletteFormat)[0] && hb[9] == Be16(h.paletteFormat)[1]
      && hb[10] == Be16(h.numPaletteEntries)[0] && hb[11] == Be16(h.numPaletteEntries)[1]
      && hb[12] == Be32(h.paletteOffset)[0] && hb[13] == Be32(h.paletteOffset)[1]
      && hb[14] == Be32(h.paletteOffset)[2] && hb[15] == Be32(h.paletteOffset)[3]
      && hb[16] == h.mipMapEnabled && hb[17] == h.edgeLODEnabled && hb[18] == h.clampLODBias
      && hb[19] == h.maxAnisotropy && hb[20] == h.minFilter && hb[21] == h.magFilter
      && hb[22] == h.minLOD && hb[23] == h.maxLOD && hb[24] == h.numImages
      && hb[26] == Be16(h.lodBias)[0] && hb[27] == Be16(h.lodBias)[1]
      && hb[28] == Be32(off)[0] && hb[29] == Be32(off)[1] && hb[30] == Be32(off)[2] && hb[31] == Be32(off)[3]
  {
  }

  /** A half-word whose two bytes are copied from `Be16(v)` inside `hb` reads as `v`. */
  lemma HalfAt(s: seq<byte>, i: nat, v: nat, hb: seq<byte>, j: nat)
    requires v < 0x1_0000 && i + 2 <= |s| && j + 2 <= |hb| && hb[j] == Be16(v)[0] && hb[j + 1] == Be16(v)[1]
    requires s[i] == hb[j] && s[i + 1] == hb[j + 1]
    ensures U16BE(s, i) == v
  {
    U16BEOfBe16(v);
  }

  /** A word whose four bytes are copied from `Be32(v)` inside `hb` reads as `v`. */
  lemma WordAt(s: seq<byte>, i: nat, v: u32, hb: seq<byte>, j: nat)
    requires i + 4 <= |s| && j + 4 <= |hb|
    requires hb[j] == Be32(v)[0] && hb[j + 1] == Be32(v)[1] && hb[j + 2] == Be32(v)[2] && hb[j + 3] == Be32(v)[3]
    requires s[i] == hb[j] && s[i + 1] == hb[j + 1] && s[i + 2] == hb[j + 2] && s[i + 3] == hb[j + 3]
    ensures U32BE(s, i) == v
  {
    U32BEOfBe32(v);
  }

  // ---------------------------------------------------------------------
  // The file Save writes and Load reads
  // ---------------------------------------------------------------------

  /**
    `dataOffset = PadTo32(tell + 4)` with `tell` just after the LOD bias:
    the first multiple of 32 at or after the end of the header.
  */
  function SaveOffset(start: nat): (off: u32)
    requires start + 0x3F < TWO_32
    ensures off % 32 == 0 && start + HEADER_SIZE <= off < start + HEADER_SIZE + 32
  {
    PadTo32Value(start + 0x20);
    PadTo32(start + 0x20)
  }

  /** The pixel data `Bti::Save` writes: the encoder of formats 0-5, nothing for CMPR or an unknown code. */
  function Payload(h: Header, img: seq<byte>): seq<byte>
    requires |img| == h.ImageSize()
  {
    match FormatOf(h.format)
    case Some(f) => if f == CMPR then [] else Encoded(f, img, h.width, h.height)
    case None => []
  }

  /** What `Bti::Save` appends to a stream holding `s`: header, zero fill to the data offset, pixel data. */
  function Saved(s: seq<byte>, h: Header, img: seq<byte>): (r: seq<byte>)
    requires |s| + 0x3F < TWO_32 && |img| == h.ImageSize()
  {
    var off := SaveOffset(|s|);
    s + HeaderBytes(h, off) + Zeros(off - (|s| + HEADER_SIZE)) + Payload(h, img)
  }

  /** The stream holds every byte the decoder of the header's format reads from the data offset. */
  predicate Fits(s: seq<byte>, pos: nat)
    requires pos + HEADER_SIZE <= |s|
  {
    var h := ParseHeader(s, pos);
    h.width == 0 || h.height == 0 ||
    match FormatOf(h.format)
    case Some(f) => DataOffset(s, pos) + InputSize(f, h.width, h.height) <= |s|
    case None => true
  }

  /** The buffer `Bti::Load` ends with: zeros, decoded by the header's format when it names one. */
  function Loaded(s: seq<byte>, pos: nat): (img: seq<byte>)
    requires pos + HEADER_SIZE <= |s| && Fits(s, pos)
    ensures |img| == ParseHeader(s, pos).ImageSize()
  {
    var h := ParseHeader(s, pos);
    if h.width == 0 || h.height == 0 then Zeros(h.ImageSize())
    else
      match FormatOf(h.format)
      case Some(f) => Decoded(f, s, DataOffset(s, pos), h.width, h.height)
      case None => Zeros(h.ImageSize())
  }

  /** A texture object: the header fields and the RGBA buffer `mImageData`. */
  class Bti {
    var header: Header
    var image: seq<byte>

    /** The buffer holds at least the bytes the dimensions call for. */
    ghost predicate Valid()
      reads this
    {
      |image| >= header.ImageSize()
    }

    /** `Bti()`: every field zero and no buffer. */
    constructor()
      ensures header == EmptyHeader && image == [] && Valid()
    {
      header := EmptyHeader;
      image := [];
    }

    /**
      `Bti::SetData` (src/Bti.cpp:776-786): a new zeroed buffer when the
      dimensions change, then the first `width * height * 4` bytes of
      `data` copied over its start.
    */
    method SetData(width: u16, height: u16, data: seq<byte>)
      requires Valid() && width * height * 4 <= |data|
      modifies this
      ensures Valid()
      ensures header == old(header).(width := width, height := height)
      ensures image[..width * height * 4] == data[..width * height * 4]
      ensures |image| == if old(header.width) != width || old(header.height) != height then width * height * 4 else |old(image)|
      ensures image[width * height * 4..] == if old(header.width) != width || old(header.height) != height then [] else old(image)[width * height * 4..]
    {
      var n: nat := width * height * 4;
      if header.width != width || header.height != height {
        image := Zeros(n);
      }
      header := header.(width := width, height := height);
      image := data[..n] + image[n..];
    }

    /**
      `Bti::Save` (src/Bti.cpp:788-842): the header fields, the data offset
      `PadTo32(tell + 4)`, zeros up to it, then the pixel data of formats
      0-5; the CMPR encoder is not called and other codes write nothing.
    */
    method Save(s: seq<byte>) returns (out: seq<byte>)
      requires Valid() && |s| + 0x3F < TWO_32
      ensures out == Saved(s, header, image[..header.ImageSize()])
    {
      out := s + HeaderFields(header);
      var dataOffset := PadTo32(|out| + 4);
      assert dataOffset == SaveOffset(|s|);
      out := out + Be32(dataOffset);
      ghost var prefix := out;
      while |out| != dataOffset
        invariant |prefix| <= |out| <= dataOffset
        invariant out == prefix + Zeros(|out| - |prefix|)
        decreases dataOffset - |out|
      {
        assert Zeros(|out| - |prefix|) + [0] == Zeros(|out| + 1 - |prefix|);
        out := out + [0];
      }
      var data := EncodePayload(header, image[..header.ImageSize()]);
      out := out + data;
    }

    /**
      `Bti::Load` (src/Bti.cpp:844-910): the header fields are read in
      every case; a zero width or height returns false and keeps the
      buffer, otherwise the buffer becomes `width * height * 4` zeros decoded
      from the data offset by the header's format.
    */
    method Load(s: seq<byte>, pos: nat) returns (ok: bool)
      requires pos + HEADER_SIZE <= |s| && Fits(s, pos)
      modifies this
      ensures header == ParseHeader(s, pos)
      ensures ok <==> header.width != 0 && header.height != 0
      ensures ok ==> image == Loaded(s, pos)
      ensures !ok ==> image == old(image)
      ensures Valid()
    {
      header := ParseHeader(s, pos);
      var offset := DataOffset(s, pos);
      if header.width == 0 || header.height == 0 {
        return false;
      }
      var w, h := header.width, header.height;
      var n: nat := header.ImageSize();
      var a := new byte[n](_ => 0);
      var fmt := FormatOf(header.format);
      if fmt.Some? {
        var f := fmt.value;
        var end: nat;
        if f == I4 {
          end := DecodeI4(s, offset, w, h, a);
        } else if f == I8 || f == IA4 || f == IA8 {
          end := Decode84(f, s, offset, w, h, a);
        } else if f == RGB565 || f == RGB5A3 {
          end := Decode44(f, s, offset, w, h, a);
        } else {
          end := DecodeCMPR(s, offset, w, h, a);
        }
        DecodedFromZeros(a[..], f, s, offset, w, h);
      } else {
        assert a[..] == Zeros(n);
      }
      image := a[..];
      ok := true;
    }
  }

  /** The encoder `Bti::Save` picks by format code; CMPR and unknown codes write nothing. */
  method EncodePayload(header: Header, img: seq<byte>) returns (data: seq<byte>)
    requires |img| == header.ImageSize()
    ensures data == Payload(header, img)
  {
    var w, h := header.width, header.height;
    data := [];
    if header.format == 0 {
      data := EncodeI4(img, w, h);
    } else if header.format == 1 {
      data := Encode84(I8, img, w, h);
    } else if header.format == 2 {
      data := Encode84(IA4, img, w, h);
    } else if header.format == 3 {
      data := Encode84(IA8, img, w, h);
    } else if header.format == 4 {
      data := EncodeRGB565(img, w, h);
    } else if header.format == 5 {
      data := EncodeRGB5A3(img, w, h);
    }
  }

  /** A buffer that held zeros and now holds `Final` of them everywhere is `Decoded`. */
  lemma DecodedFromZeros(a: seq<byte>, f: Format, s: seq<byte>, pos: nat, w: nat, h: nat)
    requires pos + InputSize(f, w, h) <= |s| && |a| == w * h * 4
    requires forall k :: 0 <= k < |a| ==> a[k] == Final(f, s, pos, w, h, k, 0)
    ensures a == Decoded(f, s, pos, w, h)
  {
    forall k | 0 <= k < |a|
      ensures a[k] == Decoded(f, s, pos, w, h)[k]
    {
      DecodedAt(f, s, pos, w, h, k);
    }
  }

  // ---------------------------------------------------------------------
  // Properties
  // ---------------------------------------------------------------------

  /**
    The layout `Bti::Save` produces: the header at the old end of the
    stream, reading back as the object's fields; the data offset a multiple
    of 32 within 32 bytes after the header; zeros between; the pixel data
    from the data offset on.
  */
  lemma SavedLayout(s: seq<byte>, h: Header, img: seq<byte>)
    requires |s| + 0x3F < TWO_32 && |img| == h.ImageSize()
    ensures var out := Saved(s, h, img);
      var off := DataOffset(out, |s|);
      && |s| + HEADER_SIZE <= off <= |out|
      && out[..|s|] == s
      && ParseHeader(out, |s|) == h
      && off == SaveOffset(|s|) && off % 32 == 0 && off < |s| + HEADER_SIZE + 32
      && out[|s| + HEADER_SIZE..off] == Zeros(off - (|s| + HEADER_SIZE))
      && out[off..] == Payload(h, img)
  {
    var off := SaveOffset(|s|);
    var z := Zeros(off - (|s| + HEADER_SIZE));
    var p := Payload(h, img);
    var out := Saved(s, h, img);
    assert out == s + HeaderBytes(h, off) + (z + p);
    HeaderRoundTrip(s, h, off, z + p);
    assert out[..|s|] == s;
    assert out[|s| + HEADER_SIZE..off] == z;
    assert out[off..] == p;
  }

  /**
    Save then Load: on an image of whole tiles in one of the formats
    `Bti::Save` encodes, loading the saved stream at the old end restores
    the header, and each pixel comes back as `Restored` of the original.
  */
  lemma SaveLoadRoundTrip(s: seq<byte>, h: Header, img: seq<byte>, x: nat, y: nat)
    requires |s| + 0x3F < TWO_32 && |img| == h.ImageSize()
    requires Val(h.format) <= 5 && DecodeWhole(FormatOf(h.format).value, h.width, h.height)
    requires x < h.width && y < h.height
    ensures var out := Saved(s, h, img);
      && |s| + HEADER_SIZE <= |out| && ParseHeader(out, |s|) == h && Fits(out, |s|)
      && PixelAt(Loaded(out, |s|), h.width, h.height, x, y)
         == Restored(FormatOf(h.format).value, PixelAt(img, h.width, h.height, x, y))
  {
    var f := FormatOf(h.format).value;
    var off := SaveOffset(|s|);
    var e := Encoded(f, img, h.width, h.height);
    var out := Saved(s, h, img);
    SavedLayout(s, h, img);
    RoundTrip(f, img, h.width, h.height, x, y);
    var prefix := out[..off];
    assert out == prefix + e;
    DecodedShift(f, prefix, e, h.width, h.height);
  }

  // ---------------------------------------------------------------------
  // TPL
  // ---------------------------------------------------------------------

  const TPL_MAGIC: u32 := 0x0020_AF30

  /** `Tpl::Load` (src/Bti.cpp:997-1003) goes on only when the stream starts with the bytes 00 20 AF 30. */
  function TplMagicOk(s: seq<byte>, pos: nat): (ok: bool)
    requires pos + 4 <= |s|
    ensures ok <==> s[pos..pos + 4] == [0x00, 0x20, 0xAF, 0x30]
  {
    Be32OfU32BE(s, pos);
    Be32Digits(TPL_MAGIC, 0x00, 0x20, 0xAF, 0x30);
    U32BE(s, pos) == TPL_MAGIC
  }
}
