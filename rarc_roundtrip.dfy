/**
  What `Rarc::Load` reads back from the image `Rarc::Save` writes.

  For a big-endian archive whose names hold no NUL byte, whose subfolder
  entries name the folder they point at (and are not "." or ".."), whose
  string table and entry counts fit their 16-bit fields and whose image fits
  32 bits, loading the saved image gives back every folder with its name, its
  subfolders (as indices) and its files with their names and contents.
  This module holds the reading lemmas (header, sections, windows); the
  theorem itself is `LoadInvertsSave` in module `RarcInverse`.
*/
module RarcRoundTrip {
  import opened Util
  import opened Bytes
  import opened RarcFormat
  import opened RarcLayout
  import opened RarcLoad

  // ---------------------------------------------------------------------
  // Reading inside concatenations and windows
  // ---------------------------------------------------------------------

  /** `w` lies in `s` from `p` on. */
  ghost predicate At(s: seq<byte>, p: nat, w: seq<byte>) {
    p + |w| <= |s| && s[p..p + |w|] == w
  }

  lemma Read32Left(order: ByteOrder, a: seq<byte>, b: seq<byte>, i: nat)
    requires i + 4 <= |a|
    ensures Read32(order, a + b, i) == Read32(order, a, i)
  {
    assert (a + b)[i] == a[i] && (a + b)[i + 1] == a[i + 1] && (a + b)[i + 2] == a[i + 2] && (a + b)[i + 3] == a[i + 3];
  }

  lemma Read32Right(order: ByteOrder, a: seq<byte>, b: seq<byte>, i: nat, j: nat)
    requires i + 4 <= |b| && j == |a| + i
    ensures Read32(order, a + b, j) == Read32(order, b, i)
  {
    assert (a + b)[j] == b[i] && (a + b)[j + 1] == b[i + 1] && (a + b)[j + 2] == b[i + 2] && (a + b)[j + 3] == b[i + 3];
  }

  lemma Read16Left(order: ByteOrder, a: seq<byte>, b: seq<byte>, i: nat)
    requires i + 2 <= |a|
    ensures Read16(order, a + b, i) == Read16(order, a, i)
  {
    assert (a + b)[i] == a[i] && (a + b)[i + 1] == a[i + 1];
  }

  lemma Read16Right(order: ByteOrder, a: seq<byte>, b: seq<byte>, i: nat, j: nat)
    requires i + 2 <= |b| && j == |a| + i
    ensures Read16(order, a + b, j) == Read16(order, b, i)
  {
    assert (a + b)[j] == b[i] && (a + b)[j + 1] == b[i + 1];
  }

  lemma ReadW32(order: ByteOrder, x: u32)
    ensures Read32(order, W32(order, x), 0) == x
  {
    Read32At(order, [], x, []);
    assert [] + W32(order, x) + [] == W32(order, x);
  }

  lemma ReadW16(order: ByteOrder, x: nat)
    requires x < 0x1_0000
    ensures Read16(order, W16(order, x), 0) == x
  {
    Read16At(order, [], x, []);
    assert [] + W16(order, x) + [] == W16(order, x);
  }

  /** A word read inside a window is the word read in the window's own bytes. */
  lemma Read32In(order: ByteOrder, s: seq<byte>, p: nat, w: seq<byte>, j: nat, i: nat)
    requires At(s, p, w) && j + 4 <= |w| && i == p + j
    ensures Read32(order, s, i) == Read32(order, w, j)
  {
    assert s[i] == w[j] && s[i + 1] == w[j + 1] && s[i + 2] == w[j + 2] && s[i + 3] == w[j + 3];
  }

  lemma Read16In(order: ByteOrder, s: seq<byte>, p: nat, w: seq<byte>, j: nat, i: nat)
    requires At(s, p, w) && j + 2 <= |w| && i == p + j
    ensures Read16(order, s, i) == Read16(order, w, j)
  {
    assert s[i] == w[j] && s[i + 1] == w[j + 1];
  }

  /** A window of a window. */
  lemma AtCompose(s: seq<byte>, p: nat, w: seq<byte>, q: nat, v: seq<byte>)
    requires At(s, p, w) && At(w, q, v)
    ensures At(s, p + q, v)
  {
    forall k | 0 <= k < |v|
      ensures s[p + q + k] == v[k]
    {
      assert s[p..p + |w|][q + k] == s[p + q + k];
      assert w[q..q + |v|][k] == w[q + k];
    }
    assert s[p + q..p + q + |v|] == v;
  }

  lemma AtLeft(a: seq<byte>, b: seq<byte>)
    ensures At(a + b, 0, a)
  {
    assert (a + b)[..|a|] == a;
  }

  lemma AtRight(a: seq<byte>, b: seq<byte>)
    ensures At(a + b, |a|, b)
  {
    assert (a + b)[|a|..|a| + |b|] == b;
  }

  lemma AtFill(x: seq<byte>, n: nat)
    requires |x| <= n
    ensures At(Fill(x, n), 0, x)
  {
    AtLeft(x, Zeros(n - |x|));
  }

  // ---------------------------------------------------------------------
  // The sections of the saved image
  // ---------------------------------------------------------------------

  /** Where each of six parts lies in their zero-filled concatenation. */
  lemma SixParts(h: seq<byte>, f: seq<byte>, a: seq<byte>, b: seq<byte>, c: seq<byte>, d: seq<byte>, n: nat)
    requires |h + f + a + b + c + d| <= n
    ensures var s := Fill(h + f + a + b + c + d, n);
            && At(s, 0, h) && At(s, |h|, f) && At(s, |h| + |f|, a) && At(s, |h| + |f| + |a|, b)
            && At(s, |h| + |f| + |a| + |b|, c) && At(s, |h| + |f| + |a| + |b| + |c|, d)
  {
    var body := h + f + a + b + c + d;
    var s := Fill(body, n);
    AtFill(body, n);
    AtLeft(h + f + a + b + c, d);
    AtRight(h + f + a + b + c, d);
    AtLeft(h + f + a + b, c);
    AtRight(h + f + a + b, c);
    AtLeft(h + f + a, b);
    AtRight(h + f + a, b);
    AtLeft(h + f, a);
    AtRight(h + f, a);
    AtLeft(h, f);
    AtRight(h, f);
    AtCompose(s, 0, body, 0, h + f + a + b + c);
    AtCompose(s, 0, body, |h + f + a + b + c|, d);
    AtCompose(s, 0, h + f + a + b + c, 0, h + f + a + b);
    AtCompose(s, 0, h + f + a + b + c, |h + f + a + b|, c);
    AtCompose(s, 0, h + f + a + b, 0, h + f + a);
    AtCompose(s, 0, h + f + a + b, |h + f + a|, b);
    AtCompose(s, 0, h + f + a, 0, h + f);
    AtCompose(s, 0, h + f + a, |h + f|, a);
    AtCompose(s, 0, h + f, 0, h);
    AtCompose(s, 0, h + f, |h|, f);
  }

  /** The four sections in the filled image of two 0x20-byte headers and four filled sections. */
  lemma FilledSections(s: seq<byte>, h: seq<byte>, f: seq<byte>, ds: seq<byte>, es: seq<byte>, tb: seq<byte>, dd: seq<byte>,
                       n1: nat, n2: nat, n3: nat, n4: nat, total: nat, p1: nat, p2: nat, p3: nat)
    requires |h| == 0x20 && |f| == 0x20
    requires p1 == 0x40 + n1 && p2 == p1 + n2 && p3 == p2 + n3
    requires |ds| <= n1 && |es| <= n2 && |tb| <= n3 && |dd| <= n4 && 0x40 + n1 + n2 + n3 + n4 <= total
    requires s == Fill(h + f + Fill(ds, n1) + Fill(es, n2) + Fill(tb, n3) + Fill(dd, n4), total)
    ensures At(s, 0, h) && At(s, 0x20, f) && At(s, 0x40, ds) && At(s, p1, es)
    ensures At(s, p2, tb) && At(s, p3, dd)
  {
    var a, b, c, d := Fill(ds, n1), Fill(es, n2), Fill(tb, n3), Fill(dd, n4);
    assert |a| == n1 && |b| == n2 && |c| == n3 && |d| == n4;
    SixParts(h, f, a, b, c, d, total);
    AtInFill(s, 0x40, ds, n1);
    AtInFill(s, p1, es, n2);
    AtInFill(s, p2, tb, n3);
    AtInFill(s, p3, dd, n4);
  }

  /** A part placed zero-filled to `n` bytes is found where its filled block is. */
  lemma AtInFill(s: seq<byte>, p: nat, x: seq<byte>, n: nat)
    requires |x| <= n && At(s, p, Fill(x, n))
    ensures At(s, p, x)
  {
    AtFill(x, n);
    AtCompose(s, p, Fill(x, n), 0, x);
  }

  /** Where the entries, the string table and the file data start in the image. */
  function EntriesStart(flat: seq<DirView>): nat {
    0x40 + SizesOf(flat).dirEntries
  }

  function TableStart(flat: seq<DirView>): nat {
    EntriesStart(flat) + SizesOf(flat).fileEntries
  }

  function DataStart(flat: seq<DirView>): nat {
    TableStart(flat) + SizesOf(flat).strTable
  }

  /** Where the file header lie in the image. */
  lemma ImageHeaderAt(order: ByteOrder, flat: seq<DirView>)
    requires Fits(flat)
    ensures At(SaveImage(order, flat), 0, Header(order, SizesOf(flat)))
  {
    var z := SizesOf(flat);
    var t := TableOf(flat);
    SectionsFit(order, flat);
    FilledSections(SaveImage(order, flat), Header(order, z), FsHeader(order, z, |flat|, EntryCount(flat)),
                   DirSection(order, flat, t), EntrySection(order, flat, t), t.bytes, DataSection(flat),
                   z.dirEntries, z.fileEntries, z.strTable, z.fileData, z.total,
                   EntriesStart(flat), TableStart(flat), DataStart(flat));
  }

  /** Where the file-system header lie in the image. */
  lemma ImageFsHeaderAt(order: ByteOrder, flat: seq<DirView>)
    requires Fits(flat)
    ensures At(SaveImage(order, flat), 0x20, FsHeader(order, SizesOf(flat), |flat|, EntryCount(flat)))
  {
    var z := SizesOf(flat);
    var t := TableOf(flat);
    SectionsFit(order, flat);
    FilledSections(SaveImage(order, flat), Header(order, z), FsHeader(order, z, |flat|, EntryCount(flat)),
                   DirSection(order, flat, t), EntrySection(order, flat, t), t.bytes, DataSection(flat),
                   z.dirEntries, z.fileEntries, z.strTable, z.fileData, z.total,
                   EntriesStart(flat), TableStart(flat), DataStart(flat));
  }

  /** Where the directory records lie in the image. */
  lemma ImageDirSectionAt(order: ByteOrder, flat: seq<DirView>)
    requires Fits(flat)
    ensures At(SaveImage(order, flat), 0x40, DirSection(order, flat, TableOf(flat)))
  {
    var z := SizesOf(flat);
    var t := TableOf(flat);
    SectionsFit(order, flat);
    FilledSections(SaveImage(order, flat), Header(order, z), FsHeader(order, z, |flat|, EntryCount(flat)),
                   DirSection(order, flat, t), EntrySection(order, flat, t), t.bytes, DataSection(flat),
                   z.dirEntries, z.fileEntries, z.strTable, z.fileData, z.total,
                   EntriesStart(flat), TableStart(flat), DataStart(flat));
  }

  /** Where the entries lie in the image. */
  lemma ImageEntrySectionAt(order: ByteOrder, flat: seq<DirView>)
    requires Fits(flat)
    ensures At(SaveImage(order, flat), EntriesStart(flat), EntrySection(order, flat, TableOf(flat)))
  {
    var z := SizesOf(flat);
    var t := TableOf(flat);
    SectionsFit(order, flat);
    FilledSections(SaveImage(order, flat), Header(order, z), FsHeader(order, z, |flat|, EntryCount(flat)),
                   DirSection(order, flat, t), EntrySection(order, flat, t), t.bytes, DataSection(flat),
                   z.dirEntries, z.fileEntries, z.strTable, z.fileData, z.total,
                   EntriesStart(flat), TableStart(flat), DataStart(flat));
  }

  /** Where the string table lie in the image. */
  lemma ImageTableAt(order: ByteOrder, flat: seq<DirView>)
    requires Fits(flat)
    ensures At(SaveImage(order, flat), TableStart(flat), TableOf(flat).bytes)
  {
    var z := SizesOf(flat);
    var t := TableOf(flat);
    SectionsFit(order, flat);
    FilledSections(SaveImage(order, flat), Header(order, z), FsHeader(order, z, |flat|, EntryCount(flat)),
                   DirSection(order, flat, t), EntrySection(order, flat, t), t.bytes, DataSection(flat),
                   z.dirEntries, z.fileEntries, z.strTable, z.fileData, z.total,
                   EntriesStart(flat), TableStart(flat), DataStart(flat));
  }

  /** Where the file data lie in the image. */
  lemma ImageDataAt(order: ByteOrder, flat: seq<DirView>)
    requires Fits(flat)
    ensures At(SaveImage(order, flat), DataStart(flat), DataSection(flat))
  {
    var z := SizesOf(flat);
    var t := TableOf(flat);
    SectionsFit(order, flat);
    FilledSections(SaveImage(order, flat), Header(order, z), FsHeader(order, z, |flat|, EntryCount(flat)),
                   DirSection(order, flat, t), EntrySection(order, flat, t), t.bytes, DataSection(flat),
                   z.dirEntries, z.fileEntries, z.strTable, z.fileData, z.total,
                   EntriesStart(flat), TableStart(flat), DataStart(flat));
  }

  // ---------------------------------------------------------------------
  // The headers
  // ---------------------------------------------------------------------

  /** Word `k` of consecutive words is read back from offset `4k`. */
  lemma {:induction false} WordsRead(order: ByteOrder, ws: seq<u32>, k: nat, at: nat)
    requires k < |ws| && at == 4 * k
    ensures Read32(order, Words(order, ws), at) == ws[k]
    decreases |ws|
  {
    var init := ws[..|ws| - 1];
    var last := W32(order, ws[|ws| - 1]);
    if k == |ws| - 1 {
      Read32Right(order, Words(order, init), last, 0, at);
      ReadW32(order, ws[k]);
    } else {
      Read32Left(order, Words(order, init), last, at);
      WordsRead(order, init, k, at);
    }
  }

  /** The header fields `Load` reads from the image `Save` writes, before any simplification. */
  function SavedHdr(z: Sizes, dirs: nat): Hdr {
    Hdr(0x20, (0x20 + z.dirEntries + z.fileEntries + z.strTable) % TWO_32, dirs % TWO_32, 0x20,
        (0x20 + z.dirEntries) % TWO_32, z.strTable, (0x20 + z.dirEntries + z.fileEntries) % TWO_32)
  }

  /** The magic, the file-system offset and the file-system size, read from a header. */
  lemma HeaderFields(order: ByteOrder, s: seq<byte>, z: Sizes)
    requires At(s, 0, Header(order, z))
    ensures Read32(order, s, 0) == RARC_MAGIC && Read32(order, s, 8) == 0x20
    ensures Read32(order, s, 12) == (0x20 + z.dirEntries + z.fileEntries + z.strTable) % TWO_32
  {
    var ws: seq<u32> := [0x5241_5243, z.total, 0x20, (0x20 + z.dirEntries + z.fileEntries + z.strTable) % TWO_32,
                         z.fileData, z.fileData, 0, 0];
    WordsRead(order, ws, 0, 0);
    WordsRead(order, ws, 2, 8);
    WordsRead(order, ws, 3, 12);
    Read32In(order, s, 0, Words(order, ws), 0, 0);
    Read32In(order, s, 0, Words(order, ws), 8, 8);
    Read32In(order, s, 0, Words(order, ws), 12, 12);
  }

  /** Reading the directory count from a file-system header. */
  lemma FsDirCount(order: ByteOrder, s: seq<byte>, z: Sizes, dirs: nat, count: nat)
    requires At(s, 0x20, FsHeader(order, z, dirs, count))
    ensures Read32(order, s, 0x20) == dirs % TWO_32
  {
    FsWord(order, s, z, dirs, count, 0, 0, 0x20);
  }

  /** Reading the directory offset from a file-system header. */
  lemma FsDirOffset(order: ByteOrder, s: seq<byte>, z: Sizes, dirs: nat, count: nat)
    requires At(s, 0x20, FsHeader(order, z, dirs, count))
    ensures Read32(order, s, 0x24) == 0x20
  {
    FsWord(order, s, z, dirs, count, 1, 4, 0x24);
  }

  /** Reading the entry offset from a file-system header. */
  lemma FsEntryOffset(order: ByteOrder, s: seq<byte>, z: Sizes, dirs: nat, count: nat)
    requires At(s, 0x20, FsHeader(order, z, dirs, count))
    ensures Read32(order, s, 0x2C) == (0x20 + z.dirEntries) % TWO_32
  {
    FsWord(order, s, z, dirs, count, 3, 12, 0x2C);
  }

  /** Reading the string table size from a file-system header. */
  lemma FsTableSize(order: ByteOrder, s: seq<byte>, z: Sizes, dirs: nat, count: nat)
    requires At(s, 0x20, FsHeader(order, z, dirs, count))
    ensures Read32(order, s, 0x30) == z.strTable
  {
    FsWord(order, s, z, dirs, count, 4, 16, 0x30);
  }

  /** Reading the string table offset from a file-system header. */
  lemma FsTableOffset(order: ByteOrder, s: seq<byte>, z: Sizes, dirs: nat, count: nat)
    requires At(s, 0x20, FsHeader(order, z, dirs, count))
    ensures Read32(order, s, 0x34) == (0x20 + z.dirEntries + z.fileEntries) % TWO_32
  {
    FsWord(order, s, z, dirs, count, 5, 20, 0x34);
  }

  /** Word `k` of a file-system header, read at its offset in the image. */
  lemma FsWord(order: ByteOrder, s: seq<byte>, z: Sizes, dirs: nat, count: nat, k: nat, at: nat, i: nat)
    requires k < 6 && at == 4 * k && i == 0x20 + at && At(s, 0x20, FsHeader(order, z, dirs, count))
    ensures Read32(order, s, i) == FsWords(z, dirs, count)[k]
  {
    var ws := FsWords(z, dirs, count);
    var tail := W16(order, count % 0x1_0000) + [0x00, 0x00] + W32(order, 0);
    WordsRead(order, ws, k, at);
    Read32Left(order, Words(order, ws), tail, at);
    Read32In(order, s, 0x20, Words(order, ws) + tail, at, i);
  }


  /** `ReadHdr` on a buffer whose header words are the ones `Save` writes. */
  lemma HdrFromFields(order: ByteOrder, s: seq<byte>, z: Sizes, dirs: nat)
    requires |s| >= 0x40
    requires Read32(order, s, 8) == 0x20
    requires Read32(order, s, 12) == (0x20 + z.dirEntries + z.fileEntries + z.strTable) % TWO_32
    requires Read32(order, s, 0x20) == dirs % TWO_32 && Read32(order, s, 0x24) == 0x20
    requires Read32(order, s, 0x2C) == (0x20 + z.dirEntries) % TWO_32 && Read32(order, s, 0x30) == z.strTable
    requires Read32(order, s, 0x34) == (0x20 + z.dirEntries + z.fileEntries) % TWO_32
    ensures ReadHdr(order, s) == Some(SavedHdr(z, dirs))
  {
  }

  /** Reading the two headers of any buffer that starts with the headers `Save` writes. */
  lemma HeadersRead(order: ByteOrder, s: seq<byte>, z: Sizes, dirs: nat, count: nat)
    requires At(s, 0, Header(order, z)) && At(s, 0x20, FsHeader(order, z, dirs, count))
    ensures Read32(order, s, 0) == RARC_MAGIC
    ensures ReadHdr(order, s) == Some(SavedHdr(z, dirs))
  {
    HeaderFields(order, s, z);
    FsDirCount(order, s, z, dirs, count);
    FsDirOffset(order, s, z, dirs, count);
    FsEntryOffset(order, s, z, dirs, count);
    FsTableSize(order, s, z, dirs, count);
    FsTableOffset(order, s, z, dirs, count);
    HdrFromFields(order, s, z, dirs);
  }

  /** Reading the two headers of a saved image gives the magic, the offsets and the sizes `Save` wrote. */
  lemma HeaderReads(order: ByteOrder, flat: seq<DirView>)
    requires Fits(flat)
    ensures Read32(order, SaveImage(order, flat), 0) == RARC_MAGIC
    ensures ReadHdr(order, SaveImage(order, flat)) == Some(SavedHdr(SizesOf(flat), |flat|))
  {
    ImageHeaderAt(order, flat);
    ImageFsHeaderAt(order, flat);
    HeadersRead(order, SaveImage(order, flat), SizesOf(flat), |flat|, EntryCount(flat));
  }
}
